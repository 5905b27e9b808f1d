# atlas.radar — a verified model of its core

atlas.radar scans a directory of git repositories and prints one status
line per repository: its branch, whether the working tree is dirty, how
many files are added, modified or deleted, and how far it is ahead of or
behind its upstream. A `--show clean|unclean` switch filters the list. The
`--fetch`, `--pull` and `--push` switches instead run one git operation in
every repository and count successes and failures.

The model covers the logic of `main.go`:

- `StatusParser` (status_parser.dfy): `getGitStatus` reads the output of
  `git status --branch --porcelain`. `GetGitStatus` is the method that
  follows the source step by step. `Parse` is the specification it is
  proved to compute. It defines the branch name, the ahead/behind counts
  and the change counters by what they mean.
- `GoStrings` and `GoFmt` (go_strings.dfy, go_fmt.dfy): the behaviour of
  the Go library calls the code depends on. The parser uses
  `strings.Split`, `Index`, `HasPrefix`, `TrimPrefix` and `Trim`, and
  `fmt.Sscanf` with a `"word %d"` format. The summary and table code uses
  `strings.Join` and `fmt.Sprintf`'s `%d`. Strings are Go byte strings, one
  `char` per byte.
- `StatusProperties` (status_properties.dfy): what the parser promises.
  Empty output gives the zero record. Each further line changes the record
  in one exact way. The counters partition the change lines. The last
  ahead/behind token that scans wins.
- `BranchHeader` (branch_header.dfy): an independent definition of the
  header line git writes (`## branch...upstream [ahead N, behind M]`). The
  round-trip lemma `ParseHeader` shows the parser recovers the branch and
  both counts from it.
- `StatusExamples` (status_examples.dfy): concrete outputs and edge cases.
  These are an upstream that is gone, a second `...`, and a negative count
  that `Sscanf` accepts.
- `Visibility` (visibility.dfy): the `--show` filter of the scan loop.
- `Scanner` (scanner.dfy): one pass of the scan loop over a directory
  listing.
- `Bulk` (bulk.dfy): `handleBulkOperations`.
- `Summary` (summary.dfy): the changes and remote text of `printStatus`
  and `renderTable`. Each styling call is treated as the identity.

Running git and reading the file system are inputs to the model:

- A directory listing is a sequence of entries.
- Each entry carries what `os.Stat` reported for its `.git` path.
- It also carries the output of `git status` (`None` when the command
  fails) or whether the bulk git command succeeds.

Two behaviours of the code worth knowing:

- `getGitStatus` never reports empty output as an error. `strings.Split`
  always returns at least one piece, so the `len(lines) == 0` branch is
  dead, and empty output parses to the zero record (`EmptyOutputIsZero`).
- The filters "clean" and "unclean" are complements only for non-negative
  counts, because "clean" tests `ahead > 0` and `behind > 0` while
  "unclean" tests `== 0`. `fmt.Sscanf` accepts a sign, so a header such as
  `[ahead -3]` gives a negative count (`NegativeAhead`). A record that is
  not dirty, with that header and a behind count that is not positive,
  then passes both filters (`NegativeCountPassesBoth`).

## Model

| member | source | states |
|---|---|---|
| StatusParser.Parse | main.go:292-338 | The parsed record has no name yet. It is dirty iff some line after the first is a change line, and modified + added + deleted never exceeds the number of change lines. |
| StatusParser.GetGitStatus | main.go:284-338 | A failed command gives an error. Otherwise the result is the record `Parse` specifies for the output. The empty-output error is never returned. |
| StatusParser.ReadTracking | main.go:309-315 | The loop over the ", "-separated tracking tokens sets ahead and behind to the value of the last token of that kind that scans, and leaves them 0 when none does. |
| StatusParser.TallyChanges | main.go:320-336 | The loop over the lines after the first: dirty iff some line has at least 3 bytes, and each counter equals the number of such lines of its class. |
| StatusParser.AheadToken | main.go:310-311 | A token starting "ahead " is read only into the ahead count, by `Sscanf(token, "ahead %d")`. |
| StatusParser.BehindToken | main.go:312-313 | A token starting "behind " is read only into the behind count. |
| StatusParser.OtherToken | main.go:309-315 | A token with neither prefix changes neither count. |
| StatusParser.AheadIsNotBehind | main.go:310-312 | The two token kinds exclude each other, so the `else if` order does not matter. |
| StatusParser.LastFieldStep | main.go:309-315 | Reading one more token replaces the count exactly when that token scans. |
| StatusParser.Lines | main.go:292-295 | The output always splits into at least one line, so the empty-output branch cannot be taken. |
| StatusProperties.EmptyOutputIsZero | main.go:292-297 | Empty output gives the single line "" and the all-zero record, not an error. |
| StatusProperties.LinesOfAppended | main.go:292 | Appending a newline and a line without a newline appends exactly that line. |
| StatusProperties.SingleLine | main.go:297-318 | Output of one line is not dirty and has zero change counters; only the branch and the tracking counts come from it. |
| StatusProperties.FirstLine | main.go:300 | The header line is the text before the first newline. |
| StatusProperties.BranchIsTextBeforeFirstSep | main.go:301-304 | Without the "## " prefix the branch is "". With it, the branch is the text after "## " up to the first "..." (all of it when there is none). |
| StatusProperties.CountersNeedTrackingBrackets | main.go:306-308 | A non-zero ahead or behind count needs the "## " prefix, a "...", and a '[' in the text after it. |
| StatusProperties.NoValueNoScan | main.go:309-315 | When no count is read, no token scans for that word. |
| StatusProperties.LastScanWins | main.go:309-315 | When a count is read, it is the value of some token, and no later token scans. |
| StatusProperties.FieldNeedsWord | main.go:310-313 | Only a token that starts with the word and a space can set that word's count. |
| StatusParser.Classify | main.go:329-335 | A line is modified iff either status byte is 'M'. Otherwise it is added iff the first byte is 'A' or the second is '?'. Otherwise it is deleted iff either byte is 'D'. Any other code is unrecognised. |
| StatusParser.ClassesPartitionChangeLines | main.go:321-336 | Each change line is counted in exactly one class: modified, added, deleted or unrecognised. |
| StatusProperties.NoneUnrecognised | main.go:329-335 | No line is unrecognised iff every change line has a recognised status code. |
| StatusParser.DirtyIffCounted | main.go:322-325 | Some line has at least 3 bytes iff the number of change lines is positive. |
| StatusProperties.CountersBoundedByChangeLines | main.go:320-336 | modified + added + deleted is at most the number of change lines. It is equal iff every code is recognised. The record is dirty iff there is a change line. |
| StatusProperties.ChangesOfAppended | main.go:321-336 | One more change line sets the dirty flag exactly when it has at least 3 bytes and adds one to exactly the counter of its class. |
| StatusProperties.AppendedLine | main.go:321-336 | A line shorter than 3 bytes changes nothing. A longer line sets dirty and adds one to exactly the counter of its class. |
| StatusProperties.TrailingNewline | main.go:321-324 | The empty line after a final newline changes nothing. |
| StatusProperties.UntrackedLineAddsOne | main.go:331-332 | A "?? path" line counts as added. |
| StatusProperties.ModifiedWins | main.go:329-330 | An 'M' in either column counts as modified, whatever the other column holds. |
| BranchHeader.TrackingTokens | main.go:309 | git lists at most two tracking tokens, and none exactly when both counts are 0. |
| BranchHeader.SplitAfterRefName | main.go:303 | A valid ref name holds no "...", so splitting after it cuts at the separator that follows. |
| BranchHeader.SplitTrackingTokens | main.go:309 | Splitting git's tracking text on ", " gives back its tokens. |
| BranchHeader.TrimBracketed | main.go:308 | Trimming the brackets off "[text]" gives the text when it neither starts nor ends with a bracket. |
| BranchHeader.AheadTokenValue | main.go:310-311 | "ahead N" is read as N into the ahead count and nothing into behind. |
| BranchHeader.BehindTokenValue | main.go:312-313 | "behind N" is read as N into the behind count and nothing into ahead. |
| BranchHeader.CountsOfTrackingTokens | main.go:309-315 | The token loop recovers both counts from git's tracking tokens. |
| BranchHeader.SplitHeader | main.go:302-303 | The header splits into the branch and, when there is an upstream, the upstream name with its tracking text. |
| BranchHeader.BranchOfHeader | main.go:301-304 | The parser recovers the branch from git's header. |
| BranchHeader.TrackingOfPiece | main.go:307-308 | The first '[' after the upstream name starts the tracking text. There is none when both counts are 0. |
| BranchHeader.TrackingInfoOfHeader | main.go:306-308 | The text between the brackets is exactly git's ", "-joined tracking tokens. |
| BranchHeader.CountersOfHeader | main.go:306-316 | The parser recovers both counts from git's header, and 0 without an upstream. |
| BranchHeader.HeaderIsOneLine | main.go:300 | git's header holds no newline. |
| BranchHeader.ParseHeader | main.go:292-318 | The round trip: for any output that starts with git's header, the parsed branch, ahead and behind are the ones written. |
| BranchHeader.ReadBracketedLine | main.go:301-308 | For "## b...u [text]" the branch is b and the tracking text is text. |
| StatusExamples.HeaderAlone | main.go:292-338 | A header alone parses to a record that is not dirty, with the header's branch and counts. |
| StatusExamples.TrackingTwoOne | main.go:308-309 | git's tracking text for 2 ahead and 1 behind is " [ahead 2, behind 1]". |
| StatusExamples.HeaderTwoOne | main.go:301-308 | The header for main tracking origin/main, 2 ahead and 1 behind, is "## main...origin/main [ahead 2, behind 1]". |
| StatusExamples.HeaderThenModified | main.go:292-338 | A header followed by one modified line parses to a dirty record with modified = 1. |
| StatusExamples.AheadBehindModified | main.go:292-338 | That header followed by " M file.txt" parses to branch main, dirty, ahead 2, behind 1, modified 1. |
| StatusExamples.BranchWithoutUpstream | main.go:301-306 | "## main" gives branch main and zero counts. |
| StatusExamples.ParseBracketedLine | main.go:292-318 | A bracketed header line parses to its branch and to the counts the token loop reads from its tracking text. |
| StatusExamples.OneToken | main.go:309 | Tracking text without a comma is a single token. |
| StatusExamples.NegativeAheadToken | main.go:311 | "ahead -N" is read as -N because Sscanf accepts a sign. |
| StatusExamples.UnderscoreEndsCount | main.go:311 | %d reads decimal digits only, so the token "ahead N_..." sets the ahead count to N: scanning stops at the underscore. |
| StatusExamples.NegativeAhead | main.go:292-318 | A header with "[ahead -N]" parses to ahead = -N. |
| StatusExamples.UpstreamGone | main.go:309-315 | "[gone]" leaves both counts 0. |
| StatusExamples.SecondUpstreamSep | main.go:303-306 | With a second "..." after the upstream name, the tracking text is never reached and both counts stay 0. |
| GoStrings.Join | main.go:360 | strings.Join of no pieces is "", of one piece is that piece, and otherwise starts with the first piece. JoinSplit shows that Join undoes Split. SplitJoin shows that Split undoes Join, for a one-character separator that no piece contains. |
| GoStrings.Split | main.go:292 | strings.Split always returns at least one piece. |
| GoStrings.Index | main.go:307 | strings.Index returns -1 or an offset at which the whole separator fits inside the string. |
| GoStrings.Trim | main.go:308 | strings.Trim never lengthens the string, and what it returns neither starts nor ends with a byte of the cut set. |
| GoStrings.TrimPrefix | main.go:302 | strings.TrimPrefix removes the prefix when present and otherwise returns the string unchanged. |
| GoStrings.IndexIsFirst | main.go:307 | strings.Index returns the first occurrence, or -1 iff there is none. |
| GoStrings.JoinSplit | main.go:292 | Joining the pieces of strings.Split with the separator gives the string back. |
| GoStrings.SplitPiecesFree | main.go:303 | No piece of a Split contains the separator. |
| GoStrings.SplitJoin | main.go:360 | For a one-character separator, Split undoes Join when no piece holds that character. This serves the " " joins of the summary text, which Summary's round trips read back. |
| GoStrings.TrimKeepsMiddle | main.go:308 | strings.Trim keeps one contiguous middle part; everything cut off is in the cut set, and the kept part neither starts nor ends with a cut char. |
| GoFmt.Sscanf | main.go:311-313 | Sscanf(part, "word %d") reads a value only when part starts with the word followed by a white-space byte, and the value is within int64. |
| GoFmt.ScanInt | main.go:311-313 | The %d verb gives a value only within int64. |
| GoFmt.DecimalString | main.go:352 | %d prints a non-negative count as one or more decimal digits with no leading zero. DigitsValueOfDecimal reads them back as the count. |
| GoFmt.DigitsValueOfDecimal | main.go:352 | Reading back the digits %d prints gives the number. |
| GoFmt.ScanIntOfDecimal | main.go:311-313 | %d reads a printed number back, whatever non-digit follows it, and fails above the int64 maximum. |
| GoFmt.ScanIntOfNegative | main.go:311-313 | %d reads "-N" as -N. |
| GoFmt.SscanfAfterSpace | main.go:311-313 | Sscanf("word %d") reads the number after the word, one space and any further spaces. |
| GoFmt.SscanfOfDecimal | main.go:311-313 | Sscanf("word %d") on "word N" gives N, whatever non-digit follows N. |
| Visibility.ModeOf | main.go:122-131 | The switch selects the clean case iff the value is "clean", the unclean case iff it is "unclean", and otherwise no filtering. |
| Visibility.ShouldShow | main.go:121-131 | "clean" shows a record iff it is not dirty and neither count is positive. "unclean" shows it iff it is dirty or either count is non-zero. Any other value shows every record. |
| Visibility.Keep | main.go:121-135 | Every record kept is one of the input records and passes the filter. |
| Visibility.CleanIffNotUnclean | main.go:121-131 | With non-negative counts a record passes "clean" iff it does not pass "unclean". |
| Visibility.NegativeCountPassesBoth | main.go:123-130 | A record that is not dirty, with a negative ahead count and a behind count that is not positive, passes both filters. |
| Visibility.OtherModeKeepsAll | main.go:121-122 | Any other show value keeps every record. |
| Visibility.CleanUncleanPartition | main.go:121-135 | With non-negative counts, "clean" and "unclean" together keep each record exactly once. |
| Visibility.PositionsSelect | main.go:133-135 | The k-th kept record is the record at the k-th listed position. |
| Visibility.PositionsIncreasing | main.go:133-135 | The positions increase, so the kept records are in input order. |
| Visibility.PositionListed | main.go:121-135 | Every record that passes the filter is kept. |
| Scanner.RecordOf | main.go:103-118 | An entry yields a record iff it is a directory, its .git exists and git succeeds. The record is then the parsed output, named after the entry. |
| Scanner.Records | main.go:102-118 | The loop yields at most one record per entry of the listing. |
| Scanner.RecordsConcat | main.go:102-136 | The records of two consecutive parts of a listing are the records of each part, in order. |
| Scanner.RecordsFromEntries | main.go:103-118 | Every record comes from an entry of the listing. |
| Scanner.EntryRecorded | main.go:103-118 | Every entry that yields a record contributes it. |
| Scanner.Visible | main.go:121-135 | Every record of a pass passes the filter. |
| Scanner.VisibleAll | main.go:121-122 | Without a filter, a pass shows every record. |
| Scanner.Scan | main.go:94-136 | A failed directory read gives nothing. Otherwise the loop collects the filtered records of the listing, in listing order. |
| Bulk.SelectOperation | main.go:255-264 | fetch wins over pull and pull over push; the result is each operation exactly under its condition. |
| Bulk.Repositories | main.go:240-250 | The operation runs only in directories whose .git exists. |
| Bulk.Reports | main.go:240-274 | At most one report per entry, each for the chosen operation. |
| Bulk.ReportPerRepository | main.go:240-274 | There is one report per repository, in listing order, with that repository's outcome. |
| Bulk.Successes | main.go:271-272 | The success count is at most the number of reports. |
| Bulk.Failures | main.go:268-269 | The failure count is at most the number of reports. |
| Bulk.CountsCoverReports | main.go:267-273 | Every report is counted once, as a success or as a failure. |
| Bulk.NoFailureIffAllSucceed | main.go:267-273 | The failure count is 0 iff every command succeeded. |
| Bulk.HandleBulkOperations | main.go:230-278 | A failed directory read runs nothing. Otherwise the loop produces the reports for the chosen operation and counts their successes and failures. |
| Bulk.TotalsCoverRepositories | main.go:237-277 | The two totals add up to the number of repositories, whatever failed. |
| Bulk.PullThreeRepositories | main.go:240-277 | A listing with a file, a directory without .git and three repositories, the second failing, reports 2 successes and 1 failure in order. |
| Summary.Tagged | main.go:188-196 | A detail is present iff its count is positive. |
| Summary.ChangesText | main.go:185-200 | The changes text (the same in printStatus and in the table) is "clean" iff the tree is not dirty, and empty iff the tree is dirty and no count is positive. |
| Summary.ChangesRoundTrip | main.go:347-361 | For a dirty tree, reading the changes text back gives each positive count, for "+", "~" and "-", and nothing for the others. |
| Summary.RemoteText | main.go:175-182 | The remote text is empty iff neither count is positive. |
| Summary.RemoteRoundTrip | main.go:175-182 | Reading the remote text back gives each positive count after its arrow, and nothing for the others. |
| Summary.StatusPartsOfLine | main.go:345-370 | printStatus's status part is the changes text, followed by a space and the remote text when that is not empty. |
| Summary.StatusLine | main.go:370 | The printed line is the name, the branch in parentheses, the changes text, and then a space and the remote text when that is not empty. |

## Left out

- Running git (`exec.Command`, `Output`, `Run`): the command's output, or whether it succeeds, is an input to the model.
- The file system (`os.ReadDir`, `os.Stat`, `filepath.Abs` and `Join`): a listing is a sequence of entries carrying what these calls reported. A failed `ReadDir` is `None`.
- Entries are kept in the given order. `os.ReadDir`'s sorting by name is not modelled.
- `os.Stat` errors other than "does not exist" let the entry through, as in the code. The model carries only the not-exist flag.
- Process exit on a failed directory read (`os.Exit(1)`): `Scan` returns `None`.
- Flag parsing and usage text.
- Watch mode: the endless loop, `time.Sleep`, `time.Now`, `clearScreen`, the "Radar" header and the "Filtering:" line. These are wall-clock and terminal I/O.
- lipgloss styles and `table.New`: each Render is the identity. The table's frame and layout are not modelled; its CHANGES and REMOTE cells are `ChangesText` and `RemoteText`.
- Printing: the bulk "OK"/"FAIL" lines are the `Report` values, and the "Total" line is the two counts. The text formatting of both is not modelled.
- Recipe.go is a build script that runs external tasks. It is not part of this model.
- GoFmt.Sscanf: before the number it skips the ASCII white-space bytes space, tab, CR, VT and FF. Go's scanner also skips other Unicode space characters, which git's header never contains.
- StatusParser.Parse: the counters are unbounded integers. Go's `int` would wrap after 2^63 change lines, which cannot occur.
- StatusParser.GetGitStatus: the record is a value, not a shared pointer. Nothing in the core aliases it.
- BranchHeader.Header: covers the branch-and-upstream header. git's "No commits yet on" and "HEAD (no branch)" headers and the " [gone]" suffix of an upstream that no longer exists are not in the reference definition. The parser handles the first two like any other line; StatusExamples.UpstreamGone shows that "[gone]" leaves both counts 0.
