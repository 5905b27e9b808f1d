/**
 * The status parser: getGitStatus in main.go turns the standard output of
 * `git status --branch --porcelain` into a GitStatus record.
 *
 * The output is given as a parameter (`None` when the command failed), so
 * that running git is not part of the model. `Parse` is the specification:
 * each field of the record is defined by what it means (the branch before
 * the first "...", the last ahead/behind token that scans, the number of
 * change lines of each kind). `GetGitStatus` is the source's step-by-step
 * algorithm, proved to compute `Parse`.
 */
module StatusParser {
  import opened Wrappers
  import opened GoStrings
  import opened GoFmt

  /** One repository's state (GitStatus in main.go); the counters are Go ints. */
  datatype GitStatus = GitStatus(
    name: string,
    branch: string,
    isDirty: bool,
    ahead: int,
    behind: int,
    modified: int,
    added: int,
    deleted: int)

  /** Go's zero value of GitStatus, which getGitStatus starts from. */
  const Zero := GitStatus("", "", false, 0, 0, 0, 0, 0)

  /** Why getGitStatus returns no record. */
  datatype StatusError = CommandFailed | EmptyOutput

  const Newline := "\n"
  const BranchMarker := "## "
  const UpstreamSep := "..."
  const TokenSep := ", "
  const Brackets: set<char> := {'[', ']'}

  // ---------------------------------------------------------------------
  // The tracking tokens

  /** A token of the tracking info read into the `word` counter, if it scans. */
  function Field(token: string, word: string): Option<int>
  {
    if HasPrefix(token, word + " ") then Sscanf(token, word) else None
  }

  /** A token that starts with "ahead " is never a "behind " token. */
  lemma AheadIsNotBehind(token: string)
    requires HasPrefix(token, "ahead ")
    ensures !HasPrefix(token, "behind ")
  {
    assert token[0] == token[..6][0] == 'a';
  }

  /** An "ahead " token can set the ahead count only. */
  lemma AheadToken(token: string)
    requires HasPrefix(token, "ahead ")
    ensures Field(token, "ahead") == Sscanf(token, "ahead")
    ensures Field(token, "behind") == None
  {
    assert "ahead" + " " == "ahead ";
    assert "behind" + " " == "behind ";
    AheadIsNotBehind(token);
  }

  /** A "behind " token can set the behind count only. */
  lemma BehindToken(token: string)
    requires HasPrefix(token, "behind ")
    ensures Field(token, "ahead") == None
    ensures Field(token, "behind") == Sscanf(token, "behind")
  {
    assert "ahead" + " " == "ahead ";
    assert "behind" + " " == "behind ";
    if HasPrefix(token, "ahead ") {
      AheadIsNotBehind(token);
    }
  }

  /** Any other token sets neither count. */
  lemma OtherToken(token: string)
    requires !HasPrefix(token, "ahead ") && !HasPrefix(token, "behind ")
    ensures Field(token, "ahead") == None && Field(token, "behind") == None
  {
    assert "ahead" + " " == "ahead ";
    assert "behind" + " " == "behind ";
  }

  /** The value of the last token that scans as a `word` field, if any. */
  function LastField(tokens: seq<string>, word: string): Option<int>
  {
    if tokens == [] then None
    else match Field(tokens[|tokens| - 1], word)
      case Some(v) => Some(v)
      case None => LastField(tokens[..|tokens| - 1], word)
  }

  /** One more token: it wins when it scans, else the earlier answer stands. */
  lemma LastFieldStep(tokens: seq<string>, k: nat, word: string)
    requires k < |tokens|
    ensures LastField(tokens[..k + 1], word)
         == if Field(tokens[k], word).Some? then Field(tokens[k], word) else LastField(tokens[..k], word)
  {
    assert tokens[..k + 1][..k] == tokens[..k];
  }

  // ---------------------------------------------------------------------
  // The branch line

  /** The branch: the text after "## " up to the first "...", or "" without "## ". */
  function BranchName(line: string): string
  {
    if HasPrefix(line, BranchMarker) then Split(line[|BranchMarker|..], UpstreamSep)[0] else ""
  }

  /**
   * The text inside the tracking brackets: only when the line starts with
   * "## ", has an upstream after "..." and the second piece has a '['; the
   * piece from that '[' on, with every leading and trailing bracket trimmed.
   */
  function TrackingInfo(line: string): Option<string>
  {
    if !HasPrefix(line, BranchMarker) then None
    else
      var parts := Split(line[|BranchMarker|..], UpstreamSep);
      if |parts| < 2 then None
      else
        var idx := Index(parts[1], "[");
        if idx < 0 then None else Some(Trim(parts[1][idx..], Brackets))
  }

  /** The ahead ("ahead") or behind ("behind") count the branch line gives. */
  function Counter(line: string, word: string): int
  {
    match TrackingInfo(line)
    case None => 0
    case Some(info) => LastField(Split(info, TokenSep), word).GetOr(0)
  }

  // ---------------------------------------------------------------------
  // The change lines

  /** The counter a porcelain change line bumps, by its two status bytes. */
  datatype Change = Modified | Added | Deleted | Unrecognised

  /** Modified wins over Added/untracked, which wins over Deleted. */
  function Classify(x: char, y: char): (c: Change)
    ensures c == Modified <==> x == 'M' || y == 'M'
    ensures c == Added <==> x != 'M' && y != 'M' && (x == 'A' || y == '?')
    ensures c == Deleted <==> x != 'M' && y != 'M' && x != 'A' && y != '?' && (x == 'D' || y == 'D')
  {
    if x == 'M' || y == 'M' then Modified
    else if x == 'A' || y == '?' then Added
    else if x == 'D' || y == 'D' then Deleted
    else Unrecognised
  }

  /** Lines shorter than three bytes (the empty last line among them) are skipped. */
  predicate IsChangeLine(line: string)
  {
    |line| >= 3
  }

  predicate HasChangeLine(lines: seq<string>)
  {
    exists k :: 0 <= k < |lines| && IsChangeLine(lines[k])
  }

  /** The number of change lines classified as `c`. */
  function CountChanges(lines: seq<string>, c: Change): nat
  {
    if lines == [] then 0
    else
      var last := lines[|lines| - 1];
      CountChanges(lines[..|lines| - 1], c)
        + (if IsChangeLine(last) && Classify(last[0], last[1]) == c then 1 else 0)
  }

  /** The number of change lines. */
  function CountChangeLines(lines: seq<string>): nat
  {
    if lines == [] then 0
    else CountChangeLines(lines[..|lines| - 1]) + (if IsChangeLine(lines[|lines| - 1]) then 1 else 0)
  }

  /** Every change line is counted in exactly one of the four classes. */
  lemma {:induction false} ClassesPartitionChangeLines(lines: seq<string>)
    ensures CountChanges(lines, Modified) + CountChanges(lines, Added)
          + CountChanges(lines, Deleted) + CountChanges(lines, Unrecognised)
         == CountChangeLines(lines)
  {
    if lines != [] {
      ClassesPartitionChangeLines(lines[..|lines| - 1]);
    }
  }

  /** There is a change line exactly when the change-line count is positive. */
  lemma {:induction false} DirtyIffCounted(lines: seq<string>)
    ensures HasChangeLine(lines) <==> CountChangeLines(lines) > 0
  {
    if lines != [] {
      var n := |lines| - 1;
      DirtyIffCounted(lines[..n]);
      assert forall k :: 0 <= k < n ==> lines[..n][k] == lines[k];
      if HasChangeLine(lines) && !IsChangeLine(lines[n]) {
        var k :| 0 <= k < |lines| && IsChangeLine(lines[k]);
        assert lines[..n][k] == lines[k];
      }
    }
  }

  // ---------------------------------------------------------------------
  // The whole parse

  /** The lines of the output: Split never returns an empty list. */
  function Lines(output: string): (lines: seq<string>)
    ensures |lines| >= 1
  {
    Split(output, Newline)
  }

  /** The record the output describes (its name is filled in by the scan). */
  function Parse(output: string): (st: GitStatus)
    ensures st.name == ""
    ensures st.isDirty <==> CountChangeLines(Lines(output)[1..]) > 0
    ensures st.modified + st.added + st.deleted <= CountChangeLines(Lines(output)[1..])
  {
    var lines := Lines(output);
    var changes := lines[1..];
    ClassesPartitionChangeLines(changes);
    DirtyIffCounted(changes);
    GitStatus(
      name := "",
      branch := BranchName(lines[0]),
      isDirty := HasChangeLine(changes),
      ahead := Counter(lines[0], "ahead"),
      behind := Counter(lines[0], "behind"),
      modified := CountChanges(changes, Modified),
      added := CountChanges(changes, Added),
      deleted := CountChanges(changes, Deleted))
  }

  /**
   * getGitStatus after the command has run: `output` is its standard
   * output, or None when the command failed.
   */
  method GetGitStatus(output: Option<string>) returns (r: Result<GitStatus, StatusError>)
    ensures output.None? ==> r == Failure(CommandFailed)
    ensures output.Some? ==> r == Success(Parse(output.value))
  {
    if output.None? {
      return Failure(CommandFailed);
    }
    var lines := Split(output.value, Newline);
    if |lines| == 0 {
      return Failure(EmptyOutput);
    }

    var status := Zero;

    var branchLine := lines[0];
    if HasPrefix(branchLine, BranchMarker) {
      var branchPart := TrimPrefix(branchLine, BranchMarker);
      var parts := Split(branchPart, UpstreamSep);
      status := status.(branch := parts[0]);
      if |parts| > 1 {
        var idx := Index(parts[1], "[");
        if idx != -1 {
          var info := Trim(parts[1][idx..], Brackets);
          var ahead, behind := ReadTracking(Split(info, TokenSep));
          status := status.(ahead := ahead, behind := behind);
        }
      }
    }

    var isDirty, modified, added, deleted := TallyChanges(lines[1..]);
    status := status.(isDirty := isDirty, modified := modified, added := added, deleted := deleted);
    return Success(status);
  }

  /**
   * The loop over the ", "-separated tracking tokens: an "ahead " token
   * that scans sets the ahead count, a "behind " token the behind count;
   * other tokens are ignored and both counts start at 0.
   */
  method ReadTracking(tokens: seq<string>) returns (ahead: int, behind: int)
    ensures ahead == LastField(tokens, "ahead").GetOr(0)
    ensures behind == LastField(tokens, "behind").GetOr(0)
  {
    ahead, behind := 0, 0;
    for k := 0 to |tokens|
      invariant ahead == LastField(tokens[..k], "ahead").GetOr(0)
      invariant behind == LastField(tokens[..k], "behind").GetOr(0)
    {
      var part := tokens[k];
      LastFieldStep(tokens, k, "ahead");
      LastFieldStep(tokens, k, "behind");
      if HasPrefix(part, "ahead ") {
        AheadToken(part);
        var v := Sscanf(part, "ahead");
        if v.Some? {
          ahead := v.value;
        }
      } else if HasPrefix(part, "behind ") {
        BehindToken(part);
        var v := Sscanf(part, "behind");
        if v.Some? {
          behind := v.value;
        }
      } else {
        OtherToken(part);
      }
    }
    assert tokens[..|tokens|] == tokens;
  }

  /**
   * The loop over the lines after the branch line: each line of three or
   * more bytes marks the repository dirty and bumps at most one counter,
   * chosen by its two status bytes.
   */
  method TallyChanges(changes: seq<string>) returns (isDirty: bool, modified: int, added: int, deleted: int)
    ensures isDirty == HasChangeLine(changes)
    ensures modified == CountChanges(changes, Modified)
    ensures added == CountChanges(changes, Added)
    ensures deleted == CountChanges(changes, Deleted)
  {
    isDirty, modified, added, deleted := false, 0, 0, 0;
    for k := 0 to |changes|
      invariant isDirty == HasChangeLine(changes[..k])
      invariant modified == CountChanges(changes[..k], Modified)
      invariant added == CountChanges(changes[..k], Added)
      invariant deleted == CountChanges(changes[..k], Deleted)
    {
      var line := changes[k];
      assert changes[..k + 1][..k] == changes[..k];
      assert changes[..k + 1][k] == line;
      if |line| < 3 {
        continue;
      }
      isDirty := true;
      var x := line[0];
      var y := line[1];

      if x == 'M' || y == 'M' {
        modified := modified + 1;
      } else if x == 'A' || y == '?' {
        added := added + 1;
      } else if x == 'D' || y == 'D' {
        deleted := deleted + 1;
      }
    }
    assert changes[..|changes|] == changes;
  }
}
