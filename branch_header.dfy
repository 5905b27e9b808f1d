/**
 * The first line git prints for `git status --branch --porcelain`, as a
 * reference definition, and the round trip: the status parser reads back
 * the branch and the ahead/behind counts git wrote.
 *
 * Git prints "## <branch>" without an upstream, "## <branch>...<upstream>"
 * when in step with it, and appends " [ahead N]", " [behind M]" or
 * " [ahead N, behind M]" otherwise. Git's " [gone]", for an upstream that
 * no longer exists, is not part of this definition. Branch and upstream
 * names follow git's reference-name rules, which is what keeps "...", '['
 * and newlines out of them.
 */
module BranchHeader {
  import opened Wrappers
  import opened GoStrings
  import opened GoFmt
  import opened StatusParser
  import opened StatusProperties

  /** Characters git refuses in a reference name. */
  const RefForbidden: set<char> := {' ', '~', '^', ':', '?', '*', '[', '\\'}

  /**
   * The part of git's reference-name rules the parser depends on: not
   * empty, no "..", not ending in '.', no control characters and none of
   * the forbidden characters.
   */
  predicate IsRefName(s: string)
  {
    |s| > 0
    && s[|s| - 1] != '.'
    && (forall i :: 0 <= i < |s| - 1 ==> !(s[i] == '.' && s[i + 1] == '.'))
    && (forall i :: 0 <= i < |s| ==> s[i] !in RefForbidden && ' ' <= s[i] && s[i] != '\U{7F}')
  }

  /** Lower-case letters, digits, '/', '-' and '_': always allowed in a reference name. */
  predicate IsPlainRefChar(c: char)
  {
    'a' <= c <= 'z' || '0' <= c <= '9' || c == '/' || c == '-' || c == '_'
  }

  /** A non-empty name of plain characters is a reference name. */
  lemma PlainIsRefName(s: string)
    requires |s| > 0 && forall i :: 0 <= i < |s| ==> IsPlainRefChar(s[i])
    ensures IsRefName(s)
  {
  }

  /** Reference names hold neither a newline nor a '['. */
  lemma RefNameChars(s: string)
    requires IsRefName(s)
    ensures '\n' !in s && '[' !in s
  {
    assert forall i :: 0 <= i < |s| ==> s[i] != '\n' && s[i] != '[';
  }

  /** The upstream a branch tracks and how far the two have diverged. */
  datatype Upstream = Upstream(name: string, ahead: nat, behind: nat)

  /** The tokens inside the brackets: an ahead and a behind part, each only when non-zero. */
  function TrackingTokens(ahead: nat, behind: nat): (ts: seq<string>)
    ensures |ts| <= 2
    ensures ts == [] <==> ahead == 0 && behind == 0
  {
    (if ahead > 0 then ["ahead " + DecimalString(ahead)] else [])
    + (if behind > 0 then ["behind " + DecimalString(behind)] else [])
  }

  /** " [tokens]" after the upstream, or nothing when in step. */
  function Tracking(ahead: nat, behind: nat): string
  {
    var ts := TrackingTokens(ahead, behind);
    if ts == [] then "" else " [" + Join(ts, TokenSep) + "]"
  }

  /** "...", the upstream's name and the tracking text; nothing without an upstream. */
  function UpstreamText(upstream: Option<Upstream>): string
  {
    match upstream
    case None => ""
    case Some(u) => UpstreamSep + (u.name + Tracking(u.ahead, u.behind))
  }

  /** The header line git prints. */
  function Header(branch: string, upstream: Option<Upstream>): string
  {
    BranchMarker + (branch + UpstreamText(upstream))
  }

  // ---------------------------------------------------------------------
  // Where "..." cannot start

  /** No "..." starts inside a reference name, whatever follows it. */
  lemma NoDotsInRefName(a: string, y: string, j: int)
    requires IsRefName(a) && 0 <= j < |a|
    ensures !OccursAt(a + y, UpstreamSep, j)
  {
    var s := a + y;
    if j + 1 < |a| {
      assert s[j] == a[j] && s[j + 1] == a[j + 1];
    } else {
      assert s[j] == a[|a| - 1];
    }
  }

  /** A reference name followed by dot-free text holds no "...". */
  lemma NoDotsAfterRefName(a: string, y: string)
    requires IsRefName(a) && '.' !in y
    ensures !Contains(a + y, UpstreamSep)
  {
    var s := a + y;
    forall j | 0 <= j <= |s| ensures !OccursAt(s, UpstreamSep, j) {
      if j < |a| {
        NoDotsInRefName(a, y, j);
      } else if j < |s| {
        assert s[j] == y[j - |a|];
      }
    }
  }

  /** The branch is split off at the "..." that follows it. */
  lemma SplitAfterRefName(a: string, b: string)
    requires IsRefName(a)
    ensures Split(a + UpstreamSep + b, UpstreamSep) == [a] + Split(b, UpstreamSep)
  {
    forall j | 0 <= j < |a| ensures !OccursAt(a + UpstreamSep + b, UpstreamSep, j) {
      assert a + UpstreamSep + b == a + (UpstreamSep + b);
      NoDotsInRefName(a, UpstreamSep + b, j);
    }
    SplitAtFirst(a, UpstreamSep, b);
  }

  // ---------------------------------------------------------------------
  // The tracking text

  /** The tracking text holds no '.', so no "..." reaches into it. */
  lemma TrackingHasNoDot(ahead: nat, behind: nat)
    ensures '.' !in Tracking(ahead, behind)
  {
    var ts := TrackingTokens(ahead, behind);
    if ahead > 0 {
      var d := DecimalString(ahead);
      assert '.' !in d by { assert forall k :: 0 <= k < |d| ==> IsDigit(d[k]); }
    }
    if behind > 0 {
      var d := DecimalString(behind);
      assert '.' !in d by { assert forall k :: 0 <= k < |d| ==> IsDigit(d[k]); }
    }
    assert forall k :: 0 <= k < |ts| ==> '.' !in ts[k];
    if |ts| == 2 {
      assert Join(ts, TokenSep) == ts[0] + TokenSep + ts[1];
    }
  }

  /** A token: its word, a space and its count's digits. */
  lemma TokenShape(word: string, n: nat)
    requires word == "ahead" || word == "behind"
    ensures var t := word + " " + DecimalString(n);
      |t| > 0 && t[0] !in Brackets && t[|t| - 1] !in Brackets
      && ',' !in t && '.' !in t && '\n' !in t
  {
    var d := DecimalString(n);
    assert forall k :: 0 <= k < |d| ==> IsDigit(d[k]);
    var t := word + " " + d;
    assert t[0] == word[0];
    assert t[|t| - 1] == d[|d| - 1];
  }
  /** Trimming brackets off "[text]" gives back text that neither starts nor ends with one. */
  lemma TrimBracketed(text: string)
    requires |text| > 0 && text[0] !in Brackets && text[|text| - 1] !in Brackets
    ensures Trim("[" + text + "]", Brackets) == text
  {
    var s := "[" + text + "]";
    assert s[..|s| - 1] == "[" + text;
    assert TrimRight(s, Brackets) == TrimRight("[" + text, Brackets);
    assert ("[" + text)[|text|] == text[|text| - 1];
    assert TrimRight("[" + text, Brackets) == "[" + text;
    assert ("[" + text)[1..] == text;
  }

  /** The tokens git joins with ", " come back out of the split. */
  lemma SplitTrackingTokens(ahead: nat, behind: nat)
    requires ahead > 0 || behind > 0
    ensures Split(Join(TrackingTokens(ahead, behind), TokenSep), TokenSep) == TrackingTokens(ahead, behind)
  {
    var ts := TrackingTokens(ahead, behind);
    TokenShape("ahead", ahead);
    TokenShape("behind", behind);
    if |ts| == 1 {
      SplitFree(ts[0], TokenSep);
    } else {
      assert Join(ts, TokenSep) == ts[0] + TokenSep + ts[1];
      SplitAfterFree(ts[0], TokenSep, ts[1]);
      SplitFree(ts[1], TokenSep);
    }
  }

  /** "ahead N" scans as N for ahead and not at all for behind. */
  lemma AheadTokenValue(n: nat)
    requires n <= Int64Max
    ensures Field("ahead " + DecimalString(n), "ahead") == Some(n)
    ensures Field("ahead " + DecimalString(n), "behind") == None
  {
    var t := "ahead " + DecimalString(n);
    assert HasPrefix(t, "ahead ") by { assert t[..6] == "ahead "; }
    AheadToken(t);
    assert t == "ahead" + " " + DecimalString(n) + "";
    SscanfOfDecimal("ahead", n, "");
  }

  /** "behind M" scans as M for behind and not at all for ahead. */
  lemma BehindTokenValue(n: nat)
    requires n <= Int64Max
    ensures Field("behind " + DecimalString(n), "ahead") == None
    ensures Field("behind " + DecimalString(n), "behind") == Some(n)
  {
    var t := "behind " + DecimalString(n);
    assert HasPrefix(t, "behind ") by { assert t[..7] == "behind "; }
    BehindToken(t);
    assert t == "behind" + " " + DecimalString(n) + "";
    SscanfOfDecimal("behind", n, "");
  }

  /** The counts read from git's tokens are the counts git wrote. */
  lemma CountsOfTrackingTokens(ahead: nat, behind: nat)
    requires ahead <= Int64Max && behind <= Int64Max
    ensures LastField(TrackingTokens(ahead, behind), "ahead").GetOr(0) == ahead
    ensures LastField(TrackingTokens(ahead, behind), "behind").GetOr(0) == behind
  {
    var ts := TrackingTokens(ahead, behind);
    if ahead > 0 {
      AheadTokenValue(ahead);
    }
    if behind > 0 {
      BehindTokenValue(behind);
    }
    if |ts| == 2 {
      assert ts[..1] == [ts[0]];
      assert [ts[0]][..0] == [];
    } else if |ts| == 1 {
      assert ts[..0] == [];
    }
  }

  // ---------------------------------------------------------------------
  // Reading the header back

  /** The names git may print in a header. */
  predicate ValidHeader(branch: string, upstream: Option<Upstream>)
  {
    IsRefName(branch)
    && (upstream.Some? ==>
          IsRefName(upstream.value.name)
          && upstream.value.ahead <= Int64Max && upstream.value.behind <= Int64Max)
  }

  /** A branch, "..." and an upstream followed by dot-free text split into two pieces. */
  lemma SplitBranchAndUpstream(branch: string, name: string, tail: string)
    requires IsRefName(branch) && IsRefName(name) && '.' !in tail
    ensures Split(branch + (UpstreamSep + (name + tail)), UpstreamSep) == [branch, name + tail]
  {
    assert branch + (UpstreamSep + (name + tail)) == branch + UpstreamSep + (name + tail);
    SplitAfterRefName(branch, name + tail);
    NoDotsAfterRefName(name, tail);
    SplitNoOccurrence(name + tail, UpstreamSep);
  }

  /** After "## " comes the branch and then, with an upstream, "...", its name and the tracking text. */
  lemma HeaderText(branch: string, upstream: Option<Upstream>)
    ensures var h := Header(branch, upstream);
      HasPrefix(h, BranchMarker) && h[|BranchMarker|..] == branch + UpstreamText(upstream)
  {
    AfterPrefix(Header(branch, upstream), BranchMarker, branch + UpstreamText(upstream));
  }

  /** After "## " the header splits at "..." into the branch and, with an upstream, the rest. */
  lemma SplitHeader(branch: string, upstream: Option<Upstream>)
    requires ValidHeader(branch, upstream)
    ensures var h := Header(branch, upstream);
      HasPrefix(h, BranchMarker)
      && Split(h[|BranchMarker|..], UpstreamSep)
         == match upstream
            case None => [branch]
            case Some(u) => [branch, u.name + Tracking(u.ahead, u.behind)]
  {
    HeaderText(branch, upstream);
    match upstream
    case None =>
      NoDotsAfterRefName(branch, "");
      assert branch + "" == branch;
      SplitNoOccurrence(branch, UpstreamSep);
    case Some(u) =>
      TrackingHasNoDot(u.ahead, u.behind);
      SplitBranchAndUpstream(branch, u.name, Tracking(u.ahead, u.behind));
  }

  /** The header's branch is the branch git printed. */
  lemma BranchOfHeader(branch: string, upstream: Option<Upstream>)
    requires ValidHeader(branch, upstream)
    ensures BranchName(Header(branch, upstream)) == branch
  {
    SplitHeader(branch, upstream);
  }

  /** Between the brackets: text that neither starts nor ends with a bracket. */
  lemma BracketedText(ahead: nat, behind: nat)
    requires ahead > 0 || behind > 0
    ensures var text := Join(TrackingTokens(ahead, behind), TokenSep);
      Tracking(ahead, behind) == " [" + text + "]"
      && |text| > 0 && text[0] !in Brackets && text[|text| - 1] !in Brackets
  {
    var ts := TrackingTokens(ahead, behind);
    var text := Join(ts, TokenSep);
    TokenShape("ahead", ahead);
    TokenShape("behind", behind);
    if |ts| == 2 {
      assert ts[1..] == [ts[1]];
      assert Join(ts[1..], TokenSep) == ts[1];
      assert text == ts[0] + TokenSep + ts[1];
      assert text[0] == ts[0][0];
      assert text[|text| - 1] == ts[1][|ts[1]| - 1];
    }
  }

  /** In "name [text]" with no '[' in name, the first '[' opens the brackets and trimming gives text. */
  lemma BracketsAfterName(name: string, text: string)
    requires '[' !in name
    requires |text| > 0 && text[0] !in Brackets && text[|text| - 1] !in Brackets
    ensures var piece := name + (" [" + text + "]");
      var idx := Index(piece, "[");
      idx >= 0 && Trim(piece[idx..], Brackets) == text
  {
    var piece := name + (" [" + text + "]");
    assert piece == (name + " ") + "[" + (text + "]");
    IndexAfterFree(name + " ", "[", text + "]");
    assert piece[|name| + 1..] == "[" + text + "]";
    TrimBracketed(text);
  }

  /**
   * The piece after "...": no '[' when git printed no brackets, otherwise
   * the first '[' opens them and trimming gives back their text.
   */
  lemma TrackingOfPiece(name: string, ahead: nat, behind: nat)
    requires IsRefName(name)
    ensures var piece := name + Tracking(ahead, behind);
      var idx := Index(piece, "[");
      (ahead == 0 && behind == 0 ==> idx < 0)
      && (ahead > 0 || behind > 0 ==>
            idx >= 0 && Trim(piece[idx..], Brackets) == Join(TrackingTokens(ahead, behind), TokenSep))
  {
    assert '[' !in name by {
      assert forall i :: 0 <= i < |name| ==> name[i] != '[';
    }
    if ahead == 0 && behind == 0 {
      assert name + Tracking(ahead, behind) == name;
      IndexChar(name, '[');
    } else {
      BracketedText(ahead, behind);
      BracketsAfterName(name, Join(TrackingTokens(ahead, behind), TokenSep));
    }
  }

  /** The tracking text is found exactly when git printed brackets, and is what it put inside. */
  lemma TrackingInfoOfHeader(branch: string, upstream: Option<Upstream>)
    requires ValidHeader(branch, upstream)
    ensures TrackingInfo(Header(branch, upstream))
         == match upstream
            case None => None
            case Some(u) =>
              if u.ahead == 0 && u.behind == 0 then None
              else Some(Join(TrackingTokens(u.ahead, u.behind), TokenSep))
  {
    SplitHeader(branch, upstream);
    if upstream.Some? {
      var u := upstream.value;
      TrackingOfPiece(u.name, u.ahead, u.behind);
    }
  }

  /** The ahead and behind counts read from the header are those git printed; 0 without an upstream. */
  lemma CountersOfHeader(branch: string, upstream: Option<Upstream>)
    requires ValidHeader(branch, upstream)
    ensures Counter(Header(branch, upstream), "ahead") == if upstream.Some? then upstream.value.ahead else 0
    ensures Counter(Header(branch, upstream), "behind") == if upstream.Some? then upstream.value.behind else 0
  {
    TrackingInfoOfHeader(branch, upstream);
    if upstream.Some? {
      var u := upstream.value;
      if u.ahead > 0 || u.behind > 0 {
        SplitTrackingTokens(u.ahead, u.behind);
        CountsOfTrackingTokens(u.ahead, u.behind);
      }
    }
  }

  /** The tracking text holds no newline. */
  lemma TrackingIsOneLine(ahead: nat, behind: nat)
    ensures '\n' !in Tracking(ahead, behind)
  {
    var a := "ahead " + DecimalString(ahead);
    var b := "behind " + DecimalString(behind);
    assert '\n' !in a by {
      assert "ahead" + " " == "ahead ";
      TokenShape("ahead", ahead);
    }
    assert '\n' !in b by {
      assert "behind" + " " == "behind ";
      TokenShape("behind", behind);
    }
    var ts := TrackingTokens(ahead, behind);
    if ahead > 0 && behind > 0 {
      assert ts == [a, b];
      assert Join(ts, TokenSep) == a + TokenSep + b;
    } else if ahead > 0 {
      assert ts == [a];
    } else if behind > 0 {
      assert ts == [b];
    }
  }

  /** A header line is a single line. */
  lemma HeaderIsOneLine(branch: string, upstream: Option<Upstream>)
    requires ValidHeader(branch, upstream)
    ensures '\n' !in Header(branch, upstream)
  {
    assert '\n' !in branch by { assert forall i :: 0 <= i < |branch| ==> branch[i] != '\n'; }
    if upstream.Some? {
      var u := upstream.value;
      assert '\n' !in u.name by { assert forall i :: 0 <= i < |u.name| ==> u.name[i] != '\n'; }
      TrackingIsOneLine(u.ahead, u.behind);
    }
  }

  /**
   * The round trip: whatever change lines follow it, the record parsed
   * from git's header has the branch, ahead and behind git printed.
   */
  lemma ParseHeader(branch: string, upstream: Option<Upstream>, rest: string)
    requires ValidHeader(branch, upstream)
    requires rest == [] || rest[0] == '\n'
    ensures var st := Parse(Header(branch, upstream) + rest);
      st.branch == branch
      && st.ahead == (if upstream.Some? then upstream.value.ahead else 0)
      && st.behind == (if upstream.Some? then upstream.value.behind else 0)
  {
    HeaderIsOneLine(branch, upstream);
    FirstLine(Header(branch, upstream), rest);
    BranchOfHeader(branch, upstream);
    CountersOfHeader(branch, upstream);
  }

  // ---------------------------------------------------------------------
  // Any bracketed text

  /** A header line with arbitrary text in the brackets after the upstream. */
  function BracketedLine(branch: string, name: string, text: string): string
  {
    BranchMarker + (branch + (UpstreamSep + (name + (" [" + text + "]"))))
  }

  /** Names and bracket text without newlines make a single line. */
  lemma BracketedLineIsOneLine(branch: string, name: string, text: string)
    requires IsRefName(branch) && IsRefName(name) && '\n' !in text
    ensures '\n' !in BracketedLine(branch, name, text)
  {
    RefNameChars(branch);
    RefNameChars(name);
    var tail := " [" + text + "]";
    assert '\n' !in tail;
    assert '\n' !in name + tail;
    assert '\n' !in UpstreamSep + (name + tail);
    assert '\n' !in branch + (UpstreamSep + (name + tail));
  }

  /**
   * After a branch and its upstream, the text in the brackets is what the
   * counters are read from, and the branch is read as before.
   */
  lemma ReadBracketedLine(branch: string, name: string, text: string)
    requires IsRefName(branch) && IsRefName(name) && '.' !in text
    requires |text| > 0 && text[0] !in Brackets && text[|text| - 1] !in Brackets
    ensures var line := BracketedLine(branch, name, text);
      BranchName(line) == branch && TrackingInfo(line) == Some(text)
  {
    var tail := " [" + text + "]";
    var line := BracketedLine(branch, name, text);
    AfterPrefix(line, BranchMarker, branch + (UpstreamSep + (name + tail)));
    SplitBranchAndUpstream(branch, name, tail);
    RefNameChars(name);
    BracketsAfterName(name, text);
  }
}
