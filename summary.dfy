/**
 * The one-line summary of a repository that printStatus prints, and the
 * CHANGES and REMOTE cells of the table renderTable draws (main.go:172-208,
 * 341-371). Styles are left out: every lipgloss Render is the identity.
 *
 * Go strings are byte strings, so the arrows are written as their UTF-8
 * bytes. A reading function, Lookup, recovers each count from the text;
 * the round-trip lemmas show that the summary loses nothing a reader of
 * the positive counts needs.
 */
module Summary {
  import opened Wrappers
  import opened GoStrings
  import opened GoFmt
  import opened StatusParser

  const Space := " "
  const CleanWord := "clean"
  /** U+2191 UPWARDS ARROW in UTF-8. */
  const UpArrow := ['\U{E2}', '\U{86}', '\U{91}']
  /** U+2193 DOWNWARDS ARROW in UTF-8. */
  const DownArrow := ['\U{E2}', '\U{86}', '\U{93}']

  /** The detail `tag` followed by %d of `n`, present only when `n` is positive. */
  function Tagged(tag: string, n: int): (items: seq<string>)
    ensures |items| <= 1
    ensures items != [] <==> n > 0
  {
    if n > 0 then [tag + DecimalString(n)] else []
  }

  /** The details of a dirty tree: added, then modified, then deleted. */
  function ChangeDetails(st: GitStatus): seq<string>
  {
    Tagged("+", st.added) + Tagged("~", st.modified) + Tagged("-", st.deleted)
  }

  /**
   * The CHANGES cell and the first part of a summary line. It says "clean"
   * exactly when the tree is not dirty, and is empty exactly for a dirty
   * tree none of whose counts is positive (every change line had an
   * unrecognised code).
   */
  function ChangesText(st: GitStatus): (text: string)
    ensures text == CleanWord <==> !st.isDirty
    ensures text == "" <==> st.isDirty && st.added <= 0 && st.modified <= 0 && st.deleted <= 0
  {
    if !st.isDirty then CleanWord
    else
      var details := ChangeDetails(st);
      assert details != [] ==> Join(details, Space)[0] != CleanWord[0] by {
        if details != [] {
          FirstDetail(st);
          JoinedDetailsStart(details);
        }
      }
      Join(details, Space)
  }

  /** The arrows of the REMOTE cell: ahead, then behind. */
  function RemoteParts(st: GitStatus): seq<string>
  {
    Tagged(UpArrow, st.ahead) + Tagged(DownArrow, st.behind)
  }

  /** The REMOTE cell, empty exactly when neither count is positive. */
  function RemoteText(st: GitStatus): (text: string)
    ensures text == "" <==> st.ahead <= 0 && st.behind <= 0
  {
    Join(RemoteParts(st), Space)
  }

  /**
   * The line printStatus prints, without its final newline: the name, the
   * branch in parentheses, the changes summary, and the REMOTE text after
   * one more space when there is any.
   */
  function StatusLine(st: GitStatus): (line: string)
    ensures line == st.name + " (" + st.branch + ") " + ChangesText(st)
                    + (if RemoteText(st) == "" then "" else Space + RemoteText(st))
  {
    var parts := Join([ChangesText(st)] + RemoteParts(st), Space);
    assert parts == ChangesText(st) + (if RemoteText(st) == "" then "" else Space + RemoteText(st)) by {
      StatusPartsOfLine(st);
    }
    st.name + Space + ("(" + st.branch + ")") + Space + parts
  }

  // ---------------------------------------------------------------------
  // Reading a summary back

  predicate AllDigits(s: string)
  {
    forall k :: 0 <= k < |s| ==> IsDigit(s[k])
  }

  /** The count written after `tag` in the first piece that carries it; None when no piece does. */
  function Lookup(pieces: seq<string>, tag: string): Option<nat>
  {
    if pieces == [] then None
    else
      var p := pieces[0];
      if HasPrefix(p, tag) && |p| > |tag| && AllDigits(p[|tag|..]) then Some(DigitsValue(p[|tag|..]))
      else Lookup(pieces[1..], tag)
  }

  /** What the summary shows of a count: the count when positive, nothing otherwise. */
  function Shown(n: int): Option<nat>
  {
    if n > 0 then Some(n) else None
  }

  lemma LookupFirst(tag: string, n: nat, rest: seq<string>)
    requires n > 0
    ensures Lookup(Tagged(tag, n) + rest, tag) == Some(n)
  {
    var p := tag + DecimalString(n);
    assert (Tagged(tag, n) + rest)[0] == p;
    assert p[..|tag|] == tag && p[|tag|..] == DecimalString(n);
    DigitsValueOfDecimal(n);
  }

  lemma LookupSkip(tag: string, other: string, n: int, rest: seq<string>)
    requires |tag| == |other| && tag != other
    ensures Lookup(Tagged(other, n) + rest, tag) == Lookup(rest, tag)
  {
    if n > 0 {
      var p := other + DecimalString(n);
      assert (Tagged(other, n) + rest)[0] == p;
      assert p[..|other|] == other;
      assert (Tagged(other, n) + rest)[1..] == rest;
    } else {
      assert Tagged(other, n) + rest == rest;
    }
  }

  /** Reading `tag` from pieces laid out as Tagged(tag, n) + rest gives what the summary shows of n. */
  lemma LookupTagged(tag: string, n: int, rest: seq<string>)
    requires Lookup(rest, tag) == None
    ensures Lookup(Tagged(tag, n) + rest, tag) == Shown(n)
  {
    if n > 0 {
      LookupFirst(tag, n, rest);
    } else {
      assert Tagged(tag, n) + rest == rest;
    }
  }

  lemma NoTagged(tag: string, other: string, n: int)
    requires |tag| == |other| && tag != other
    ensures Lookup(Tagged(other, n), tag) == None
  {
    LookupSkip(tag, other, n, []);
    assert Tagged(other, n) + [] == Tagged(other, n);
  }

  /** Details and arrows have no space in them, so Split on " " takes them apart again. */
  lemma TaggedFree(tag: string, n: int)
    requires ' ' !in tag
    ensures forall k :: 0 <= k < |Tagged(tag, n)| ==> ' ' !in Tagged(tag, n)[k]
  {
    if n > 0 {
      var d := DecimalString(n);
      assert forall j :: 0 <= j < |d| ==> d[j] != ' ';
    }
  }

  /** A joined list of non-empty details starts with the first detail's tag. */
  lemma JoinedDetailsStart(parts: seq<string>)
    requires |parts| >= 1 && |parts[0]| >= 1
    ensures |Join(parts, Space)| >= 1 && Join(parts, Space)[0] == parts[0][0]
  {
  }

  /** The first detail of a dirty summary, when there is one, starts with '+', '~' or '-'. */
  lemma FirstDetail(st: GitStatus)
    requires ChangeDetails(st) != []
    ensures |ChangeDetails(st)[0]| >= 1 && ChangeDetails(st)[0][0] in {'+', '~', '-'}
  {
  }

  /** The pieces of a summary with nothing shown. */
  lemma SplitNothing()
    ensures Split(Join([], Space), Space) == [""]
  {
    SplitFree("", Space);
  }

  /** A lone empty piece carries no count. */
  lemma LookupEmptyPiece(tag: string)
    requires |tag| >= 1
    ensures Lookup([""], tag) == None
  {
    assert [""][1..] == [];
  }

  /**
   * Reading the changes summary of a dirty tree back, detail by detail,
   * gives each count that was positive and nothing for the others.
   */
  lemma {:induction false} ChangesRoundTrip(st: GitStatus)
    requires st.isDirty
    ensures Lookup(Split(ChangesText(st), Space), "+") == Shown(st.added)
    ensures Lookup(Split(ChangesText(st), Space), "~") == Shown(st.modified)
    ensures Lookup(Split(ChangesText(st), Space), "-") == Shown(st.deleted)
  {
    var a, m, d := Tagged("+", st.added), Tagged("~", st.modified), Tagged("-", st.deleted);
    var details := ChangeDetails(st);
    assert details == a + (m + d);
    if details == [] {
      SplitNothing();
      LookupEmptyPiece("+");
      LookupEmptyPiece("~");
      LookupEmptyPiece("-");
    } else {
      TaggedFree("+", st.added);
      TaggedFree("~", st.modified);
      TaggedFree("-", st.deleted);
      assert forall k :: 0 <= k < |details| ==> ' ' !in details[k];
      SplitJoin(details, ' ');
      assert Split(ChangesText(st), Space) == details;
      assert d + [] == d;
      NoTagged("+", "-", st.deleted);
      LookupSkip("+", "~", st.modified, d);
      LookupTagged("+", st.added, m + d);
      NoTagged("~", "-", st.deleted);
      LookupTagged("~", st.modified, d);
      LookupSkip("~", "+", st.added, m + d);
      LookupTagged("-", st.deleted, []);
      LookupSkip("-", "~", st.modified, d);
      LookupSkip("-", "+", st.added, m + d);
    }
  }

  /** Reading the REMOTE cell back gives each positive count and nothing for the others. */
  lemma {:induction false} RemoteRoundTrip(st: GitStatus)
    ensures Lookup(Split(RemoteText(st), Space), UpArrow) == Shown(st.ahead)
    ensures Lookup(Split(RemoteText(st), Space), DownArrow) == Shown(st.behind)
  {
    var up, down := Tagged(UpArrow, st.ahead), Tagged(DownArrow, st.behind);
    var parts := RemoteParts(st);
    if parts == [] {
      SplitNothing();
      LookupEmptyPiece(UpArrow);
      LookupEmptyPiece(DownArrow);
    } else {
      TaggedFree(UpArrow, st.ahead);
      TaggedFree(DownArrow, st.behind);
      assert forall k :: 0 <= k < |parts| ==> ' ' !in parts[k];
      SplitJoin(parts, ' ');
      assert Split(RemoteText(st), Space) == parts;
      assert UpArrow != DownArrow by { assert UpArrow[2] != DownArrow[2]; }
      assert down + [] == down;
      NoTagged(UpArrow, DownArrow, st.behind);
      LookupTagged(UpArrow, st.ahead, down);
      LookupTagged(DownArrow, st.behind, []);
      LookupSkip(DownArrow, UpArrow, st.ahead, down);
    }
  }

  /**
   * The status part of a printStatus line is the changes summary, followed
   * by a space and the REMOTE cell's text when that is not empty.
   */
  lemma StatusPartsOfLine(st: GitStatus)
    ensures Join([ChangesText(st)] + RemoteParts(st), Space)
      == if RemoteParts(st) == [] then ChangesText(st) else ChangesText(st) + Space + RemoteText(st)
  {
    var parts := [ChangesText(st)] + RemoteParts(st);
    if RemoteParts(st) == [] {
      assert parts == [ChangesText(st)];
    } else {
      assert parts[1..] == RemoteParts(st);
    }
  }
}
