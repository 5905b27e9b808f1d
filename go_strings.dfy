/**
 * The parts of Go's `strings` package that the status parser relies on.
 *
 * A Go string is a sequence of bytes; here a `string` holds one char per
 * byte, so `|s|` is Go's `len(s)` and `s[i]` is Go's `s[i]`. Every
 * separator the program passes is non-empty, which the `requires` clauses
 * record.
 */
module GoStrings {

  /** `sep` occurs in `s` starting at offset `j`. */
  predicate OccursAt(s: string, sep: string, j: int)
  {
    0 <= j && j + |sep| <= |s| && s[j..j + |sep|] == sep
  }

  /** strings.Contains. */
  predicate Contains(s: string, sep: string)
  {
    exists j :: 0 <= j <= |s| && OccursAt(s, sep, j)
  }

  /** strings.HasPrefix. */
  predicate HasPrefix(s: string, prefix: string)
  {
    |prefix| <= |s| && s[..|prefix|] == prefix
  }

  /** strings.TrimPrefix. */
  function TrimPrefix(s: string, prefix: string): (r: string)
    ensures HasPrefix(s, prefix) ==> prefix + r == s
    ensures !HasPrefix(s, prefix) ==> r == s
  {
    if HasPrefix(s, prefix) then s[|prefix|..] else s
  }
  /** A string made of a prefix and a rest starts with the prefix and continues with the rest. */
  lemma AfterPrefix(s: string, prefix: string, rest: string)
    requires s == prefix + rest
    ensures HasPrefix(s, prefix) && s[|prefix|..] == rest
  {
    assert s[..|prefix|] == prefix;
  }


  /** strings.Index: the offset of the first occurrence of `sep`, or -1. */
  function Index(s: string, sep: string): (i: int)
    requires |sep| > 0
    ensures i == -1 || 0 <= i <= |s| - |sep|
  {
    IndexFrom(s, sep, 0)
  }

  /** The first occurrence of `sep` at an offset of `k` or more, or -1. */
  function IndexFrom(s: string, sep: string, k: nat): (i: int)
    requires |sep| > 0 && k <= |s|
    ensures i == -1 || k <= i <= |s| - |sep|
    decreases |s| - k
  {
    if k + |sep| > |s| then -1
    else if s[k..k + |sep|] == sep then k
    else IndexFrom(s, sep, k + 1)
  }

  /** IndexFrom finds an occurrence, and none between `k` and it. */
  lemma {:induction false} IndexFromIsFirst(s: string, sep: string, k: nat)
    requires |sep| > 0 && k <= |s|
    ensures IndexFrom(s, sep, k) >= 0 ==> OccursAt(s, sep, IndexFrom(s, sep, k))
    ensures forall j :: k <= j && (IndexFrom(s, sep, k) < 0 || j < IndexFrom(s, sep, k)) ==> !OccursAt(s, sep, j)
    decreases |s| - k
  {
    if k + |sep| <= |s| && s[k..k + |sep|] != sep {
      IndexFromIsFirst(s, sep, k + 1);
    }
  }

  /**
   * Index is the first occurrence: `sep` occurs there and nowhere before,
   * and it is -1 exactly when `sep` does not occur at all.
   */
  lemma IndexIsFirst(s: string, sep: string)
    requires |sep| > 0
    ensures Index(s, sep) >= 0 ==> OccursAt(s, sep, Index(s, sep))
    ensures forall j :: 0 <= j && (Index(s, sep) < 0 || j < Index(s, sep)) ==> !OccursAt(s, sep, j)
    ensures Index(s, sep) < 0 <==> !Contains(s, sep)
  {
    IndexFromIsFirst(s, sep, 0);
  }

  /** strings.Join: the pieces in order, with `sep` between each two. */
  function Join(parts: seq<string>, sep: string): (r: string)
    ensures parts == [] ==> r == ""
    ensures parts != [] ==> HasPrefix(r, parts[0])
    ensures |parts| == 1 ==> r == parts[0]
  {
    if |parts| == 0 then ""
    else if |parts| == 1 then parts[0]
    else
      var r := parts[0] + sep + Join(parts[1..], sep);
      assert r[..|parts[0]|] == parts[0];
      r
  }

  /**
   * strings.Split with a non-empty separator: the pieces between the
   * non-overlapping occurrences of `sep`, scanning left to right. There is
   * always at least one piece: `Split("", sep) == [""]`.
   */
  function Split(s: string, sep: string): (parts: seq<string>)
    requires |sep| > 0
    ensures |parts| >= 1
    decreases |s|
  {
    var i := Index(s, sep);
    if i < 0 then [s] else [s[..i]] + Split(s[i + |sep|..], sep)
  }

  /** Joining the pieces of a Split with the separator gives the string back. */
  lemma {:induction false} JoinSplit(s: string, sep: string)
    requires |sep| > 0
    ensures Join(Split(s, sep), sep) == s
    decreases |s|
  {
    var i := Index(s, sep);
    IndexIsFirst(s, sep);
    if i >= 0 {
      var rest := Split(s[i + |sep|..], sep);
      JoinSplit(s[i + |sep|..], sep);
      assert ([s[..i]] + rest)[1..] == rest;
      assert s == s[..i] + s[i..i + |sep|] + s[i + |sep|..];
    }
  }

  /** No piece of a Split contains the separator. */
  lemma {:induction false} SplitPiecesFree(s: string, sep: string)
    requires |sep| > 0
    ensures forall k :: 0 <= k < |Split(s, sep)| ==> !Contains(Split(s, sep)[k], sep)
    decreases |s|
  {
    var i := Index(s, sep);
    IndexIsFirst(s, sep);
    if i >= 0 {
      PrefixBeforeFirst(s, sep, i);
      SplitPiecesFree(s[i + |sep|..], sep);
    }
  }

  /** Nothing before the first occurrence of `sep` contains `sep`. */
  lemma PrefixBeforeFirst(s: string, sep: string, i: int)
    requires |sep| > 0 && 0 <= i <= |s|
    requires forall j :: 0 <= j < i ==> !OccursAt(s, sep, j)
    ensures !Contains(s[..i], sep)
  {
    forall j | OccursAt(s[..i], sep, j)
      ensures false
    {
      assert s[..i][j..j + |sep|] == s[j..j + |sep|];
      assert OccursAt(s, sep, j);
    }
  }

  /**
   * strings.TrimLeft with a cutset: the suffix of `s` left after dropping
   * every leading char in `cutset`.
   */
  function TrimLeft(s: string, cutset: set<char>): (r: string)
    ensures |r| <= |s| && r == s[|s| - |r|..]
    ensures forall k :: 0 <= k < |s| - |r| ==> s[k] in cutset
    ensures r == [] || r[0] !in cutset
  {
    if |s| > 0 && s[0] in cutset then TrimLeft(s[1..], cutset) else s
  }

  /** A string that does not start with a cutset char is left as it is. */
  lemma TrimLeftUnchanged(s: string, cutset: set<char>)
    requires s == [] || s[0] !in cutset
    ensures TrimLeft(s, cutset) == s
  {
  }

  /**
   * strings.TrimRight with a cutset: the prefix of `s` left after dropping
   * every trailing char in `cutset`.
   */
  function TrimRight(s: string, cutset: set<char>): (r: string)
    ensures |r| <= |s| && r == s[..|r|]
    ensures forall k :: |r| <= k < |s| ==> s[k] in cutset
    ensures r == [] || r[|r| - 1] !in cutset
  {
    if |s| > 0 && s[|s| - 1] in cutset then TrimRight(s[..|s| - 1], cutset) else s
  }

  /** strings.Trim: trailing cutset chars go first, then leading ones. */
  function Trim(s: string, cutset: set<char>): (r: string)
    ensures |r| <= |s|
    ensures r == [] || (r[0] !in cutset && r[|r| - 1] !in cutset)
  {
    var right := TrimRight(s, cutset);
    var r := TrimLeft(right, cutset);
    assert r == [] || r[|r| - 1] == right[|right| - 1];
    r
  }

  /**
   * Trim keeps one contiguous piece `s[i..j]`: everything cut off lies in
   * the cutset, and the piece neither starts nor ends with a cutset char.
   */
  lemma TrimKeepsMiddle(s: string, cutset: set<char>) returns (i: nat, j: nat)
    ensures i <= j <= |s| && Trim(s, cutset) == s[i..j]
    ensures forall k :: 0 <= k < i ==> s[k] in cutset
    ensures forall k :: j <= k < |s| ==> s[k] in cutset
    ensures i < j ==> s[i] !in cutset && s[j - 1] !in cutset
  {
    var right := TrimRight(s, cutset);
    var r := TrimLeft(right, cutset);
    i, j := |right| - |r|, |right|;
    assert right == s[..j];
    assert r == right[i..] == s[i..j];
    forall k | 0 <= k < i
      ensures s[k] in cutset
    {
      assert s[k] == right[k];
    }
    if i < j {
      assert s[i] == r[0] && s[j - 1] == r[|r| - 1];
    }
  }

  // Splitting on a one-char separator, as for the lines of a command's output.

  /** For a one-char separator, an occurrence is just that char. */
  lemma OccursAtChar(s: string, c: char, j: int)
    ensures OccursAt(s, [c], j) <==> 0 <= j < |s| && s[j] == c
  {
    if 0 <= j < |s| {
      assert s[j..j + 1] == [s[j]];
    }
  }

  /** For a one-char separator, Index is the position of the first `c`. */
  lemma IndexChar(s: string, c: char)
    ensures Index(s, [c]) < 0 <==> c !in s
    ensures Index(s, [c]) >= 0 ==> s[Index(s, [c])] == c && c !in s[..Index(s, [c])]
  {
    var i := Index(s, [c]);
    IndexIsFirst(s, [c]);
    if i >= 0 {
      OccursAtChar(s, c, i);
      forall j | 0 <= j < i ensures s[j] != c {
        OccursAtChar(s, c, j);
      }
    } else {
      forall j | 0 <= j < |s| ensures s[j] != c {
        OccursAtChar(s, c, j);
      }
    }
  }

  /** An occurrence of `sep` starts with `sep`'s first char. */
  lemma OccursAtStartsWith(s: string, sep: string, j: int)
    requires |sep| > 0 && OccursAt(s, sep, j)
    ensures s[j] == sep[0]
  {
    assert s[j] == s[j..j + |sep|][0];
  }

  /** Without `sep`'s first char, `s` holds no occurrence of `sep`. */
  lemma FreeOfFirstChar(s: string, sep: string)
    requires |sep| > 0 && sep[0] !in s
    ensures !Contains(s, sep)
  {
    forall j | 0 <= j <= |s| && OccursAt(s, sep, j)
      ensures false
    {
      OccursAtStartsWith(s, sep, j);
    }
  }

  /** When `a` lacks `sep`'s first char, the first `sep` in `a sep b` is right after `a`. */
  lemma IndexAfterFree(a: string, sep: string, b: string)
    requires |sep| > 0 && sep[0] !in a
    ensures Index(a + sep + b, sep) == |a|
  {
    var s := a + sep + b;
    assert s[|a|..|a| + |sep|] == sep;
    assert OccursAt(s, sep, |a|);
    var i := Index(s, sep);
    IndexIsFirst(s, sep);
    if 0 <= i < |a| {
      OccursAtStartsWith(s, sep, i);
    }
  }

  /** When `a` lacks `sep`'s first char, `a` is the first piece of `a sep b`. */
  lemma SplitAfterFree(a: string, sep: string, b: string)
    requires |sep| > 0 && sep[0] !in a
    ensures Split(a + sep + b, sep) == [a] + Split(b, sep)
  {
    var s := a + sep + b;
    IndexAfterFree(a, sep, b);
    assert s[..|a|] == a;
    assert s[|a| + |sep|..] == b;
  }

  /** Without `sep`'s first char, `s` is a single piece. */
  lemma SplitFree(s: string, sep: string)
    requires |sep| > 0 && sep[0] !in s
    ensures Split(s, sep) == [s]
  {
    FreeOfFirstChar(s, sep);
    IndexIsFirst(s, sep);
  }

  /** Split leaves a string in which sep never occurs whole. */
  lemma SplitNoOccurrence(s: string, sep: string)
    requires |sep| > 0 && !Contains(s, sep)
    ensures Split(s, sep) == [s]
  {
    IndexIsFirst(s, sep);
  }

  /** Split cuts at an occurrence of sep when none starts earlier. */
  lemma SplitAtFirst(a: string, sep: string, b: string)
    requires |sep| > 0
    requires forall j :: 0 <= j < |a| ==> !OccursAt(a + sep + b, sep, j)
    ensures Split(a + sep + b, sep) == [a] + Split(b, sep)
  {
    var s := a + sep + b;
    assert s[|a|..|a| + |sep|] == sep;
    assert OccursAt(s, sep, |a|);
    IndexIsFirst(s, sep);
    assert Index(s, sep) == |a|;
    assert s[..|a|] == a;
    assert s[|a| + |sep|..] == b;
  }

  /** A string holding `c` is `head c tail` with no `c` in `head`. */
  lemma CutAtFirst(a: string, c: char) returns (head: string, tail: string)
    requires c in a
    ensures a == head + [c] + tail && c !in head
  {
    IndexChar(a, c);
    var i := Index(a, [c]);
    head, tail := a[..i], a[i + 1..];
    assert a == a[..i] + [a[i]] + a[i + 1..];
  }

  /** Splitting `a c b` on `c` splits `a` and `b` separately. */
  lemma {:induction false} SplitConcat(a: string, c: char, b: string)
    ensures Split(a + [c] + b, [c]) == Split(a, [c]) + Split(b, [c])
    decreases |a|
  {
    if c !in a {
      SplitConcatFree(a, c, b);
    } else {
      var head, tail := CutAtFirst(a, c);
      SplitConcat(tail, c, b);
      SplitConcatCut(a, c, b, head, tail);
    }
  }

  /** SplitConcat when `a` has no `c`. */
  lemma SplitConcatFree(a: string, c: char, b: string)
    requires c !in a
    ensures Split(a + [c] + b, [c]) == Split(a, [c]) + Split(b, [c])
  {
    SplitAfterFree(a, [c], b);
    SplitFree(a, [c]);
  }

  /** SplitConcat for `a` = `head c tail`, given it for `tail`. */
  lemma SplitConcatCut(a: string, c: char, b: string, head: string, tail: string)
    requires a == head + [c] + tail && c !in head
    requires Split(tail + [c] + b, [c]) == Split(tail, [c]) + Split(b, [c])
    ensures Split(a + [c] + b, [c]) == Split(a, [c]) + Split(b, [c])
  {
    var rest := tail + [c] + b;
    assert a + [c] + b == head + [c] + rest;
    SplitAfterFree(head, [c], rest);
    SplitAfterFree(head, [c], tail);
    AppendAssoc([head], Split(tail, [c]), Split(b, [c]));
  }

  lemma AppendAssoc<T>(x: seq<T>, y: seq<T>, z: seq<T>)
    ensures x + (y + z) == (x + y) + z
  {
  }

  /** Pieces free of the separator char come back out of Split(Join(..)). */
  lemma {:induction false} SplitJoin(parts: seq<string>, c: char)
    requires |parts| >= 1
    requires forall k :: 0 <= k < |parts| ==> c !in parts[k]
    ensures Split(Join(parts, [c]), [c]) == parts
  {
    if |parts| == 1 {
      SplitFree(parts[0], [c]);
    } else {
      var tail := parts[1..];
      assert forall k :: 0 <= k < |tail| ==> tail[k] == parts[k + 1];
      SplitJoin(tail, c);
      var joined := Join(tail, [c]);
      assert Join(parts, [c]) == parts[0] + [c] + joined;
      SplitConcat(parts[0], c, joined);
      SplitFree(parts[0], [c]);
      assert [parts[0]] + tail == parts;
    }
  }
}
