/**
 * What the status parser promises, proved about its specification
 * `StatusParser.Parse` (which `StatusParser.GetGitStatus` computes).
 */
module StatusProperties {
  import opened Wrappers
  import opened GoStrings
  import opened GoFmt
  import opened StatusParser

  // ---------------------------------------------------------------------
  // Lines

  /** Output that is empty splits into one empty line: a zero record, no error. */
  lemma EmptyOutputIsZero()
    ensures Lines("") == [""]
    ensures Parse("") == Zero
  {
    SplitFree("", Newline);
  }

  /** Appending a newline and a line to the output appends that line. */
  lemma LinesOfAppended(output: string, line: string)
    requires '\n' !in line
    ensures Lines(output + "\n" + line) == Lines(output) + [line]
  {
    SplitConcat(output, '\n', line);
    SplitFree(line, Newline);
  }

  /** Output of a single line: branch and counters from it, no change lines. */
  lemma SingleLine(line: string)
    requires '\n' !in line
    ensures Parse(line)
         == GitStatus("", BranchName(line), false, Counter(line, "ahead"), Counter(line, "behind"), 0, 0, 0)
  {
    SplitFree(line, Newline);
  }

  /** The first line is the text before the first newline. */
  lemma FirstLine(line: string, rest: string)
    requires '\n' !in line
    requires rest == [] || rest[0] == '\n'
    ensures Lines(line + rest)[0] == line
  {
    if rest == [] {
      assert line + rest == line;
      SplitFree(line, Newline);
    } else {
      assert line + rest == line + Newline + rest[1..];
      SplitAfterFree(line, Newline, rest[1..]);
    }
  }

  // ---------------------------------------------------------------------
  // The branch line

  /**
   * The branch is "" unless the first line starts with "## "; then it is
   * the text after "## " up to the first "...": a prefix of that text in
   * which no "..." starts, and either all of it (no "...") or followed by
   * "...".
   */
  lemma BranchIsTextBeforeFirstSep(line: string)
    ensures !HasPrefix(line, BranchMarker) ==> BranchName(line) == ""
    ensures HasPrefix(line, BranchMarker) ==>
      var rest := line[|BranchMarker|..];
      var b := BranchName(line);
      HasPrefix(rest, b)
      && (forall j :: 0 <= j < |b| ==> !OccursAt(rest, UpstreamSep, j))
      && (!Contains(rest, UpstreamSep) ==> b == rest)
      && (Contains(rest, UpstreamSep) ==> OccursAt(rest, UpstreamSep, |b|))
  {
    if HasPrefix(line, BranchMarker) {
      var rest := line[|BranchMarker|..];
      IndexIsFirst(rest, UpstreamSep);
      var i := Index(rest, UpstreamSep);
      if i >= 0 {
        assert BranchName(line) == rest[..i];
      }
    }
  }

  /**
   * A non-zero ahead or behind count needs a line starting with "## ", an
   * upstream after the first "...", and a '[' in the text between the first
   * "..." and the next one.
   */
  lemma CountersNeedTrackingBrackets(line: string, word: string)
    requires Counter(line, word) != 0
    ensures HasPrefix(line, BranchMarker)
    ensures Contains(line[|BranchMarker|..], UpstreamSep)
    ensures |Split(line[|BranchMarker|..], UpstreamSep)| >= 2
    ensures '[' in Split(line[|BranchMarker|..], UpstreamSep)[1]
  {
    var rest := line[|BranchMarker|..];
    IndexIsFirst(rest, UpstreamSep);
    var parts := Split(rest, UpstreamSep);
    IndexChar(parts[1], '[');
  }

  /**
   * Without a value no token scans as the word (so a token that scans
   * always gives a value).
   */
  lemma {:induction false} NoValueNoScan(tokens: seq<string>, word: string)
    requires LastField(tokens, word).None?
    ensures forall j :: 0 <= j < |tokens| ==> Field(tokens[j], word).None?
    decreases |tokens|
  {
    if tokens != [] {
      var n := |tokens| - 1;
      var init := tokens[..n];
      LastFieldStep(tokens, n, word);
      assert tokens[..n + 1] == tokens;
      assert Field(tokens[n], word).None?;
      assert LastField(init, word).None?;
      NoValueNoScan(init, word);
      forall j | 0 <= j < |tokens|
        ensures Field(tokens[j], word).None?
      {
        if j < n {
          assert Field(init[j], word).None?;
          assert init[j] == tokens[j];
        } else {
          assert j == n;
        }
      }
    }
  }

  /**
   * The value is that of the LAST token that scans as the word: `k` is
   * that token's index and no later token scans.
   */
  lemma {:induction false} LastScanWins(tokens: seq<string>, word: string) returns (k: nat)
    requires LastField(tokens, word).Some?
    ensures k < |tokens| && Field(tokens[k], word) == LastField(tokens, word)
    ensures forall j :: k < j < |tokens| ==> Field(tokens[j], word).None?
    decreases |tokens|
  {
    var n := |tokens| - 1;
    var init := tokens[..n];
    LastFieldStep(tokens, n, word);
    assert tokens[..n + 1] == tokens;
    if Field(tokens[n], word).Some? {
      k := n;
    } else {
      assert LastField(tokens, word) == LastField(init, word);
      k := LastScanWins(init, word);
      assert init[k] == tokens[k];
      assert Field(tokens[k], word) == Field(init[k], word);
      forall j | k < j < |tokens|
        ensures Field(tokens[j], word).None?
      {
        if j < n {
          assert k < j < |init|;
          assert Field(init[j], word).None?;
          assert init[j] == tokens[j];
        } else {
          assert j == n;
        }
      }
    }
  }

  /** A token scans as a word only when it starts with that word and a space. */
  lemma FieldNeedsWord(token: string, word: string)
    requires Field(token, word).Some?
    ensures HasPrefix(token, word + " ")
  {
  }

  // ---------------------------------------------------------------------
  // The change lines

  /** No change line is unrecognised exactly when none is counted as such. */
  lemma {:induction false} NoneUnrecognised(lines: seq<string>)
    ensures CountChanges(lines, Unrecognised) == 0 <==>
      forall k :: 0 <= k < |lines| && IsChangeLine(lines[k]) ==>
        Classify(lines[k][0], lines[k][1]) != Unrecognised
  {
    if lines != [] {
      var n := |lines| - 1;
      NoneUnrecognised(lines[..n]);
      assert forall k :: 0 <= k < n ==> lines[..n][k] == lines[k];
    }
  }

  /**
   * Each change line bumps at most one counter: modified + added + deleted
   * is at most the number of change lines, and equal to it exactly when
   * every change line has a recognised code; the record is dirty exactly
   * when there is a change line.
   */
  lemma CountersBoundedByChangeLines(output: string)
    ensures var st, changes := Parse(output), Lines(output)[1..];
      st.modified + st.added + st.deleted <= CountChangeLines(changes)
      && (st.modified + st.added + st.deleted == CountChangeLines(changes) <==>
            forall k :: 0 <= k < |changes| && IsChangeLine(changes[k]) ==>
              Classify(changes[k][0], changes[k][1]) != Unrecognised)
      && (st.isDirty <==> CountChangeLines(changes) > 0)
  {
    var changes := Lines(output)[1..];
    ClassesPartitionChangeLines(changes);
    NoneUnrecognised(changes);
    DirtyIffCounted(changes);
  }

  /** One more line after the change lines: only a line of 3 or more bytes counts, in its own class. */
  lemma ChangesOfAppended(changes: seq<string>, line: string)
    ensures var changes' := changes + [line];
      HasChangeLine(changes') == (HasChangeLine(changes) || |line| >= 3)
      && CountChanges(changes', Modified) == CountChanges(changes, Modified) + (if IsChangeLine(line) && Classify(line[0], line[1]) == Modified then 1 else 0)
      && CountChanges(changes', Added) == CountChanges(changes, Added) + (if IsChangeLine(line) && Classify(line[0], line[1]) == Added then 1 else 0)
      && CountChanges(changes', Deleted) == CountChanges(changes, Deleted) + (if IsChangeLine(line) && Classify(line[0], line[1]) == Deleted then 1 else 0)
  {
    var changes' := changes + [line];
    assert changes'[..|changes|] == changes;
    assert changes'[|changes|] == line;
    if HasChangeLine(changes') && |line| < 3 {
      var k :| 0 <= k < |changes'| && IsChangeLine(changes'[k]);
      assert changes[k] == changes'[k];
    }
    if HasChangeLine(changes) {
      var k :| 0 <= k < |changes| && IsChangeLine(changes[k]);
      assert changes'[k] == changes[k];
    }
  }

  /**
   * One more line at the end of the output: a line shorter than three
   * bytes changes nothing; a longer one marks the record dirty and bumps
   * exactly the counter its code selects, if any.
   */
  lemma AppendedLine(output: string, line: string)
    requires '\n' !in line
    ensures var before, after := Parse(output), Parse(output + "\n" + line);
      if |line| < 3 then after == before
      else after == before.(
        isDirty := true,
        modified := before.modified + (if Classify(line[0], line[1]) == Modified then 1 else 0),
        added := before.added + (if Classify(line[0], line[1]) == Added then 1 else 0),
        deleted := before.deleted + (if Classify(line[0], line[1]) == Deleted then 1 else 0))
  {
    LinesOfAppended(output, line);
    var lines := Lines(output);
    var lines' := Lines(output + "\n" + line);
    assert lines'[0] == lines[0];
    assert lines'[1..] == lines[1..] + [line];
    ChangesOfAppended(lines[1..], line);
  }

  /** A trailing newline (the usual end of git's output) changes nothing. */
  lemma TrailingNewline(output: string)
    ensures Parse(output + "\n") == Parse(output)
  {
    AppendedLine(output, "");
    assert output + "\n" + "" == output + "\n";
  }

  /** An untracked path ("?? path") marks the record dirty and adds one to `added` only. */
  lemma UntrackedLineAddsOne(output: string, path: string)
    requires '\n' !in path
    ensures var before := Parse(output);
      Parse(output + "\n" + ("?? " + path)) == before.(isDirty := true, added := before.added + 1)
  {
    var line := "?? " + path;
    assert line[0] == '?' && line[1] == '?';
    assert '\n' !in line;
    AppendedLine(output, line);
  }

  /** "M" in either column wins over the other column's code. */
  lemma ModifiedWins(x: char, y: char)
    requires x == 'M' || y == 'M'
    ensures Classify(x, y) == Modified
  {
  }
}
