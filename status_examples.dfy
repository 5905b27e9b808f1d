/**
 * The status parser on particular outputs: the everyday header and change
 * line, and the edge cases its string handling produces (a negative count,
 * "[gone]", a second "...").
 */
module StatusExamples {
  import opened Wrappers
  import opened GoStrings
  import opened GoFmt
  import opened StatusParser
  import opened StatusProperties
  import opened BranchHeader

  /** A header alone: no change lines, so nothing is dirty or counted. */
  lemma HeaderAlone(branch: string, upstream: Option<Upstream>)
    requires ValidHeader(branch, upstream)
    ensures var st := Parse(Header(branch, upstream));
      st == GitStatus("", branch, false,
                      if upstream.Some? then upstream.value.ahead else 0,
                      if upstream.Some? then upstream.value.behind else 0,
                      0, 0, 0)
  {
    var h := Header(branch, upstream);
    ParseHeader(branch, upstream, "");
    assert h + "" == h;
    HeaderIsOneLine(branch, upstream);
    SplitFree(h, Newline);
  }

  /** The tokens git prints for two ahead and one behind. */
  lemma TokensTwoOne()
    ensures TrackingTokens(2, 1) == ["ahead 2", "behind 1"]
  {
    var a, d2 := "ahead ", DecimalString(2);
    var b, d1 := "behind ", DecimalString(1);
    assert d2 == "2" && d1 == "1";
    assert a + d2 == "ahead 2";
    assert b + d1 == "behind 1";
  }

  /** The tracking text git prints for two ahead and one behind. */
  lemma TrackingTwoOne()
    ensures Tracking(2, 1) == " [ahead 2, behind 1]"
  {
    TokensTwoOne();
    var ts := ["ahead 2", "behind 1"];
    assert ts[1..] == ["behind 1"];
    var open, a, sep, b, close := " [", "ahead 2", ", ", "behind 1", "]";
    assert Join(ts, TokenSep) == a + sep + b;
    assert open + (a + sep + b) + close == " [ahead 2, behind 1]";
  }

  /** Right-nested concatenation of five pieces is their concatenation in order. */
  lemma Concat5(a: string, b: string, c: string, d: string, e: string)
    ensures a + (b + (c + (d + e))) == a + b + c + d + e
  {
    AppendAssoc(d, e, []);
    AppendAssoc(c, d, e);
    AppendAssoc(b, c, d + e);
    AppendAssoc(b + c, d, e);
    AppendAssoc(a, b, c + (d + e));
    AppendAssoc(a + b, c, d + e);
    AppendAssoc(a + b + c, d, e);
  }

  /** The header git prints for main, two ahead of and one behind origin/main. */
  lemma HeaderTwoOne()
    ensures Header("main", Some(Upstream("origin/main", 2, 1)))
         == "## " + "main" + "..." + "origin/main" + " [ahead 2, behind 1]"
  {
    TrackingTwoOne();
    Concat5("## ", "main", "...", "origin/main", " [ahead 2, behind 1]");
  }

  /** main and origin/main are reference names. */
  lemma ValidTwoOne()
    ensures ValidHeader("main", Some(Upstream("origin/main", 2, 1)))
  {
    PlainIsRefName("main");
    PlainIsRefName("origin/main");
  }

  /** A header and one modified file: dirty, with one modified. */
  lemma HeaderThenModified(branch: string, upstream: Option<Upstream>, line: string)
    requires ValidHeader(branch, upstream)
    requires |line| >= 3 && '\n' !in line && Classify(line[0], line[1]) == Modified
    ensures Parse(Header(branch, upstream) + "\n" + line)
         == GitStatus("", branch, true,
                      if upstream.Some? then upstream.value.ahead else 0,
                      if upstream.Some? then upstream.value.behind else 0,
                      1, 0, 0)
  {
    HeaderAlone(branch, upstream);
    AppendedLine(Header(branch, upstream), line);
  }

  /**
   * That header and one modified file: dirty, one modified, two ahead,
   * one behind (the header's text is HeaderTwoOne's).
   */
  lemma AheadBehindModified()
    ensures Parse(Header("main", Some(Upstream("origin/main", 2, 1))) + "\n" + " M file.txt")
         == GitStatus("", "main", true, 2, 1, 1, 0, 0)
  {
    var line := " M file.txt";
    assert |line| >= 3 && '\n' !in line && Classify(line[0], line[1]) == Modified;
    ValidTwoOne();
    HeaderThenModified("main", Some(Upstream("origin/main", 2, 1)), line);
  }

  /** A branch without an upstream: its name and nothing else. */
  lemma BranchWithoutUpstream()
    ensures Parse("## main") == GitStatus("", "main", false, 0, 0, 0, 0, 0)
  {
    PlainIsRefName("main");
    HeaderAlone("main", None);
    assert Header("main", None) == "## main";
  }

  // ---------------------------------------------------------------------
  // Edge cases

  /**
   * Any bracketed text after a branch and its upstream, with nothing
   * after the header: the branch is read and each counter is the last
   * token of the text that scans.
   */
  lemma ParseBracketedLine(branch: string, name: string, text: string)
    requires IsRefName(branch) && IsRefName(name)
    requires '.' !in text && '\n' !in text
    requires |text| > 0 && text[0] !in Brackets && text[|text| - 1] !in Brackets
    ensures Parse(BracketedLine(branch, name, text))
         == GitStatus("", branch, false,
                      LastField(Split(text, TokenSep), "ahead").GetOr(0),
                      LastField(Split(text, TokenSep), "behind").GetOr(0),
                      0, 0, 0)
  {
    ReadBracketedLine(branch, name, text);
    BracketedLineIsOneLine(branch, name, text);
    SingleLine(BracketedLine(branch, name, text));
  }

  /** One token that is the whole tracking text. */
  lemma OneToken(text: string, word: string)
    requires ',' !in text
    ensures LastField(Split(text, TokenSep), word) == Field(text, word)
  {
    SplitFree(text, TokenSep);
    assert [text][..0] == [];
  }

  /** The token "ahead -n" holds no '.', newline or ',' and no bracket at either end. */
  lemma NegativeAheadShape(n: nat)
    ensures var text := "ahead -" + DecimalString(n);
      '.' !in text && '\n' !in text && ',' !in text && HasPrefix(text, "ahead ")
      && |text| > 0 && text[0] !in Brackets && text[|text| - 1] !in Brackets
  {
    var d := DecimalString(n);
    var text := "ahead -" + d;
    assert forall k :: 0 <= k < |d| ==> IsDigit(d[k]);
    assert text[0] == 'a' && text[|text| - 1] == d[|d| - 1];
    assert text[..6] == "ahead ";
  }

  /**
   * %d reads decimal digits only and stops at the first other byte, so
   * "ahead N_..." sets the ahead count to N.
   */
  lemma UnderscoreEndsCount(n: nat, rest: string)
    requires n <= Int64Max
    ensures Field("ahead " + DecimalString(n) + "_" + rest, "ahead") == Some(n)
  {
    var d := DecimalString(n);
    var t := "ahead " + d + "_" + rest;
    assert Field(t, "ahead") == Sscanf(t, "ahead") by {
      assert t[..6] == "ahead ";
      AheadToken(t);
    }
    assert Sscanf(t, "ahead") == Some(n) by {
      assert t == "ahead" + " " + d + ("_" + rest);
      SscanfOfDecimal("ahead", n, "_" + rest);
    }
  }

  /** Sscanf(token, "ahead %d") reads "ahead -n" as -n. */
  lemma NegativeAheadScan(n: nat)
    requires n <= Int64Max
    ensures Sscanf("ahead -" + DecimalString(n), "ahead") == Some(-(n as int))
  {
    var d := DecimalString(n);
    assert "ahead -" + d == "ahead" + " " + ("-" + d);
    SscanfOfNegative("ahead", n);
  }

  /** The token "ahead -n" scans as -n for ahead and not at all for behind. */
  lemma NegativeAheadToken(n: nat)
    requires n <= Int64Max
    ensures Field("ahead -" + DecimalString(n), "ahead") == Some(-(n as int))
    ensures Field("ahead -" + DecimalString(n), "behind") == None
  {
    NegativeAheadShape(n);
    AheadToken("ahead -" + DecimalString(n));
    NegativeAheadScan(n);
  }

  /**
   * A negative count: fmt's %d accepts a sign, so "[ahead -n]" gives
   * ahead == -n, a state git never reports but the parser lets through.
   */
  lemma NegativeAhead(branch: string, name: string, n: nat)
    requires IsRefName(branch) && IsRefName(name) && n <= Int64Max
    ensures Parse(BracketedLine(branch, name, "ahead -" + DecimalString(n)))
         == GitStatus("", branch, false, -(n as int), 0, 0, 0, 0)
  {
    var text := "ahead -" + DecimalString(n);
    NegativeAheadShape(n);
    NegativeAheadToken(n);
    OneToken(text, "ahead");
    OneToken(text, "behind");
    ParseBracketedLine(branch, name, text);
  }

  /** An upstream that is gone: "[gone]" holds no count, so both stay 0. */
  lemma UpstreamGone(branch: string, name: string)
    requires IsRefName(branch) && IsRefName(name)
    ensures Parse(BracketedLine(branch, name, "gone"))
         == GitStatus("", branch, false, 0, 0, 0, 0, 0)
  {
    var text := "gone";
    assert '.' !in text && '\n' !in text && ',' !in text && text[0] == 'g' && text[3] == 'e';
    assert "ahead" + " " == "ahead " && "behind" + " " == "behind ";
    assert !HasPrefix(text, "ahead ") && !HasPrefix(text, "behind ");
    OneToken(text, "ahead");
    OneToken(text, "behind");
    ParseBracketedLine(branch, name, text);
  }

  /**
   * A second "..." ends the piece the brackets are looked for in: after a
   * branch and an upstream name, whatever follows it gives no count.
   */
  lemma SecondUpstreamSep(branch: string, name: string, more: string)
    requires IsRefName(branch) && IsRefName(name) && '\n' !in more
    ensures Parse(BranchMarker + (branch + (UpstreamSep + (name + (UpstreamSep + more)))))
         == GitStatus("", branch, false, 0, 0, 0, 0, 0)
  {
    var rest := branch + (UpstreamSep + (name + (UpstreamSep + more)));
    var line := BranchMarker + rest;
    RefNameChars(branch);
    RefNameChars(name);
    assert '\n' !in line;
    AfterPrefix(line, BranchMarker, rest);
    assert rest == branch + UpstreamSep + (name + UpstreamSep + more);
    SplitAfterRefName(branch, name + UpstreamSep + more);
    SplitAfterRefName(name, more);
    IndexChar(name, '[');
    SingleLine(line);
  }
}
