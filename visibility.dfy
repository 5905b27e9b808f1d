/**
 * The --show filter of the scan loop (main.go:121-131): which parsed
 * records are displayed for the modes "clean", "unclean" and anything else
 * (the default "all").
 */
module Visibility {
  import opened StatusParser

  /** The three behaviours of the --show switch. */
  datatype Mode = Clean | Unclean | All

  /** The switch value selects "clean", "unclean", or (for any other text) no filtering. */
  function ModeOf(show: string): (mode: Mode)
    ensures mode == Clean <==> show == "clean"
    ensures mode == Unclean <==> show == "unclean"
  {
    if show == "clean" then Clean
    else if show == "unclean" then Unclean
    else All
  }

  /**
   * Whether a record is shown in a mode. Clean hides a record that is
   * dirty or has a positive ahead or behind count; Unclean hides one that
   * is not dirty and has both counts exactly zero; All shows everything.
   */
  predicate Shows(mode: Mode, st: GitStatus)
  {
    match mode
    case Clean => !(st.isDirty || st.ahead > 0 || st.behind > 0)
    case Unclean => !(!st.isDirty && st.ahead == 0 && st.behind == 0)
    case All => true
  }

  /** The decision taken for one record under the --show value `show`. */
  predicate ShouldShow(show: string, st: GitStatus): (shown: bool)
    ensures show == "clean" ==> (shown <==> !st.isDirty && st.ahead <= 0 && st.behind <= 0)
    ensures show == "unclean" ==> (shown <==> st.isDirty || st.ahead != 0 || st.behind != 0)
    ensures show != "clean" && show != "unclean" ==> shown
  {
    Shows(ModeOf(show), st)
  }

  /** The records shown, in their original order. */
  function Keep(records: seq<GitStatus>, show: string): (kept: seq<GitStatus>)
    ensures |kept| <= |records|
    ensures forall st :: st in kept ==> st in records && ShouldShow(show, st)
  {
    if records == [] then []
    else
      var init := Keep(records[..|records| - 1], show);
      var last := records[|records| - 1];
      if ShouldShow(show, last) then init + [last] else init
  }

  /** Keep, one record at a time from the end. */
  lemma KeepStep(records: seq<GitStatus>, show: string, init: seq<GitStatus>, last: GitStatus)
    requires records == init + [last]
    ensures Keep(records, show) == if ShouldShow(show, last) then Keep(init, show) + [last] else Keep(init, show)
  {
    assert records[..|records| - 1] == init;
  }

  /** A record git reports (counts never negative) is clean exactly when it is not unclean. */
  lemma CleanIffNotUnclean(st: GitStatus)
    requires st.ahead >= 0 && st.behind >= 0
    ensures ShouldShow("clean", st) <==> !ShouldShow("unclean", st)
  {
  }

  /**
   * The two modes are not complements for every record: a negative count,
   * which the parser can produce, passes both filters.
   */
  lemma NegativeCountPassesBoth(st: GitStatus)
    requires !st.isDirty && st.ahead < 0 && st.behind <= 0
    ensures ShouldShow("clean", st) && ShouldShow("unclean", st)
  {
  }

  /** A mode other than "clean" and "unclean" keeps every record. */
  lemma {:induction false} OtherModeKeepsAll(records: seq<GitStatus>, show: string)
    requires show != "clean" && show != "unclean"
    ensures Keep(records, show) == records
  {
    if records != [] {
      var n := |records| - 1;
      assert records == records[..n] + [records[n]];
      OtherModeKeepsAll(records[..n], show);
      KeepStep(records, show, records[..n], records[n]);
    }
  }

  /**
   * With non-negative counts "clean" and "unclean" split the records
   * between them: together they hold each record exactly once.
   */
  lemma {:induction false} CleanUncleanPartition(records: seq<GitStatus>)
    requires forall k :: 0 <= k < |records| ==> records[k].ahead >= 0 && records[k].behind >= 0
    ensures multiset(Keep(records, "clean")) + multiset(Keep(records, "unclean")) == multiset(records)
    ensures |Keep(records, "clean")| + |Keep(records, "unclean")| == |records|
  {
    if records != [] {
      var n := |records| - 1;
      var init, last := records[..n], records[n];
      assert records == init + [last];
      CleanUncleanPartition(init);
      CleanIffNotUnclean(last);
      KeepStep(records, "clean", init, last);
      KeepStep(records, "unclean", init, last);
    }
  }

  /** The positions in `records` of the records Keep retains, in order. */
  function Positions(records: seq<GitStatus>, show: string): (idx: seq<nat>)
    ensures |idx| == |Keep(records, show)|
    ensures forall k :: 0 <= k < |idx| ==> idx[k] < |records|
  {
    if records == [] then []
    else
      var n := |records| - 1;
      KeepStep(records, show, records[..n], records[n]);
      var init := Positions(records[..n], show);
      if ShouldShow(show, records[n]) then init + [n] else init
  }

  /** Positions, one record at a time from the end. */
  lemma PositionsStep(records: seq<GitStatus>, show: string, init: seq<GitStatus>, last: GitStatus)
    requires records == init + [last]
    ensures Positions(records, show) == if ShouldShow(show, last) then Positions(init, show) + [|init|] else Positions(init, show)
  {
    assert records[..|records| - 1] == init;
  }

  /** Keep's k-th record is the record at the k-th listed position. */
  lemma {:induction false} PositionsSelect(records: seq<GitStatus>, show: string)
    ensures forall k :: 0 <= k < |Positions(records, show)| ==>
      records[Positions(records, show)[k]] == Keep(records, show)[k]
  {
    if records != [] {
      var n := |records| - 1;
      var init, last := records[..n], records[n];
      assert records == init + [last];
      PositionsSelect(init, show);
      KeepStep(records, show, init, last);
      PositionsStep(records, show, init, last);
      var prev, idx := Positions(init, show), Positions(records, show);
      forall k | 0 <= k < |idx|
        ensures records[idx[k]] == Keep(records, show)[k]
      {
        if k < |prev| {
          assert records[prev[k]] == init[prev[k]];
        }
      }
    }
  }

  /** The positions are listed in strictly increasing order: Keep preserves the order of the records. */
  lemma {:induction false} PositionsIncreasing(records: seq<GitStatus>, show: string)
    ensures forall k, l :: 0 <= k < l < |Positions(records, show)| ==>
      Positions(records, show)[k] < Positions(records, show)[l]
  {
    if records != [] {
      var n := |records| - 1;
      var init, last := records[..n], records[n];
      assert records == init + [last];
      PositionsIncreasing(init, show);
      PositionsStep(records, show, init, last);
    }
  }

  /** Every record the mode shows has its position listed: Keep drops nothing it should show. */
  lemma {:induction false} PositionListed(records: seq<GitStatus>, show: string, i: nat)
    requires i < |records| && ShouldShow(show, records[i])
    ensures i in Positions(records, show)
  {
    var n := |records| - 1;
    var init, last := records[..n], records[n];
    assert records == init + [last];
    PositionsStep(records, show, init, last);
    if i < n {
      assert init[i] == records[i];
      PositionListed(init, show, i);
    }
  }
}
