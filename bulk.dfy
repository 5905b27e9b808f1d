/**
 * handleBulkOperations in main.go: run one git operation (fetch, pull or
 * push) in every repository of the target directory, report OK or FAIL
 * for each, and count both.
 *
 * The file system and git are parameters: each entry carries what
 * os.Stat reported for "<entry>/.git" and whether the git command exits
 * successfully in it.
 */
module Bulk {
  import opened Wrappers

  /** The git sub-command run in every repository. */
  datatype Operation = Fetch | Pull | Push

  /**
   * The operation run when several switches are given: fetch wins over
   * pull, and pull over push. The caller only enters bulk mode when at
   * least one switch is set.
   */
  function SelectOperation(fetch: bool, pull: bool, push: bool): (op: Operation)
    requires fetch || pull || push
    ensures op == Fetch <==> fetch
    ensures op == Pull <==> !fetch && pull
    ensures op == Push <==> !fetch && !pull
  {
    if fetch then Fetch
    else if pull then Pull
    else Push
  }

  /**
   * One entry of the target directory: its name, whether it is a
   * directory, whether os.Stat reported that "<entry>/.git" does not
   * exist, and whether the git command exits successfully in it.
   */
  datatype BulkEntry = BulkEntry(name: string, isDir: bool, gitDirMissing: bool, commandSucceeds: bool)

  /** An entry the operation is run in. */
  predicate IsRepository(e: BulkEntry)
  {
    e.isDir && !e.gitDirMissing
  }

  /** The line printed for one repository: OK or FAIL, the operation, the entry name. */
  datatype Report = Report(ok: bool, op: Operation, name: string)

  /** The repositories of a listing, in listing order. */
  function Repositories(entries: seq<BulkEntry>): (repos: seq<BulkEntry>)
    ensures |repos| <= |entries|
    ensures forall k :: 0 <= k < |repos| ==> IsRepository(repos[k])
  {
    if entries == [] then []
    else
      var init := Repositories(entries[..|entries| - 1]);
      var last := entries[|entries| - 1];
      if IsRepository(last) then init + [last] else init
  }

  /** The reports printed for a listing, in listing order. */
  function Reports(entries: seq<BulkEntry>, op: Operation): (reports: seq<Report>)
    ensures |reports| <= |entries|
    ensures forall k :: 0 <= k < |reports| ==> reports[k].op == op
  {
    if entries == [] then []
    else
      var init := Reports(entries[..|entries| - 1], op);
      var last := entries[|entries| - 1];
      if IsRepository(last) then init + [Report(last.commandSucceeds, op, last.name)] else init
  }

  /** Reports, one entry at a time from the end. */
  lemma ReportsStep(entries: seq<BulkEntry>, op: Operation, init: seq<BulkEntry>, e: BulkEntry)
    requires entries == init + [e]
    ensures Reports(entries, op) == if IsRepository(e) then Reports(init, op) + [Report(e.commandSucceeds, op, e.name)] else Reports(init, op)
  {
    assert entries[..|entries| - 1] == init;
  }

  /** Reports of a listing's prefix, grown by the listing's next entry. */
  lemma ReportsPrefixStep(entries: seq<BulkEntry>, i: nat, op: Operation)
    requires i < |entries|
    ensures Reports(entries[..i + 1], op)
      == if IsRepository(entries[i]) then Reports(entries[..i], op) + [Report(entries[i].commandSucceeds, op, entries[i].name)]
         else Reports(entries[..i], op)
  {
    ReportsStep(entries[..i + 1], op, entries[..i], entries[i]);
  }

  /** Repositories, one entry at a time from the end. */
  lemma RepositoriesStep(entries: seq<BulkEntry>, init: seq<BulkEntry>, e: BulkEntry)
    requires entries == init + [e]
    ensures Repositories(entries) == if IsRepository(e) then Repositories(init) + [e] else Repositories(init)
  {
    assert entries[..|entries| - 1] == init;
  }

  /** There is one report per repository, in the same order, with that repository's outcome. */
  lemma {:induction false} ReportPerRepository(entries: seq<BulkEntry>, op: Operation)
    ensures |Reports(entries, op)| == |Repositories(entries)|
    ensures forall k :: 0 <= k < |Reports(entries, op)| ==>
      Reports(entries, op)[k] == Report(Repositories(entries)[k].commandSucceeds, op, Repositories(entries)[k].name)
  {
    if entries != [] {
      var n := |entries| - 1;
      assert entries == entries[..n] + [entries[n]];
      ReportPerRepository(entries[..n], op);
      ReportsStep(entries, op, entries[..n], entries[n]);
      RepositoriesStep(entries, entries[..n], entries[n]);
    }
  }

  /** The number of OK reports. */
  function Successes(reports: seq<Report>): (count: nat)
    ensures count <= |reports|
  {
    if reports == [] then 0
    else Successes(reports[..|reports| - 1]) + (if reports[|reports| - 1].ok then 1 else 0)
  }

  /** The number of FAIL reports. */
  function Failures(reports: seq<Report>): (count: nat)
    ensures count <= |reports|
  {
    if reports == [] then 0
    else Failures(reports[..|reports| - 1]) + (if reports[|reports| - 1].ok then 0 else 1)
  }

  /** Counting one more report. */
  lemma CountsStep(reports: seq<Report>, last: Report)
    ensures Successes(reports + [last]) == Successes(reports) + (if last.ok then 1 else 0)
    ensures Failures(reports + [last]) == Failures(reports) + (if last.ok then 0 else 1)
  {
    assert (reports + [last])[..|reports|] == reports;
  }

  /** Every report is counted exactly once, as a success or as a failure. */
  lemma {:induction false} CountsCoverReports(reports: seq<Report>)
    ensures Successes(reports) + Failures(reports) == |reports|
  {
    if reports != [] {
      CountsCoverReports(reports[..|reports| - 1]);
    }
  }

  /** The failures are exactly the repositories whose command fails: none fails only when every command succeeds. */
  lemma {:induction false} NoFailureIffAllSucceed(reports: seq<Report>)
    ensures Failures(reports) == 0 <==> forall k :: 0 <= k < |reports| ==> reports[k].ok
  {
    if reports != [] {
      var n := |reports| - 1;
      NoFailureIffAllSucceed(reports[..n]);
      assert forall k :: 0 <= k < n ==> reports[..n][k] == reports[k];
    }
  }

  /** What one bulk run prints: a report per repository and the two totals. */
  datatype BulkTotals = BulkTotals(reports: seq<Report>, successCount: nat, failCount: nat)

  /**
   * handleBulkOperations (main.go:230-278). `listing` is the result of
   * reading the target directory, None when that fails (the function then
   * reports the error and returns without running anything).
   */
  method HandleBulkOperations(listing: Option<seq<BulkEntry>>, fetch: bool, pull: bool, push: bool)
      returns (r: Option<BulkTotals>)
    requires fetch || pull || push
    ensures listing.None? ==> r.None?
    ensures listing.Some? ==> (r.Some?
      && r.value.reports == Reports(listing.value, SelectOperation(fetch, pull, push))
      && r.value.successCount == Successes(r.value.reports)
      && r.value.failCount == Failures(r.value.reports))
  {
    if listing.None? {
      return None;
    }
    var entries := listing.value;
    var reports: seq<Report> := [];
    var successCount := 0;
    var failCount := 0;
    ghost var op := SelectOperation(fetch, pull, push);
    for i := 0 to |entries|
      invariant reports == Reports(entries[..i], op)
      invariant successCount == Successes(reports)
      invariant failCount == Failures(reports)
    {
      var entry := entries[i];
      ReportsPrefixStep(entries, i, op);
      if !entry.isDir {
        continue;
      }
      if entry.gitDirMissing {
        continue;
      }

      var opName: Operation;
      if fetch {
        opName := Fetch;
      } else if pull {
        opName := Pull;
      } else {
        opName := Push;
      }
      assert opName == op;

      var report := Report(entry.commandSucceeds, opName, entry.name);
      CountsStep(reports, report);
      reports := reports + [report];
      if !report.ok {
        failCount := failCount + 1;
      } else {
        successCount := successCount + 1;
      }
    }
    assert entries[..|entries|] == entries;
    return Some(BulkTotals(reports, successCount, failCount));
  }

  /** Every repository is reported once, so the two totals add up to the number of repositories. */
  lemma TotalsCoverRepositories(entries: seq<BulkEntry>, op: Operation)
    ensures Successes(Reports(entries, op)) + Failures(Reports(entries, op)) == |Repositories(entries)|
  {
    ReportPerRepository(entries, op);
    CountsCoverReports(Reports(entries, op));
  }

  /**
   * A listing with a plain file, a directory without ".git" and three
   * repositories of which the second fails to pull: two successes and one
   * failure, reported in listing order.
   */
  lemma {:induction false} PullThreeRepositories(file: string, scratch: string, a: string, b: string, c: string)
    ensures var entries := [
        BulkEntry(file, false, true, false),
        BulkEntry(a, true, false, true),
        BulkEntry(scratch, true, true, false),
        BulkEntry(b, true, false, false),
        BulkEntry(c, true, false, true)];
      var reports := Reports(entries, SelectOperation(false, true, true));
      reports == [Report(true, Pull, a), Report(false, Pull, b), Report(true, Pull, c)]
      && Successes(reports) == 2 && Failures(reports) == 1
  {
    var e0, e1, e2, e3, e4 := BulkEntry(file, false, true, false), BulkEntry(a, true, false, true),
      BulkEntry(scratch, true, true, false), BulkEntry(b, true, false, false), BulkEntry(c, true, false, true);
    var r1, r3, r4 := Report(true, Pull, a), Report(false, Pull, b), Report(true, Pull, c);
    var s0: seq<BulkEntry> := [];
    var s1 := s0 + [e0];
    var s2 := s1 + [e1];
    var s3 := s2 + [e2];
    var s4 := s3 + [e3];
    var s5 := s4 + [e4];
    ReportsStep(s1, Pull, s0, e0);
    ReportsStep(s2, Pull, s1, e1);
    ReportsStep(s3, Pull, s2, e2);
    ReportsStep(s4, Pull, s3, e3);
    ReportsStep(s5, Pull, s4, e4);
    var reports := [r1, r3, r4];
    assert Reports(s5, Pull) == reports;
    assert s5 == [e0, e1, e2, e3, e4];
    var t0: seq<Report> := [];
    var t1 := t0 + [r1];
    var t2 := t1 + [r3];
    assert t2 + [r4] == reports;
    assert reports[..2] == t2 && t2[..1] == t1 && t1[..0] == t0;
    assert Successes(t1) == 1 && Failures(t1) == 0;
    assert Successes(t2) == 1 && Failures(t2) == 1;
  }
}
