/**
 * One pass of the scan loop in main.go: list the target directory, keep
 * the sub-directories that hold a ".git" entry, run the status parser in
 * each, and keep the records the --show filter lets through.
 *
 * The file system and git are parameters: a directory listing is a
 * sequence of Entry values that already carry what os.Stat and the git
 * command reported for that entry.
 */
module Scanner {
  import opened Wrappers
  import opened StatusParser
  import opened Visibility

  /**
   * One entry of the target directory: its name, whether it is a
   * directory, whether os.Stat on "<entry>/.git" reported that the path
   * does not exist, and the standard output of `git status --branch
   * --porcelain` run inside it (None when the command fails).
   */
  datatype Entry = Entry(name: string, isDir: bool, gitDirMissing: bool, statusOutput: Option<string>)

  /**
   * The record an entry contributes before filtering: none for a plain
   * file, for a directory without ".git", or when git fails; otherwise the
   * parsed status, named after the entry.
   */
  function RecordOf(e: Entry): (r: Option<GitStatus>)
    ensures r.Some? <==> e.isDir && !e.gitDirMissing && e.statusOutput.Some?
    ensures r.Some? ==> r.value == Parse(e.statusOutput.value).(name := e.name)
  {
    if !e.isDir || e.gitDirMissing then None
    else match e.statusOutput
      case None => None
      case Some(out) => Some(Parse(out).(name := e.name))
  }

  /** The records of a listing, in listing order, before filtering. */
  function Records(entries: seq<Entry>): (records: seq<GitStatus>)
    ensures |records| <= |entries|
  {
    if entries == [] then []
    else
      var init := Records(entries[..|entries| - 1]);
      match RecordOf(entries[|entries| - 1])
      case None => init
      case Some(st) => init + [st]
  }

  /** Records, one entry at a time from the end. */
  lemma RecordsStep(entries: seq<Entry>, init: seq<Entry>, e: Entry)
    requires entries == init + [e]
    ensures Records(entries) == match RecordOf(e) case None => Records(init) case Some(st) => Records(init) + [st]
  {
    assert entries[..|entries| - 1] == init;
  }

  /** The records of two consecutive parts of a listing are the records of each part, in order. */
  lemma {:induction false} RecordsConcat(a: seq<Entry>, b: seq<Entry>)
    ensures Records(a + b) == Records(a) + Records(b)
  {
    if b == [] {
      assert a + b == a;
    } else {
      var n := |b| - 1;
      assert a + b == (a + b[..n]) + [b[n]];
      assert b == b[..n] + [b[n]];
      RecordsConcat(a, b[..n]);
      RecordsStep(a + b, a + b[..n], b[n]);
      RecordsStep(b, b[..n], b[n]);
    }
  }

  /**
   * Every record comes from an entry of the listing: a repository entry
   * whose git command succeeded, parsed and named after that entry.
   */
  lemma {:induction false} RecordsFromEntries(entries: seq<Entry>, st: GitStatus)
    requires st in Records(entries)
    ensures exists e :: e in entries && RecordOf(e) == Some(st)
  {
    var n := |entries| - 1;
    var init, last := entries[..n], entries[n];
    assert entries == init + [last];
    RecordsStep(entries, init, last);
    if st in Records(init) {
      RecordsFromEntries(init, st);
      var e :| e in init && RecordOf(e) == Some(st);
      assert e in entries;
    } else {
      assert RecordOf(last) == Some(st);
    }
  }

  /** Every repository entry whose git command succeeds contributes its record. */
  lemma {:induction false} EntryRecorded(entries: seq<Entry>, i: nat)
    requires i < |entries| && RecordOf(entries[i]).Some?
    ensures RecordOf(entries[i]).value in Records(entries)
  {
    var n := |entries| - 1;
    var init, last := entries[..n], entries[n];
    assert entries == init + [last];
    RecordsStep(entries, init, last);
    if i < n {
      assert init[i] == entries[i];
      EntryRecorded(init, i);
    }
  }

  /** What one pass of the scan loop collects from a listing. */
  function Visible(entries: seq<Entry>, show: string): (statuses: seq<GitStatus>)
    ensures forall st :: st in statuses ==> ShouldShow(show, st)
  {
    Keep(Records(entries), show)
  }

  /** Without a "clean" or "unclean" filter a pass shows every record. */
  lemma VisibleAll(entries: seq<Entry>, show: string)
    requires show != "clean" && show != "unclean"
    ensures Visible(entries, show) == Records(entries)
  {
    OtherModeKeepsAll(Records(entries), show);
  }

  /**
   * The scan loop (main.go:94-136). `listing` is the result of reading the
   * target directory, None when that fails (the program then exits with
   * status 1 and shows nothing).
   */
  method Scan(listing: Option<seq<Entry>>, show: string) returns (r: Option<seq<GitStatus>>)
    ensures listing.None? ==> r.None?
    ensures listing.Some? ==> r == Some(Visible(listing.value, show))
  {
    if listing.None? {
      return None;
    }
    var entries := listing.value;
    var statuses: seq<GitStatus> := [];
    for i := 0 to |entries|
      invariant statuses == Keep(Records(entries[..i]), show)
    {
      var entry := entries[i];
      assert entries[..i + 1] == entries[..i] + [entry];
      RecordsStep(entries[..i + 1], entries[..i], entry);
      if !entry.isDir {
        continue;
      }
      if entry.gitDirMissing {
        continue;
      }
      var result := GetGitStatus(entry.statusOutput);
      if result.Failure? {
        continue;
      }
      var status := result.value.(name := entry.name);

      var shouldShow := true;
      if show == "clean" {
        if status.isDirty || status.ahead > 0 || status.behind > 0 {
          shouldShow := false;
        }
      } else if show == "unclean" {
        if !status.isDirty && status.ahead == 0 && status.behind == 0 {
          shouldShow := false;
        }
      }

      KeepStep(Records(entries[..i + 1]), show, Records(entries[..i]), status);
      if shouldShow {
        statuses := statuses + [status];
      }
    }
    assert entries[..|entries|] == entries;
    return Some(statuses);
  }
}
