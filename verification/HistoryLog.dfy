/** What a history store holds, as a function of the unbounded log of its runs, and what its
    directory must hold to rebuild it. File names are relative to the store's directory. */
module HistoryLog {
  import opened Ordering
  import opened Reports
  import opened Timestamps
  import opened Diffs

  /** A file either decodes to the report that was written or does not decode at all. */
  datatype File = Saved(report: Report) | Damaged

  /** The files of a history directory that match `report-*.json`; others are never touched. */
  type Dir = map<string, File>

  datatype Entry = Entry(time: Instant, summary: Summary)

  /** One run of the log and the file it was given ("" when it is not on disk). */
  datatype Run = Run(report: Report, file: string)

  /** `dir` is "" for a memory-only store. */
  datatype Log = Log(dir: string, limit: nat, entries: seq<Entry>, files: seq<string>,
                     prev: Option<Report>, last: Option<Report>)

  /** How persisting one report can end. Three ways count as failed: nothing is left, an unreadable file
      is (`Torn`), or the whole report is and only then an error comes (`Unlisted`). A report that does not
      encode leaves nothing but keeps its file name. */
  datatype Write = Written | Failed | Torn | Unlisted | NotEncoded

  function Clamp(limit: int): nat {
    if limit < 2 then 2 else limit
  }

  function EntryOf(r: Report): Entry {
    Entry(r.generatedAt, r.summary)
  }

  /** `push`, with its pruning loop. */
  function Pushed(log: Log, r: Report, file: string): Log {
    var entries, files := log.entries + [EntryOf(r)], log.files + [file];
    var excess := if |entries| > log.limit then |entries| - log.limit else 0;
    log.(entries := entries[excess..],
         files := if excess <= |files| then files[excess..] else [],
         prev := log.last, last := Some(r))
  }

  /** The files `push` removes. */
  function Evicted(log: Log, file: string): set<string> {
    var files := log.files + [file];
    set i | 0 <= i < |files| - log.limit && files[i] != "" :: files[i]
  }

  /** The file recorded for a run whose timestamped name is `name`. */
  function FileFor(dir: string, name: string, w: Write): string {
    if dir == "" || w in {Failed, Torn, Unlisted} then "" else name
  }

  function WrittenTo(d: Dir, name: string, r: Report, w: Write): Dir {
    match w
    case Written => d[name := Saved(r)]
    case Unlisted => d[name := Saved(r)]
    case Torn => d[name := Damaged]
    case Failed => d
    case NotEncoded => d
  }

  function Appended(log: Log, r: Report, name: string, w: Write): Log {
    Pushed(log, r, FileFor(log.dir, name, w))
  }

  /** The directory after `Append`; `stuck` holds the files whose removal fails. */
  function AppendedDir(log: Log, d: Dir, r: Report, name: string, w: Write, stuck: set<string>): Dir {
    WrittenTo(d, name, r, w) - (Evicted(log, FileFor(log.dir, name, w)) - stuck)
  }

  ghost function LastDiff(log: Log): Option<DiffResult> {
    if log.prev.None? || log.last.None? then None else Some(DiffOf(log.prev.value, log.last.value))
  }

  // The bounded view of an unbounded log.

  function Recent<T>(xs: seq<T>, n: nat): seq<T> {
    if |xs| <= n then xs else xs[|xs| - n..]
  }

  function EntriesOf(runs: seq<Run>): seq<Entry> {
    seq(|runs|, i requires 0 <= i < |runs| => EntryOf(runs[i].report))
  }

  function FilesOf(runs: seq<Run>): seq<string> {
    seq(|runs|, i requires 0 <= i < |runs| => runs[i].file)
  }

  function FromEnd(runs: seq<Run>, k: nat): Option<Report> {
    if k < |runs| then Some(runs[|runs| - 1 - k].report) else None
  }

  function Window(dir: string, limit: nat, runs: seq<Run>): Log {
    Log(dir, limit, EntriesOf(Recent(runs, limit)), FilesOf(Recent(runs, limit)),
        FromEnd(runs, 1), FromEnd(runs, 0))
  }

  lemma RecentPushed<T>(xs: seq<T>, x: T, limit: nat)
    ensures Recent(Recent(xs, limit) + [x], limit) == Recent(xs + [x], limit)
  {
  }

  lemma EntriesPushed(runs: seq<Run>, r: Report, file: string)
    ensures EntriesOf(runs + [Run(r, file)]) == EntriesOf(runs) + [EntryOf(r)]
    ensures FilesOf(runs + [Run(r, file)]) == FilesOf(runs) + [file]
  {
  }

  lemma RecentEntries(runs: seq<Run>, limit: nat)
    ensures Recent(EntriesOf(runs), limit) == EntriesOf(Recent(runs, limit))
  {
  }

  lemma RecentFiles(runs: seq<Run>, limit: nat)
    ensures Recent(FilesOf(runs), limit) == FilesOf(Recent(runs, limit))
  {
  }

  /** A push refines appending to the unbounded log. */
  lemma PushRefinesAppend(dir: string, limit: nat, runs: seq<Run>, r: Report, file: string)
    ensures Pushed(Window(dir, limit, runs), r, file) == Window(dir, limit, runs + [Run(r, file)])
  {
    var kept := Recent(runs, limit);
    RecentPushed(runs, Run(r, file), limit);
    EntriesPushed(kept, r, file);
    RecentEntries(kept + [Run(r, file)], limit);
    RecentFiles(kept + [Run(r, file)], limit);
    PushedIsRecent(Window(dir, limit, runs), r, file);
    assert FromEnd(runs + [Run(r, file)], 1) == FromEnd(runs, 0);
  }

  lemma PushedIsRecent(log: Log, r: Report, file: string)
    requires |log.entries| == |log.files|
    ensures Pushed(log, r, file)
         == Log(log.dir, log.limit, Recent(log.entries + [EntryOf(r)], log.limit),
                Recent(log.files + [file], log.limit), log.last, Some(r))
  {
  }

  /** The files that fall out of the window: those of all runs but the last `limit`. */
  ghost function OldFiles(runs: seq<Run>, limit: nat): set<string> {
    set i | 0 <= i < |runs| - limit && runs[i].file != "" :: runs[i].file
  }

  lemma EvictedIsOld(dir: string, limit: nat, runs: seq<Run>, r: Report, file: string)
    ensures Evicted(Window(dir, limit, runs), file) <= OldFiles(runs + [Run(r, file)], limit)
  {
    var files := FilesOf(Recent(runs, limit)) + [file];
    var all := runs + [Run(r, file)];
    forall i | 0 <= i < |files| - limit && files[i] != ""
      ensures files[i] in OldFiles(all, limit)
    {
      var k := |all| - |files| + i;
      assert all[k].file == files[i];
    }
  }

  // Reading a directory back.

  function SavedRuns(d: Dir, names: seq<string>): seq<Run> {
    if names == [] then []
    else
      var n := names[|names| - 1];
      SavedRuns(d, names[..|names| - 1]) + if n in d && d[n].Saved? then [Run(d[n].report, n)] else []
  }

  /** The runs `New` pushes: the readable report files in the order of their names. */
  ghost function Readable(d: Dir): seq<Run> {
    SavedRuns(d, Listing(d.Keys))
  }

  ghost function Reloaded(dir: string, limit: nat, d: Dir): Log {
    Window(dir, limit, if dir == "" then [] else Readable(d))
  }

  ghost function ReloadedDir(limit: nat, d: Dir, stuck: set<string>): Dir {
    d - (OldFiles(Readable(d), limit) - stuck)
  }

  /** The directory rebuilds exactly this log. */
  ghost predicate Recoverable(log: Log, d: Dir) {
    log.dir != "" && log.limit >= 2 && Reloaded(log.dir, log.limit, d) == log
  }

  function Without(names: seq<string>, gone: set<string>): seq<string> {
    if names == [] then []
    else
      var n := names[|names| - 1];
      Without(names[..|names| - 1], gone) + if n in gone then [] else [n]
  }

  lemma {:induction false} WithoutIsListing(names: seq<string>, all: set<string>, gone: set<string>)
    requires IsListing(names, all)
    ensures IsListing(Without(names, gone), all - gone)
  {
    if names != [] {
      var init, n := names[..|names| - 1], names[|names| - 1];
      assert IsListing(init, all - {n}) by {
        forall x
          ensures x in init <==> x in all - {n}
        {
          if x in init {
            var i :| 0 <= i < |init| && init[i] == x;
            assert names[i] == x && Less(names[i], n);
          }
          if x in all && x != n {
            var i :| 0 <= i < |names| && names[i] == x;
            assert init[i] == x;
          }
        }
      }
      WithoutIsListing(init, all - {n}, gone);
      var kept := Without(init, gone);
      assert n in names;
      forall i, j | 0 <= i < j < |Without(names, gone)|
        ensures Less(Without(names, gone)[i], Without(names, gone)[j])
      {
        if j == |kept| {
          assert kept[i] in kept && kept[i] in init;
          var k :| 0 <= k < |init| && init[k] == kept[i];
          assert Less(names[k], n);
        }
      }
    }
  }

  /** The runs left when the files in `gone` are deleted. */
  function RunsWithout(runs: seq<Run>, gone: set<string>): seq<Run> {
    if runs == [] then []
    else
      var r := runs[|runs| - 1];
      RunsWithout(runs[..|runs| - 1], gone) + if r.file in gone then [] else [r]
  }

  lemma {:induction false} SavedRunsWithout(d: Dir, names: seq<string>, gone: set<string>)
    ensures SavedRuns(d - gone, Without(names, gone)) == RunsWithout(SavedRuns(d, names), gone)
  {
    if names != [] {
      var init, n := names[..|names| - 1], names[|names| - 1];
      SavedRunsWithout(d, init, gone);
      var runs, kept := SavedRuns(d, init), Without(init, gone);
      if n in gone {
        assert kept + [] == kept;
      } else {
        SavedRunsOneMore(d - gone, kept, n);
      }
      if n in d && d[n].Saved? {
        RunsWithoutOneMore(runs, Run(d[n].report, n), gone);
      } else {
        assert runs + [] == runs;
      }
    }
  }

  lemma {:induction false} SavedRunsOneMore(d: Dir, names: seq<string>, n: string)
    ensures SavedRuns(d, names + [n]) == SavedRuns(d, names) + if n in d && d[n].Saved? then [Run(d[n].report, n)] else []
  {
    assert (names + [n])[..|names|] == names;
  }

  lemma {:induction false} RunsWithoutOneMore(runs: seq<Run>, r: Run, gone: set<string>)
    ensures RunsWithout(runs + [r], gone) == RunsWithout(runs, gone) + if r.file in gone then [] else [r]
  {
    assert (runs + [r])[..|runs|] == runs;
  }

  lemma ReadableWithout(d: Dir, gone: set<string>)
    ensures Readable(d - gone) == RunsWithout(Readable(d), gone)
  {
    var names := d.Keys;
    WithoutIsListing(Listing(names), names, gone);
    assert (d - gone).Keys == names - gone;
    ListingUnique(Without(Listing(names), gone), Listing(names - gone), names - gone);
    SavedRunsWithout(d, Listing(names), gone);
  }

  ghost predicate FilesInOrder(runs: seq<Run>) {
    forall i, j | 0 <= i < j < |runs| :: Less(runs[i].file, runs[j].file)
  }

  /** Readable runs carry the names of the files they were read from. */
  lemma {:induction false} SavedRunsNamed(d: Dir, names: seq<string>)
    ensures forall k | 0 <= k < |SavedRuns(d, names)| ::
              SavedRuns(d, names)[k].file in names && SavedRuns(d, names)[k].file in d
              && d[SavedRuns(d, names)[k].file] == Saved(SavedRuns(d, names)[k].report)
  {
    if names != [] {
      var init := names[..|names| - 1];
      SavedRunsNamed(d, init);
      assert forall n | n in init :: n in names;
    }
  }

  /** Readable runs come in the order of their names. */
  lemma {:induction false} SavedRunsOrdered(d: Dir, names: seq<string>)
    requires StrictlySorted(names)
    ensures FilesInOrder(SavedRuns(d, names))
  {
    if names != [] {
      var init, n := names[..|names| - 1], names[|names| - 1];
      SavedRunsOrdered(d, init);
      SavedRunsNamed(d, init);
      var runs := SavedRuns(d, init);
      forall k | 0 <= k < |runs|
        ensures Less(runs[k].file, n)
      {
        var i :| 0 <= i < |init| && init[i] == runs[k].file;
        assert names[i] == init[i];
      }
    }
  }

  lemma ReadableOrdered(d: Dir)
    ensures forall k | 0 <= k < |Readable(d)| ::
              Readable(d)[k].file in d.Keys
              && d[Readable(d)[k].file] == Saved(Readable(d)[k].report)
    ensures FilesInOrder(Readable(d))
  {
    SavedRunsNamed(d, Listing(d.Keys));
    SavedRunsOrdered(d, Listing(d.Keys));
  }

  lemma {:induction false} RunsWithoutSuffix(runs: seq<Run>, k: nat, gone: set<string>)
    requires k <= |runs| && forall i | k <= i < |runs| :: runs[i].file !in gone
    ensures RunsWithout(runs, gone) == RunsWithout(runs[..k], gone) + runs[k..]
    decreases |runs|
  {
    if k == |runs| {
      assert runs[..k] == runs;
    } else {
      var init := runs[..|runs| - 1];
      RunsWithoutSuffix(init, k, gone);
      var r := runs[|runs| - 1];
      assert init[..k] == runs[..k];
      assert runs[k..] == init[k..] + [r];
      Regroup(RunsWithout(runs[..k], gone), init[k..], [r]);
    }
  }

  /** The window sees only the last `limit` runs, provided the limit covers the last two. */
  lemma WindowOfSuffix(dir: string, limit: nat, a: seq<Run>, tail: seq<Run>)
    requires 2 <= limit == |tail|
    ensures Window(dir, limit, a + tail) == Window(dir, limit, tail)
  {
    var all, n := a + tail, |a| + limit;
    assert Recent(all, limit) == tail == Recent(tail, limit);
    assert all[n - 1] == tail[limit - 1] && all[n - 2] == tail[limit - 2];
  }

  /** A file in the window of an ordered log is none of the old ones. */
  lemma NotOld(runs: seq<Run>, limit: nat, i: nat)
    requires FilesInOrder(runs) && |runs| - limit <= i < |runs|
    ensures runs[i].file !in OldFiles(runs, limit)
  {
    assert forall j | 0 <= j < i :: Less(runs[j].file, runs[i].file);
  }

  lemma NoneOld(runs: seq<Run>, limit: nat, k: nat, gone: set<string>)
    requires FilesInOrder(runs) && gone <= OldFiles(runs, limit) && |runs| - limit <= k
    ensures forall i | k <= i < |runs| :: runs[i].file !in gone
  {
    forall i | k <= i < |runs|
      ensures runs[i].file !in gone
    {
      NotOld(runs, limit, i);
    }
  }

  lemma WindowWithoutOld(dir: string, limit: nat, runs: seq<Run>, gone: set<string>)
    requires 2 <= limit < |runs| && FilesInOrder(runs) && gone <= OldFiles(runs, limit)
    ensures Window(dir, limit, RunsWithout(runs, gone)) == Window(dir, limit, runs)
  {
    var k := |runs| - limit;
    NoneOld(runs, limit, k, gone);
    RunsWithoutSuffix(runs, k, gone);
    WindowOfSuffix(dir, limit, RunsWithout(runs[..k], gone), runs[k..]);
    WindowOfTail(dir, limit, runs, k);
  }

  lemma WindowOfTail(dir: string, limit: nat, runs: seq<Run>, k: nat)
    requires 2 <= limit && k == |runs| - limit
    ensures Window(dir, limit, runs) == Window(dir, limit, runs[k..])
  {
    assert runs == runs[..k] + runs[k..];
    WindowOfSuffix(dir, limit, runs[..k], runs[k..]);
  }

  /** Deleting any of the files that fell out of the window loses nothing. */
  lemma OldFilesRedundant(dir: string, limit: nat, d: Dir, gone: set<string>)
    requires 2 <= limit && gone <= OldFiles(Readable(d), limit)
    ensures Window(dir, limit, Readable(d - gone)) == Window(dir, limit, Readable(d))
  {
    if |Readable(d)| <= limit {
      assert gone == {};
      assert d - gone == d;
    } else {
      ReadableWithout(d, gone);
      ReadableOrdered(d);
      WindowWithoutOld(dir, limit, Readable(d), gone);
    }
  }

  /** Opening a directory twice is the same as opening it once, whatever it holds and
      whichever removals fail. */
  lemma ReopenStable(dir: string, limit: nat, d: Dir, stuck: set<string>)
    requires dir != "" && limit >= 2
    ensures Recoverable(Reloaded(dir, limit, d), ReloadedDir(limit, d, stuck))
  {
    OldFilesRedundant(dir, limit, d, OldFiles(Readable(d), limit) - stuck);
  }

  lemma {:induction false} SavedRunsFrame(d: Dir, names: seq<string>, name: string, f: File)
    requires name !in names
    ensures SavedRuns(d[name := f], names) == SavedRuns(d, names)
  {
    if names != [] {
      SavedRunsFrame(d, names[..|names| - 1], name, f);
    }
  }

  /** `name` comes after every report file in the directory. */
  ghost predicate LaterThan(name: string, d: Dir) {
    forall n | n in d.Keys :: Less(n, name)
  }

  lemma SavedRunsGrow(d: Dir, names: seq<string>, r: Report, name: string)
    requires name !in names
    ensures SavedRuns(d[name := Saved(r)], names + [name]) == SavedRuns(d, names) + [Run(r, name)]
  {
    SavedRunsFrame(d, names, name, Saved(r));
    assert (names + [name])[..|names|] == names;
  }

  lemma ReadableGrows(d: Dir, r: Report, name: string)
    requires LaterThan(name, d)
    ensures Readable(d[name := Saved(r)]) == Readable(d) + [Run(r, name)]
  {
    assert d[name := Saved(r)].Keys == d.Keys + {name};
    ListingGrows(d.Keys, name);
    assert name !in d.Keys;
    SavedRunsGrow(d, Listing(d.Keys), r, name);
  }

  /** One successful append keeps the directory able to rebuild the log, whichever removals fail. */
  lemma AppendRecoverable(log: Log, d: Dir, r: Report, name: string, stuck: set<string>)
    requires Recoverable(log, d) && LaterThan(name, d)
    ensures Recoverable(Appended(log, r, name, Written), AppendedDir(log, d, r, name, Written, stuck))
  {
    ReadableGrows(d, r, name);
    PushRefinesAppend(log.dir, log.limit, Readable(d), r, name);
    EvictedIsOld(log.dir, log.limit, Readable(d), r, name);
    OldFilesRedundant(log.dir, log.limit, d[name := Saved(r)], Evicted(log, name) - stuck);
  }
}
