/** Whole lives of a history store: appends with any outcome, and restarts anywhere. */
module HistoryRuns {
  import opened Ordering
  import opened Reports
  import opened Timestamps
  import opened HistoryLog

  /** `name` is the timestamped file name of the appended report. */
  datatype Op =
    | Append(report: Report, name: string, write: Write, stuck: set<string>)
    | Reopen(stuck: set<string>)

  datatype OnDisk = OnDisk(log: Log, dir: Dir)

  ghost function Opened(dir: string, limit: nat, d: Dir, stuck: set<string>): OnDisk {
    OnDisk(Reloaded(dir, limit, d), ReloadedDir(limit, d, stuck))
  }

  ghost function Step(s: OnDisk, op: Op): OnDisk {
    match op
    case Append(r, name, w, stuck) => OnDisk(Appended(s.log, r, name, w), AppendedDir(s.log, s.dir, r, name, w, stuck))
    case Reopen(stuck) => Opened(s.log.dir, s.log.limit, s.dir, stuck)
  }

  ghost function Execute(s: OnDisk, ops: seq<Op>): OnDisk {
    if ops == [] then s else Step(Execute(s, ops[..|ops| - 1]), ops[|ops| - 1])
  }

  /** The runs a life appends, with the names of their files. */
  function AppendedRuns(ops: seq<Op>): seq<Run> {
    if ops == [] then []
    else
      var op := ops[|ops| - 1];
      AppendedRuns(ops[..|ops| - 1]) + if op.Append? then [Run(op.report, op.name)] else []
  }

  /** Every appended file comes after the ones before it and after those found at the start. */
  ghost predicate InOrder(runs: seq<Run>, d: Dir) {
    && (forall i | 0 <= i < |runs| :: LaterThan(runs[i].file, d))
    && (forall i, j | 0 <= i < j < |runs| :: Less(runs[i].file, runs[j].file))
  }

  /** Runs at least a millisecond apart, up to year 9999, with the file names `Append` gives them. */
  ghost predicate Chronological(runs: seq<Run>) {
    && (forall i | 0 <= i < |runs| ::
          && ValidInstant(runs[i].report.generatedAt) && runs[i].report.generatedAt.year < 10000
          && runs[i].file == FileName(runs[i].report.generatedAt))
    && (forall i, j | 0 <= i < j < |runs| :: Before(runs[i].report.generatedAt, runs[j].report.generatedAt))
  }

  /** Such runs have their files in order. */
  lemma ChronologyGivesOrder(runs: seq<Run>)
    requires Chronological(runs)
    ensures InOrder(runs, map[])
  {
    forall i, j | 0 <= i < j < |runs|
      ensures Less(runs[i].file, runs[j].file)
    {
      FileNameOrder(runs[i].report.generatedAt, runs[j].report.generatedAt);
    }
  }

  ghost predicate AllWritten(ops: seq<Op>) {
    forall i | 0 <= i < |ops| && ops[i].Append? :: ops[i].write == Written
  }

  ghost function NamesOf(runs: seq<Run>): set<string> {
    set r | r in runs :: r.file
  }

  /** The store that opened `d` and was given `runs` since. */
  ghost predicate Tracks(s: OnDisk, dir: string, limit: nat, d: Dir, runs: seq<Run>) {
    && s.log == Window(dir, limit, Readable(d) + runs)
    && Recoverable(s.log, s.dir)
    && s.dir.Keys <= d.Keys + NamesOf(runs)
  }

  /** Restarts at any points, with any failing removals, leave no trace in the store: its log
      is the window of everything ever appended, and it can be rebuilt again. */
  lemma RestartsInvisible(dir: string, limit: nat, d: Dir, stuck: set<string>, ops: seq<Op>)
    requires dir != "" && limit >= 2 && AllWritten(ops) && InOrder(AppendedRuns(ops), d)
    ensures var s := Execute(Opened(dir, limit, d, stuck), ops);
            && s.log == Window(dir, limit, Readable(d) + AppendedRuns(ops))
            && Recoverable(s.log, s.dir)
  {
    ExecuteTracks(dir, limit, d, stuck, ops);
  }

  /** So a life that starts on an empty directory and reports in chronological order is, whenever it is
      restarted, the window of its runs. */
  lemma ChronologicalLifeRecovers(dir: string, limit: int, stuck: set<string>, ops: seq<Op>)
    requires dir != "" && AllWritten(ops) && Chronological(AppendedRuns(ops))
    ensures var s := Execute(Opened(dir, Clamp(limit), map[], stuck), ops);
            && s.log == Window(dir, Clamp(limit), AppendedRuns(ops))
            && Reloaded(dir, Clamp(limit), s.dir) == s.log
  {
    ChronologyGivesOrder(AppendedRuns(ops));
    RestartsInvisible(dir, Clamp(limit), map[], stuck, ops);
    assert [] + AppendedRuns(ops) == AppendedRuns(ops);
  }

  lemma {:induction false} ExecuteTracks(dir: string, limit: nat, d: Dir, stuck: set<string>, ops: seq<Op>)
    requires dir != "" && limit >= 2 && AllWritten(ops) && InOrder(AppendedRuns(ops), d)
    ensures Tracks(Execute(Opened(dir, limit, d, stuck), ops), dir, limit, d, AppendedRuns(ops))
  {
    if ops == [] {
      ReopenStable(dir, limit, d, stuck);
      assert Readable(d) + [] == Readable(d);
    } else {
      var init, op := ops[..|ops| - 1], ops[|ops| - 1];
      assert forall i | 0 <= i < |init| :: init[i] == ops[i];
      assert forall i | 0 <= i < |AppendedRuns(init)| :: AppendedRuns(init)[i] == AppendedRuns(ops)[i];
      ExecuteTracks(dir, limit, d, stuck, init);
      StepTracks(Execute(Opened(dir, limit, d, stuck), init), dir, limit, d, AppendedRuns(init), op);
    }
  }

  lemma StepTracks(s: OnDisk, dir: string, limit: nat, d: Dir, runs: seq<Run>, op: Op)
    requires Tracks(s, dir, limit, d, runs)
    requires op.Append? ==> op.write == Written && InOrder(runs + [Run(op.report, op.name)], d)
    ensures Tracks(Step(s, op), dir, limit, d, runs + if op.Append? then [Run(op.report, op.name)] else [])
  {
    if op.Append? {
      AppendTracks(s, dir, limit, d, runs, Run(op.report, op.name), op.stuck);
    } else {
      ReopenStable(dir, limit, s.dir, op.stuck);
      assert runs + [] == runs;
    }
  }

  lemma AppendTracks(s: OnDisk, dir: string, limit: nat, d: Dir, runs: seq<Run>, run: Run, stuck: set<string>)
    requires Tracks(s, dir, limit, d, runs) && InOrder(runs + [run], d)
    ensures Tracks(Step(s, Append(run.report, run.file, Written, stuck)), dir, limit, d, runs + [run])
  {
    NextIsLater(runs, run, d, s.dir);
    AppendRecoverable(s.log, s.dir, run.report, run.file, stuck);
    PushRefinesAppend(dir, limit, Readable(d) + runs, run.report, run.file);
    Regroup(Readable(d), runs, [run]);
  }

  lemma NextIsLater(runs: seq<Run>, run: Run, d: Dir, now: Dir)
    requires InOrder(runs + [run], d) && now.Keys <= d.Keys + NamesOf(runs)
    ensures LaterThan(run.file, now)
  {
    var all := runs + [run];
    assert all[|runs|] == run;
    forall n | n in now.Keys
      ensures Less(n, run.file)
    {
      if n !in d.Keys {
        var i :| 0 <= i < |runs| && runs[i].file == n;
        assert all[i] == runs[i];
      }
    }
  }

  /** An interrupted process therefore reports the same diff as one that was never stopped. */
  lemma RestartsKeepTheDiff(dir: string, limit: nat, d: Dir, stuck: set<string>, ops: seq<Op>, plain: seq<Op>)
    requires dir != "" && limit >= 2 && AllWritten(ops) && AllWritten(plain)
    requires AppendedRuns(ops) == AppendedRuns(plain) && InOrder(AppendedRuns(ops), d)
    ensures LastDiff(Execute(Opened(dir, limit, d, stuck), ops).log)
         == LastDiff(Execute(Opened(dir, limit, d, {}), plain).log)
  {
    RestartsInvisible(dir, limit, d, stuck, ops);
    RestartsInvisible(dir, limit, d, {}, plain);
  }

  // Appends with arbitrary outcomes, no restart.

  ghost predicate OnlyAppends(ops: seq<Op>) {
    forall i | 0 <= i < |ops| :: ops[i].Append?
  }

  ghost function RunsOf(dir: string, ops: seq<Op>): seq<Run>
    requires OnlyAppends(ops)
  {
    seq(|ops|, i requires 0 <= i < |ops| => Run(ops[i].report, FileFor(dir, ops[i].name, ops[i].write)))
  }

  lemma StepPushes(dir: string, limit: nat, runs: seq<Run>, d: Dir, op: Op)
    requires op.Append?
    ensures Step(OnDisk(Window(dir, limit, runs), d), op).log
         == Window(dir, limit, runs + [Run(op.report, FileFor(dir, op.name, op.write))])
  {
    PushRefinesAppend(dir, limit, runs, op.report, FileFor(dir, op.name, op.write));
  }

  lemma RunsGrow(dir: string, base: seq<Run>, ops: seq<Op>)
    requires OnlyAppends(ops) && ops != []
    ensures base + RunsOf(dir, ops)
         == base + RunsOf(dir, ops[..|ops| - 1])
            + [Run(ops[|ops| - 1].report, FileFor(dir, ops[|ops| - 1].name, ops[|ops| - 1].write))]
  {
  }

  /** Whatever the writes do, the store is the window of the unbounded log. */
  lemma {:induction false} StoreIsWindow(dir: string, limit: nat, base: seq<Run>, d: Dir, ops: seq<Op>)
    requires OnlyAppends(ops)
    ensures Execute(OnDisk(Window(dir, limit, base), d), ops).log == Window(dir, limit, base + RunsOf(dir, ops))
  {
    if ops == [] {
      assert base + RunsOf(dir, []) == base;
    } else {
      var init := ops[..|ops| - 1];
      StoreIsWindow(dir, limit, base, d, init);
      var s := Execute(OnDisk(Window(dir, limit, base), d), init);
      StepPushes(dir, limit, base + RunsOf(dir, init), s.dir, ops[|ops| - 1]);
      RunsGrow(dir, base, ops);
    }
  }

  // Which files are on disk.

  ghost predicate DistinctNames(ops: seq<Op>) {
    && (forall i | 0 <= i < |ops| :: ops[i].Append? && ops[i].name != "")
    && (forall i, j | 0 <= i < j < |ops| && ops[i].Append? && ops[j].Append? :: ops[i].name != ops[j].name)
  }

  /** Append number `i` left file `n` behind: a good write while in the window, and for good a write that
      failed after it had put something on disk. */
  ghost predicate Leaves(ops: seq<Op>, limit: nat, i: int, n: string) {
    && 0 <= i < |ops| && ops[i].Append? && n == ops[i].name
    && (ops[i].write in {Torn, Unlisted} || (ops[i].write == Written && i >= |ops| - limit))
  }

  ghost predicate DiskHolds(d: Dir, ops: seq<Op>, limit: nat) {
    && (forall n | n in d :: exists i :: Leaves(ops, limit, i, n))
    && (forall i, n | Leaves(ops, limit, i, n) ::
          n in d && d[n] == if ops[i].write == Torn then Damaged else Saved(ops[i].report))
  }

  /** The file that leaves the window when one more run is appended, if it has one. */
  ghost function Leaving(init: seq<Op>, limit: nat): set<string>
    requires limit > 0 && OnlyAppends(init)
  {
    if |init| < limit then {}
    else
      var x := init[|init| - limit];
      if x.write in {Failed, Torn, Unlisted} then {} else {x.name}
  }

  ghost predicate Exact(s: OnDisk, dir: string, limit: nat, ops: seq<Op>) {
    OnlyAppends(ops) && s.log == Window(dir, limit, RunsOf(dir, ops)) && DiskHolds(s.dir, ops, limit)
  }

  /** Starting from an empty directory, with removals that succeed and distinct names, the disk
      holds exactly the written runs still in the window, and whatever a failed write left. */
  lemma {:induction false} DiskIsExact(dir: string, limit: nat, ops: seq<Op>)
    requires dir != "" && limit > 0 && DistinctNames(ops)
    requires forall i | 0 <= i < |ops| :: ops[i].stuck == {}
    ensures Exact(Execute(OnDisk(Window(dir, limit, []), map[]), ops), dir, limit, ops)
  {
    if ops == [] {
      EmptyIsExact(dir, limit);
    } else {
      var init, op := ops[..|ops| - 1], ops[|ops| - 1];
      assert init + [op] == ops;
      DiskIsExact(dir, limit, init);
      StepExact(dir, limit, Execute(OnDisk(Window(dir, limit, []), map[]), init), init, op);
    }
  }

  lemma EmptyIsExact(dir: string, limit: nat)
    ensures Exact(OnDisk(Window(dir, limit, []), map[]), dir, limit, [])
  {
    assert RunsOf(dir, []) == [];
  }

  lemma StepExact(dir: string, limit: nat, s: OnDisk, init: seq<Op>, op: Op)
    requires dir != "" && limit > 0 && DistinctNames(init + [op]) && op.Append? && op.stuck == {}
    requires Exact(s, dir, limit, init)
    ensures Exact(Step(s, op), dir, limit, init + [op])
  {
    assert (init + [op])[..|init|] == init;
    EvictedFile(dir, init, op, limit);
    DiskStep(s.dir, init, op, limit);
    assert Leaving(init, limit) - {} == Leaving(init, limit);
    StepPushes(dir, limit, RunsOf(dir, init), s.dir, op);
    RunsGrow(dir, [], init + [op]);
    assert [] + RunsOf(dir, init + [op]) == RunsOf(dir, init + [op]);
    assert [] + RunsOf(dir, init) == RunsOf(dir, init);
  }

  lemma EvictedFile(dir: string, init: seq<Op>, op: Op, limit: nat)
    requires limit > 0 && dir != "" && OnlyAppends(init) && op.Append?
    requires forall i | 0 <= i < |init| :: init[i].name != ""
    ensures Evicted(Window(dir, limit, RunsOf(dir, init)), FileFor(dir, op.name, op.write)) == Leaving(init, limit)
  {
    var runs := RunsOf(dir, init);
    var files := FilesOf(Recent(runs, limit)) + [FileFor(dir, op.name, op.write)];
    if |init| >= limit {
      var x := init[|init| - limit];
      assert files[0] == runs[|init| - limit].file == FileFor(dir, x.name, x.write);
      assert |files| - limit == 1;
    }
  }

  lemma DiskStep(d: Dir, init: seq<Op>, op: Op, limit: nat)
    requires limit > 0 && op.Append? && DistinctNames(init + [op]) && OnlyAppends(init) && DiskHolds(d, init, limit)
    ensures DiskHolds(WrittenTo(d, op.name, op.report, op.write) - Leaving(init, limit), init + [op], limit)
  {
    var ops, d' := init + [op], WrittenTo(d, op.name, op.report, op.write) - Leaving(init, limit);
    forall i, n | Leaves(ops, limit, i, n)
      ensures n in d' && d'[n] == if ops[i].write == Torn then Damaged else Saved(ops[i].report)
    {
      LeavesSurvives(init, op, limit, i, n);
    }
    forall n | n in d'
      ensures exists i :: Leaves(ops, limit, i, n)
    {
      var i := HeldLeaves(d, init, op, limit, n);
    }
  }

  lemma HeldLeaves(d: Dir, init: seq<Op>, op: Op, limit: nat, n: string) returns (i: int)
    requires limit > 0 && DiskHolds(d, init, limit) && OnlyAppends(init) && op.Append?
    requires n in WrittenTo(d, op.name, op.report, op.write) - Leaving(init, limit)
    ensures Leaves(init + [op], limit, i, n)
  {
    if n == op.name && op.write in {Written, Torn, Unlisted} {
      i := |init|;
    } else {
      i :| Leaves(init, limit, i, n);
    }
  }

  /** What stays listed is not the file that leaves, and is not overwritten. */
  lemma LeavesSurvives(init: seq<Op>, op: Op, limit: nat, i: int, n: string)
    requires limit > 0 && DistinctNames(init + [op]) && Leaves(init + [op], limit, i, n)
    requires op.Append? && OnlyAppends(init)
    ensures n !in Leaving(init, limit)
    ensures i < |init| ==> n != op.name
  {
    NamesApart(init + [op], i, |init|);
    if |init| >= limit {
      NamesApart(init + [op], i, |init| - limit);
    }
  }

  lemma NamesApart(ops: seq<Op>, i: nat, j: nat)
    requires DistinctNames(ops) && i < |ops| && j < |ops|
    ensures i != j ==> ops[i].name != ops[j].name
  {
    if j < i {
      assert ops[j].name != ops[i].name;
    }
  }

  /** Every append whose file the store lists, and no other, has its file on disk. */
  ghost predicate LeavesAsListed(ops: seq<Op>, limit: nat) {
    forall i | 0 <= i < |ops| && ops[i].Append? ::
      && ops[i].write !in {Torn, Unlisted}
      && (ops[i].write == NotEncoded ==> i < |ops| - limit)
  }

  /** The file names a store lists. */
  ghost function ListedFiles(log: Log): set<string> {
    set n | n in log.files && n != ""
  }

  lemma ListedFrom(dir: string, limit: nat, ops: seq<Op>, n: string)
    requires dir != "" && OnlyAppends(ops)
    ensures n in ListedFiles(Window(dir, limit, RunsOf(dir, ops))) <==>
            exists i :: |ops| - limit <= i < |ops| && i >= 0 && n != ""
                        && n == ops[i].name && ops[i].write !in {Failed, Torn, Unlisted}
  {
    var runs := RunsOf(dir, ops);
    var files, lo := FilesOf(Recent(runs, limit)), if |ops| > limit then |ops| - limit else 0;
    assert |files| == |ops| - lo;
    assert forall k | 0 <= k < |files| :: files[k] == FileFor(dir, ops[lo + k].name, ops[lo + k].write);
    if n in files && n != "" {
      var k :| 0 <= k < |files| && files[k] == n;
      assert n == ops[lo + k].name && ops[lo + k].write !in {Failed, Torn, Unlisted};
    }
    if i :| lo <= i < |ops| && n != "" && n == ops[i].name && ops[i].write !in {Failed, Torn, Unlisted} {
      assert files[i - lo] == n;
    }
  }

  /** Exactly when the files on disk are the ones listed: no failed write left something behind, and no
      report in the window lacks its file because it did not encode. */
  lemma DiskNamesExactly(dir: string, limit: nat, ops: seq<Op>)
    requires dir != "" && limit > 0 && DistinctNames(ops)
    requires forall i | 0 <= i < |ops| :: ops[i].stuck == {}
    ensures var s := Execute(OnDisk(Window(dir, limit, []), map[]), ops);
            s.dir.Keys == ListedFiles(s.log) <==> LeavesAsListed(ops, limit)
  {
    DiskIsExact(dir, limit, ops);
    var s := Execute(OnDisk(Window(dir, limit, []), map[]), ops);
    assert s.log == Window(dir, limit, RunsOf(dir, ops));
    if LeavesAsListed(ops, limit) {
      NamesAsListed(dir, limit, s.dir, ops);
    } else {
      var i :| 0 <= i < |ops| && (ops[i].write in {Torn, Unlisted} || (ops[i].write == NotEncoded && i >= |ops| - limit));
      NameAstray(dir, limit, s.dir, ops, i);
    }
  }

  lemma NamesAsListed(dir: string, limit: nat, d: Dir, ops: seq<Op>)
    requires dir != "" && DistinctNames(ops) && OnlyAppends(ops) && DiskHolds(d, ops, limit)
    requires LeavesAsListed(ops, limit)
    ensures d.Keys == ListedFiles(Window(dir, limit, RunsOf(dir, ops)))
  {
    forall n
      ensures n in d.Keys <==> n in ListedFiles(Window(dir, limit, RunsOf(dir, ops)))
    {
      NameAsListed(dir, limit, d, ops, n);
    }
  }

  lemma NameAsListed(dir: string, limit: nat, d: Dir, ops: seq<Op>, n: string)
    requires dir != "" && DistinctNames(ops) && OnlyAppends(ops) && DiskHolds(d, ops, limit)
    requires LeavesAsListed(ops, limit)
    ensures n in d.Keys <==> n in ListedFiles(Window(dir, limit, RunsOf(dir, ops)))
  {
    ListedFrom(dir, limit, ops, n);
    if n in d {
      var i :| Leaves(ops, limit, i, n);
      assert ops[i].write == Written;
    }
    if i :| |ops| - limit <= i < |ops| && i >= 0 && n == ops[i].name && ops[i].write !in {Failed, Torn, Unlisted} {
      assert Leaves(ops, limit, i, n);
    }
  }

  /** One such append and the two sides differ in its name. */
  lemma NameAstray(dir: string, limit: nat, d: Dir, ops: seq<Op>, i: nat)
    requires dir != "" && DistinctNames(ops) && OnlyAppends(ops) && DiskHolds(d, ops, limit) && i < |ops|
    requires ops[i].write in {Torn, Unlisted} || (ops[i].write == NotEncoded && i >= |ops| - limit)
    ensures ops[i].name in d.Keys <==> ops[i].name !in ListedFiles(Window(dir, limit, RunsOf(dir, ops)))
  {
    var n := ops[i].name;
    ListedFrom(dir, limit, ops, n);
    forall j: nat | j < |ops| && ops[j].name == n
      ensures j == i
    {
      NamesApart(ops, i, j);
    }
    if ops[i].write in {Torn, Unlisted} {
      assert Leaves(ops, limit, i, n);
    }
  }

  // The conditions are needed.

  ghost function TwoRuns(a: Report, b: Report, first: string, second: string): seq<Op> {
    [Append(a, first, Written, {}), Append(b, second, Written, {})]
  }

  lemma TwoRunsState(dir: string, limit: nat, a: Report, b: Report, first: string, second: string)
    ensures Execute(OnDisk(Window(dir, limit, []), map[]), TwoRuns(a, b, first, second))
         == Step(Step(OnDisk(Window(dir, limit, []), map[]), Append(a, first, Written, {})),
                 Append(b, second, Written, {}))
  {
    var ops := TwoRuns(a, b, first, second);
    assert ops[..1] == [ops[0]] && ops[..1][..0] == [];
    var s0 := OnDisk(Window(dir, limit, []), map[]);
    assert Execute(s0, ops[..1]) == Step(Execute(s0, ops[..1][..0]), ops[0]);
  }

  lemma OneFileReadable(r: Report, name: string)
    ensures Readable(map[name := Saved(r)]) == [Run(r, name)]
  {
    var d: Dir := map[];
    assert LaterThan(name, d);
    ReadableGrows(d, r, name);
    assert d[name := Saved(r)] == map[name := Saved(r)];
  }

  /** Two reports of the same millisecond share a file: the store counts both, a restart finds one. */
  lemma SameMillisecondLosesRun(dir: string, limit: nat, a: Report, b: Report, name: string)
    requires dir != "" && limit >= 2
    ensures var s := Execute(OnDisk(Window(dir, limit, []), map[]), TwoRuns(a, b, name, name));
            |s.log.entries| == 2 && |Reloaded(dir, limit, s.dir).entries| == 1 && !Recoverable(s.log, s.dir)
  {
    TwoRunsState(dir, limit, a, b, name, name);
    FirstAppend(dir, limit, a, name);
    SecondAppend(dir, limit, a, b, name, name);
    assert Evicted(Window(dir, limit, [Run(a, name)]), name) == {};
    TwiceOneFile(a, b, name);
    OneFileReadable(b, name);
    OneEntry(dir, limit, b, name);
    var s := Execute(OnDisk(Window(dir, limit, []), map[]), TwoRuns(a, b, name, name));
    assert s.dir == map[name := Saved(b)];
    assert |s.log.entries| == 2;
    assert |Reloaded(dir, limit, s.dir).entries| != |s.log.entries|;
  }

  lemma TwiceOneFile(a: Report, b: Report, name: string)
    ensures map[name := Saved(a)][name := Saved(b)] - {} == map[name := Saved(b)]
  {
  }

  lemma OneEntry(dir: string, limit: nat, r: Report, name: string)
    requires limit >= 2
    ensures |Window(dir, limit, [Run(r, name)]).entries| == 1
  {
  }

  lemma SecondAppend(dir: string, limit: nat, a: Report, b: Report, first: string, second: string)
    requires dir != ""
    ensures Step(OnDisk(Window(dir, limit, [Run(a, first)]), map[first := Saved(a)]), Append(b, second, Written, {}))
         == OnDisk(Window(dir, limit, [Run(a, first), Run(b, second)]),
                   map[first := Saved(a)][second := Saved(b)] - Evicted(Window(dir, limit, [Run(a, first)]), second))
  {
    PushRefinesAppend(dir, limit, [Run(a, first)], b, second);
    assert [Run(a, first)] + [Run(b, second)] == [Run(a, first), Run(b, second)];
  }

  lemma FirstAppend(dir: string, limit: nat, r: Report, name: string)
    requires dir != "" && limit >= 1
    ensures Step(OnDisk(Window(dir, limit, []), map[]), Append(r, name, Written, {}))
         == OnDisk(Window(dir, limit, [Run(r, name)]), map[name := Saved(r)])
  {
    PushRefinesAppend(dir, limit, [], r, name);
    assert [] + [Run(r, name)] == [Run(r, name)];
    assert Evicted(Window(dir, limit, []), name) == {};
    var d: Dir := map[];
    assert d[name := Saved(r)] - {} == map[name := Saved(r)];
  }

  /** With a limit of 1, which the clamp rules out, a restart forgets the previous run. */
  lemma LimitOneForgetsPrevious(dir: string, a: Report, b: Report, first: string, second: string)
    requires dir != "" && first != "" && Less(first, second)
    ensures var s := Execute(OnDisk(Window(dir, 1, []), map[]), TwoRuns(a, b, first, second));
            s.log.prev == Some(a) && Reloaded(dir, 1, s.dir).prev == None
  {
    TwoRunsState(dir, 1, a, b, first, second);
    FirstAppend(dir, 1, a, first);
    SecondAppend(dir, 1, a, b, first, second);
    FirstEvicted(dir, a, first, second);
    SecondFileLeft(a, b, first, second);
    OneFileReadable(b, second);
  }

  lemma SecondFileLeft(a: Report, b: Report, first: string, second: string)
    requires first != second
    ensures map[first := Saved(a)][second := Saved(b)] - {first} == map[second := Saved(b)]
  {
  }

  lemma FirstEvicted(dir: string, a: Report, first: string, second: string)
    requires first != ""
    ensures Evicted(Window(dir, 1, [Run(a, first)]), second) == {first}
  {
    var log := Window(dir, 1, [Run(a, first)]);
    assert log.files == [first];
    assert log.files + [second] == [first, second];
    assert [first, second][0] == first;
  }
}
