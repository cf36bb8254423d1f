/** Exactly when a store can be rebuilt from its directory, file names colliding or not. */
module HistoryRecovery {
  import opened Ordering
  import opened HistoryLog
  import opened HistoryRuns

  /** Whatever a directory rebuilds has its files in strict order: no two runs share one. */
  lemma RecoverableIsSorted(log: Log, d: Dir)
    requires Recoverable(log, d)
    ensures StrictlySorted(log.files)
  {
    ReadableOrdered(d);
    var runs := Recent(Readable(d), log.limit);
    assert log.files == FilesOf(runs);
  }

  /** Run `l` is the last of its name, and no removal has hit that name since. */
  ghost predicate Survives(runs: seq<Run>, limit: nat, l: int) {
    && 0 <= l < |runs|
    && (forall k | l < k < |runs| :: runs[k].file != runs[l].file)
    && (forall k | 0 <= k < |runs| - limit && l - limit <= k :: runs[k].file != runs[l].file)
  }

  /** The directory holds the surviving runs and nothing else. */
  ghost predicate HoldsSurvivors(d: Dir, runs: seq<Run>, limit: nat) {
    && (forall l | Survives(runs, limit, l) :: runs[l].file in d && d[runs[l].file] == Saved(runs[l].report))
    && (forall n | n in d :: exists l :: Survives(runs, limit, l) && runs[l].file == n)
  }

  ghost predicate AllNamed(runs: seq<Run>) {
    forall i | 0 <= i < |runs| :: runs[i].file != ""
  }

  lemma EvictedRun(dir: string, limit: nat, runs: seq<Run>, name: string)
    requires limit > 0 && AllNamed(runs) && name != ""
    ensures Evicted(Window(dir, limit, runs), name) == if |runs| < limit then {} else {runs[|runs| - limit].file}
  {
    var files := FilesOf(Recent(runs, limit)) + [name];
    if |runs| >= limit {
      assert files[0] == runs[|runs| - limit].file;
    }
  }

  lemma SurvivesNext(runs: seq<Run>, limit: nat, r: Run, l: int)
    requires limit > 0
    ensures var n, all := |runs|, runs + [r];
            && (l < n ==> (Survives(all, limit, l) <==>
                  && Survives(runs, limit, l) && runs[l].file != r.file
                  && (n >= limit ==> runs[n - limit].file != runs[l].file)))
            && (Survives(all, limit, n) <==> (n >= limit ==> runs[n - limit].file != r.file))
  {
    var n, all := |runs|, runs + [r];
    assert forall k | 0 <= k < n :: all[k] == runs[k];
    assert all[n] == r;
    if 0 <= l < n && Survives(all, limit, l) {
      assert forall k | l < k < n :: all[k].file != all[l].file;
      assert forall k | 0 <= k < n - limit && l - limit <= k :: all[k].file != all[l].file;
      if n >= limit {
        assert all[n - limit].file != all[l].file;
      }
    }
    if Survives(all, limit, n) && n >= limit {
      assert all[n - limit].file != all[n].file;
    }
  }

  /** The directory after one more written run. */
  ghost function NextDir(d: Dir, runs: seq<Run>, limit: nat, r: Run): Dir
    requires limit > 0
  {
    d[r.file := Saved(r.report)] - if |runs| < limit then {} else {runs[|runs| - limit].file}
  }

  lemma NextHolds(d: Dir, runs: seq<Run>, limit: nat, r: Run, l: int)
    requires limit > 0 && HoldsSurvivors(d, runs, limit) && Survives(runs + [r], limit, l)
    ensures var all, now := runs + [r], NextDir(d, runs, limit, r);
            all[l].file in now && now[all[l].file] == Saved(all[l].report)
  {
    SurvivesNext(runs, limit, r, l);
    NextDirAt(d, runs, limit, r, (runs + [r])[l].file);
    if l < |runs| {
      assert (runs + [r])[l] == runs[l];
    } else {
      assert (runs + [r])[l] == r;
    }
  }

  lemma NextDirAt(d: Dir, runs: seq<Run>, limit: nat, r: Run, x: string)
    requires limit > 0 && (|runs| >= limit ==> x != runs[|runs| - limit].file)
    ensures x == r.file ==> x in NextDir(d, runs, limit, r) && NextDir(d, runs, limit, r)[x] == Saved(r.report)
    ensures x != r.file && x in d ==> x in NextDir(d, runs, limit, r) && NextDir(d, runs, limit, r)[x] == d[x]
  {
  }

  lemma NextHoldsOnly(d: Dir, runs: seq<Run>, limit: nat, r: Run, x: string) returns (l: int)
    requires limit > 0 && HoldsSurvivors(d, runs, limit) && x in NextDir(d, runs, limit, r)
    ensures Survives(runs + [r], limit, l) && (runs + [r])[l].file == x
  {
    if x == r.file {
      l := |runs|;
    } else {
      l :| Survives(runs, limit, l) && runs[l].file == x;
    }
    SurvivesNext(runs, limit, r, l);
  }

  lemma StepSurvivors(d: Dir, runs: seq<Run>, limit: nat, r: Run)
    requires limit > 0 && HoldsSurvivors(d, runs, limit)
    ensures HoldsSurvivors(NextDir(d, runs, limit, r), runs + [r], limit)
  {
    var all, now := runs + [r], NextDir(d, runs, limit, r);
    forall l | Survives(all, limit, l)
      ensures all[l].file in now && now[all[l].file] == Saved(all[l].report)
    {
      NextHolds(d, runs, limit, r, l);
    }
    forall x | x in now
      ensures exists l :: Survives(all, limit, l) && all[l].file == x
    {
      var l := NextHoldsOnly(d, runs, limit, r, x);
    }
  }

  /** Appends that are all written, with removals that succeed. */
  ghost predicate PlainLife(ops: seq<Op>) {
    OnlyAppends(ops) && AllWritten(ops) && forall i | 0 <= i < |ops| :: ops[i].stuck == {} && ops[i].name != ""
  }

  lemma PlainRuns(dir: string, ops: seq<Op>)
    requires dir != "" && PlainLife(ops)
    ensures AllNamed(RunsOf(dir, ops))
    ensures ops != [] ==>
              RunsOf(dir, ops) == RunsOf(dir, ops[..|ops| - 1]) + [Run(ops[|ops| - 1].report, ops[|ops| - 1].name)]
  {
  }

  lemma PlainLog(dir: string, limit: nat, ops: seq<Op>)
    requires OnlyAppends(ops)
    ensures Execute(OnDisk(Window(dir, limit, []), map[]), ops).log == Window(dir, limit, RunsOf(dir, ops))
  {
    StoreIsWindow(dir, limit, [], map[], ops);
    assert [] + RunsOf(dir, ops) == RunsOf(dir, ops);
  }

  lemma {:induction false} PlainDisk(dir: string, limit: nat, ops: seq<Op>)
    requires dir != "" && limit > 0 && PlainLife(ops)
    ensures HoldsSurvivors(Execute(OnDisk(Window(dir, limit, []), map[]), ops).dir, RunsOf(dir, ops), limit)
  {
    if ops != [] {
      var init, op := ops[..|ops| - 1], ops[|ops| - 1];
      PlainDisk(dir, limit, init);
      PlainLog(dir, limit, init);
      PlainRuns(dir, init);
      PlainRuns(dir, ops);
      PlainStep(dir, limit, Execute(OnDisk(Window(dir, limit, []), map[]), init), RunsOf(dir, init), op);
    }
  }

  lemma PlainStep(dir: string, limit: nat, s: OnDisk, runs: seq<Run>, op: Op)
    requires dir != "" && limit > 0 && AllNamed(runs) && s.log == Window(dir, limit, runs)
    requires op.Append? && op.write == Written && op.stuck == {} && op.name != ""
    requires HoldsSurvivors(s.dir, runs, limit)
    ensures HoldsSurvivors(Step(s, op).dir, runs + [Run(op.report, op.name)], limit)
  {
    EvictedRun(dir, limit, runs, op.name);
    StepSurvivors(s.dir, runs, limit, Run(op.report, op.name));
    assert Evicted(s.log, op.name) - {} == Evicted(s.log, op.name);
  }

  /** The runs in the window have their files in strict order, and none of them lost its file when an
      older run of the same name left the window after it was written. */
  ghost predicate Unclobbered(runs: seq<Run>, limit: nat) {
    && StrictlySorted(FilesOf(Recent(runs, limit)))
    && forall j, k | 0 <= k < |runs| - limit <= j < |runs| && j - limit <= k :: runs[k].file != runs[j].file
  }

  lemma WindowSurvives(runs: seq<Run>, limit: nat, j: nat)
    requires Unclobbered(runs, limit) && |runs| - limit <= j < |runs|
    ensures Survives(runs, limit, j)
  {
    var files, lo := FilesOf(Recent(runs, limit)), if |runs| > limit then |runs| - limit else 0;
    forall k | j < k < |runs|
      ensures runs[k].file != runs[j].file
    {
      assert files[j - lo] == runs[j].file && files[k - lo] == runs[k].file;
      assert Less(files[j - lo], files[k - lo]);
    }
  }

  function Start(runs: seq<Run>, limit: nat): nat {
    |runs| - |Recent(runs, limit)|
  }

  lemma WindowFile(runs: seq<Run>, limit: nat, j: nat)
    requires Start(runs, limit) <= j < |runs|
    ensures var kept := Recent(runs, limit);
            kept[j - Start(runs, limit)] == runs[j] && FilesOf(kept)[j - Start(runs, limit)] == runs[j].file
  {
  }

  lemma SurvivorOf(d: Dir, runs: seq<Run>, limit: nat, x: string) returns (l: nat)
    requires HoldsSurvivors(d, runs, limit) && x in d
    ensures Survives(runs, limit, l) && runs[l].file == x && l >= Start(runs, limit)
  {
    l :| Survives(runs, limit, l) && runs[l].file == x;
    var file := runs[l].file;
    assert forall k | 0 <= k < |runs| - limit && l - limit <= k :: runs[k].file != file;
  }

  ghost predicate WindowIntact(runs: seq<Run>, limit: nat) {
    forall j | Start(runs, limit) <= j < |runs| :: Survives(runs, limit, j)
  }

  lemma UnclobberedIsIntact(runs: seq<Run>, limit: nat)
    requires Unclobbered(runs, limit)
    ensures WindowIntact(runs, limit)
  {
    forall j | Start(runs, limit) <= j < |runs|
      ensures Survives(runs, limit, j)
    {
      WindowSurvives(runs, limit, j);
    }
  }

  lemma WindowIsDisk(d: Dir, runs: seq<Run>, limit: nat)
    requires HoldsSurvivors(d, runs, limit) && WindowIntact(runs, limit)
    ensures forall x :: x in FilesOf(Recent(runs, limit)) <==> x in d.Keys
    ensures SavedRuns(d, FilesOf(Recent(runs, limit))) == Recent(runs, limit)
  {
    var kept := Recent(runs, limit);
    forall i | 0 <= i < |kept|
      ensures kept[i].file in d && d[kept[i].file] == Saved(kept[i].report) && FilesOf(kept)[i] == kept[i].file
    {
    }
    forall x | x in d
      ensures x in FilesOf(kept)
    {
      var l := SurvivorOf(d, runs, limit, x);
      WindowFile(runs, limit, l);
    }
    SavedAsListed(d, kept);
  }

  lemma {:induction false} SavedAsListed(d: Dir, runs: seq<Run>)
    requires forall i | 0 <= i < |runs| :: runs[i].file in d && d[runs[i].file] == Saved(runs[i].report)
    ensures SavedRuns(d, FilesOf(runs)) == runs
  {
    if runs != [] {
      SavedAsListed(d, runs[..|runs| - 1]);
      assert FilesOf(runs)[..|runs| - 1] == FilesOf(runs[..|runs| - 1]);
    }
  }

  lemma WindowOfRecent(dir: string, limit: nat, runs: seq<Run>)
    requires limit >= 2
    ensures Window(dir, limit, Recent(runs, limit)) == Window(dir, limit, runs)
  {
  }

  lemma FileAt(runs: seq<Run>, limit: nat, i: nat)
    requires i < |FilesOf(Recent(runs, limit))|
    ensures Start(runs, limit) + i < |runs|
    ensures FilesOf(Recent(runs, limit))[i] == runs[Start(runs, limit) + i].file
  {
  }

  lemma RebuiltHasFile(dir: string, limit: nat, d: Dir, runs: seq<Run>, j: nat)
    requires Recoverable(Window(dir, limit, runs), d) && Start(runs, limit) <= j < |runs|
    ensures runs[j].file in d
  {
    WindowFile(runs, limit, j);
    FileAt(Readable(d), limit, j - Start(runs, limit));
    ReadableOrdered(d);
  }

  lemma RebuiltKeepsFile(dir: string, limit: nat, d: Dir, runs: seq<Run>, j: nat, k: nat)
    requires HoldsSurvivors(d, runs, limit) && Recoverable(Window(dir, limit, runs), d)
    requires k < |runs| - limit <= j < |runs| && j - limit <= k
    ensures runs[k].file != runs[j].file
  {
    RebuiltHasFile(dir, limit, d, runs, j);
    var l := SurvivorOf(d, runs, limit, runs[j].file);
    RecoverableIsSorted(Window(dir, limit, runs), d);
    SameFileSameRun(runs, limit, j, l);
  }

  lemma SameFileSameRun(runs: seq<Run>, limit: nat, j: nat, l: nat)
    requires StrictlySorted(FilesOf(Recent(runs, limit)))
    requires Start(runs, limit) <= j < |runs| && Start(runs, limit) <= l < |runs| && runs[j].file == runs[l].file
    ensures j == l
  {
    WindowFile(runs, limit, l);
    WindowFile(runs, limit, j);
  }

  lemma RebuiltIsUnclobbered(dir: string, limit: nat, d: Dir, runs: seq<Run>)
    requires HoldsSurvivors(d, runs, limit) && Recoverable(Window(dir, limit, runs), d)
    ensures Unclobbered(runs, limit)
  {
    RecoverableIsSorted(Window(dir, limit, runs), d);
    forall j, k | 0 <= k < |runs| - limit <= j < |runs| && j - limit <= k
      ensures runs[k].file != runs[j].file
    {
      RebuiltKeepsFile(dir, limit, d, runs, j, k);
    }
  }

  /** For every life of written appends, whatever their timestamps, a restart rebuilds the store exactly
      when no file of the window was overwritten, outrun or removed under it. */
  lemma RecoverableExactly(dir: string, limit: nat, ops: seq<Op>)
    requires dir != "" && limit >= 2 && PlainLife(ops)
    ensures var s := Execute(OnDisk(Window(dir, limit, []), map[]), ops);
            Recoverable(s.log, s.dir) <==> Unclobbered(RunsOf(dir, ops), limit)
  {
    PlainDisk(dir, limit, ops);
    PlainLog(dir, limit, ops);
    var s, runs := Execute(OnDisk(Window(dir, limit, []), map[]), ops), RunsOf(dir, ops);
    if Unclobbered(runs, limit) {
      UnclobberedIsIntact(runs, limit);
      WindowIsDisk(s.dir, runs, limit);
      ListingUnique(FilesOf(Recent(runs, limit)), Listing(s.dir.Keys), s.dir.Keys);
      WindowOfRecent(dir, limit, runs);
    }
    if Recoverable(s.log, s.dir) {
      RebuiltIsUnclobbered(dir, limit, s.dir, runs);
    }
  }

  /** With names that never repeat only their order matters. */
  lemma DistinctRecoverableExactly(dir: string, limit: nat, ops: seq<Op>)
    requires dir != "" && limit >= 2 && PlainLife(ops) && DistinctNames(ops)
    ensures var s := Execute(OnDisk(Window(dir, limit, []), map[]), ops);
            Recoverable(s.log, s.dir) <==> StrictlySorted(s.log.files)
  {
    RecoverableExactly(dir, limit, ops);
    PlainLog(dir, limit, ops);
    var runs := RunsOf(dir, ops);
    forall j, k | 0 <= k < |runs| - limit <= j < |runs| && j - limit <= k
      ensures runs[k].file != runs[j].file
    {
      NamesApart(ops, k, j);
    }
  }
}
