/** Histories that outlive registrations: a cluster dropped by one refresh and listed by a later one
    resumes where it stopped. */
module FleetDurability {
  import opened Ordering
  import opened Timestamps
  import opened HistoryLog
  import opened HistoryStore
  import opened Fleet
  import opened FleetRuns
  import opened FleetReplay

  /** Different names keep their histories in different directories. */
  ghost predicate Unshared(cfg: Config, names: set<string>) {
    forall m, n | m in names && n in names && m != n :: DirFor(cfg, m) != DirFor(cfg, n)
  }

  /** A report is written, under a name later than every file of the directory. */
  ghost predicate Lands(d: Dir, a: Attempt) {
    a.result.Scanned? ==> a.write == Written && LaterThan(FileName(a.result.report.generatedAt), d)
  }

  /** Directories can be made and reports land in them; removals may fail. */
  ghost predicate StepPersists(cfg: Config, w: World, e: Event) {
    match e
    case Refresh(clusters, faults) => forall n | n in Names(clusters) :: DirFor(cfg, n) !in faults.unmakeable
    case Finish(c, j, a) =>
      InPhase(w, c, j, Scanning) ==> Lands(DirAt(w.fleet.dirs, DirFor(cfg, w.calls[c][j].name)), a)
    case _ => true
  }

  ghost predicate Persistent(cfg: Config, dirs: map<string, Dir>, trace: seq<Event>) {
    trace == [] ||
    (Persistent(cfg, dirs, trace[..|trace| - 1])
     && StepPersists(cfg, After(cfg, dirs, trace[..|trace| - 1]), trace[|trace| - 1]))
  }

  ghost function EverListed(trace: seq<Event>): set<string> {
    if trace == [] then {}
    else
      var e := trace[|trace| - 1];
      EverListed(trace[..|trace| - 1]) + if e.Refresh? then Names(e.clusters) else {}
  }

  /** The run a step adds to a cluster's history. */
  ghost function RunsOfStep(w: World, e: Event, n: string): seq<Run> {
    if FinishesFor(w, e, n) && e.attempt.result.Scanned?
    then [Run(e.attempt.result.report, FileName(e.attempt.result.report.generatedAt))] else []
  }

  /** All successful scans of a cluster, over all its registrations. */
  ghost function AllRuns(cfg: Config, dirs: map<string, Dir>, trace: seq<Event>, n: string): seq<Run> {
    if trace == [] then []
    else
      var init, e := trace[..|trace| - 1], trace[|trace| - 1];
      AllRuns(cfg, dirs, init, n) + RunsOfStep(After(cfg, dirs, init), e, n)
  }

  ghost function OnDisk(cfg: Config, w: World, n: string): Log {
    DirLog(cfg, w.fleet.dirs, DirFor(cfg, n))
  }

  /** The cluster's directory opens to the window of these runs, and its store, if any, shows the same. */
  ghost predicate Kept(cfg: Config, w: World, n: string, runs: seq<Run>) {
    && OnDisk(cfg, w, n) == Window(DirFor(cfg, n), Clamp(cfg.historyLimit), runs)
    && (n in w.fleet.states ==> w.fleet.states[n].log == OnDisk(cfg, w, n))
  }

  lemma {:induction false} ListedBefore(trace: seq<Event>)
    ensures Listed(trace) <= EverListed(trace)
  {
    if trace != [] {
      ListedBefore(trace[..|trace| - 1]);
    }
  }

  lemma RefreshKeeps(cfg: Config, w: World, e: Event, n: string, runs: seq<Run>)
    requires Enabled(w, e) && e.Refresh? && Kept(cfg, w, n, runs) && StepPersists(cfg, w, e)
    ensures Kept(cfg, Step(cfg, w, e), n, runs)
  {
    RefreshShape(cfg, w.fleet, e.clusters, e.faults);
    var dir, now := DirFor(cfg, n), Step(cfg, w, e).fleet;
    assert DirLog(cfg, now.dirs, dir) == DirLog(cfg, w.fleet.dirs, dir);
    if n in now.states && n !in w.fleet.states {
      assert RegisteredOn(cfg, n, w.fleet.dirs, e.faults, now.states[n]);
    }
  }

  lemma OwnFinishKeeps(cfg: Config, w: World, e: Event, n: string, runs: seq<Run>)
    requires cfg.historyDir != "" && FinishesFor(w, e, n) && Kept(cfg, w, n, runs) && StepPersists(cfg, w, e)
    ensures Kept(cfg, Step(cfg, w, e), n, runs + RunsOfStep(w, e, n))
  {
    var a, dir := e.attempt, DirFor(cfg, n);
    DirForNotEmpty(cfg, n);
    if a.result.Scanned? {
      var log, d, r := w.fleet.states[n].log, DirAt(w.fleet.dirs, dir), a.result.report;
      AppendRecoverable(log, d, r, FileName(r.generatedAt), a.stuck);
      PushRefinesAppend(dir, Clamp(cfg.historyLimit), runs, r, FileName(r.generatedAt));
    } else {
      assert runs + [] == runs;
    }
  }

  /** With directories of its own that can be made and written, in chronological order, a cluster's history
      is at all times the window of everything it ever scanned, whatever refreshes dropped it and whatever
      other clusters do; and its directory can rebuild it. */
  lemma {:induction false} HistorySurvivesDrops(cfg: Config, dirs: map<string, Dir>, trace: seq<Event>,
                                                names: set<string>, n: string)
    requires cfg.historyDir != "" && Legal(cfg, dirs, trace) && Persistent(cfg, dirs, trace)
    requires Unshared(cfg, names) && EverListed(trace) <= names && n in names
    ensures Kept(cfg, After(cfg, dirs, trace), n,
                 Readable(DirAt(dirs, DirFor(cfg, n))) + AllRuns(cfg, dirs, trace, n))
    decreases |trace|
  {
    DirForNotEmpty(cfg, n);
    var base := Readable(DirAt(dirs, DirFor(cfg, n)));
    if trace == [] {
      assert base + [] == base;
    } else {
      var init, e := trace[..|trace| - 1], trace[|trace| - 1];
      HistorySurvivesDrops(cfg, dirs, init, names, n);
      var w := After(cfg, dirs, init);
      if e.Finish? && w.calls[e.call][e.job].name in w.fleet.states {
        var m := w.calls[e.call][e.job].name;
        RegistryInSync(cfg, dirs, init);
        ListedBefore(init);
        HistorySurvivesDrops(cfg, dirs, init, names, m);
      }
      var past := AllRuns(cfg, dirs, init, n);
      StepKeeps(cfg, w, e, n, base + past);
      Regroup(base, past, RunsOfStep(w, e, n));
    }
  }

  lemma StepKeeps(cfg: Config, w: World, e: Event, n: string, runs: seq<Run>)
    requires cfg.historyDir != "" && Enabled(w, e) && StepPersists(cfg, w, e) && Kept(cfg, w, n, runs)
    requires forall m | FinishesFor(w, e, m) && m != n :: w.fleet.states[m].log.dir == DirFor(cfg, m) != DirFor(cfg, n)
    ensures Kept(cfg, Step(cfg, w, e), n, runs + RunsOfStep(w, e, n))
  {
    assert runs + [] == runs;
    match e
    case Refresh(_, _) => RefreshKeeps(cfg, w, e, n, runs);
    case Acquire(_, _) =>
    case Release(_, _) =>
    case Finish(c, j, _) =>
      var m := w.calls[c][j].name;
      if m in w.fleet.states && m == n {
        OwnFinishKeeps(cfg, w, e, n, runs);
      }
  }

  /** In every reachable world, then, a restart of the process would find each cluster's history again. */
  lemma EveryHistoryRecoverable(cfg: Config, dirs: map<string, Dir>, trace: seq<Event>, n: string)
    requires cfg.historyDir != "" && Legal(cfg, dirs, trace) && Persistent(cfg, dirs, trace)
    requires Unshared(cfg, EverListed(trace)) && n in After(cfg, dirs, trace).fleet.states
    ensures var f := After(cfg, dirs, trace).fleet;
            Recoverable(f.states[n].log, DirAt(f.dirs, f.states[n].log.dir))
  {
    RegistryInSync(cfg, dirs, trace);
    ListedBefore(trace);
    DirForNotEmpty(cfg, n);
    HistorySurvivesDrops(cfg, dirs, trace, EverListed(trace), n);
  }
}
