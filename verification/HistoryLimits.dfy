/** How much of a history is kept, in plain numbers of the requested limit. */
module HistoryLimits {
  import opened Picking
  import opened Reports
  import opened Timestamps
  import opened HistoryLog
  import opened HistoryStore
  import opened HistoryRuns
  import opened Fleet
  import opened FleetRuns
  import opened FleetReplay
  import D = FleetDurability

  /** The log shows the last of these runs and no other: as many as were requested, but two when less was. */
  ghost predicate ShowsLast(log: Log, runs: seq<Run>, requested: int) {
    var keep := if requested < 2 then 2 else requested;
    var n := if |runs| < keep then |runs| else keep;
    && |log.entries| == n && |log.files| == n
    && (forall i | 0 <= i < n ::
          var run := runs[|runs| - n + i];
          log.entries[i] == Entry(run.report.generatedAt, run.report.summary) && log.files[i] == run.file)
    && log.last == (if |runs| < 1 then None else Some(runs[|runs| - 1].report))
    && log.prev == (if |runs| < 2 then None else Some(runs[|runs| - 2].report))
  }

  lemma WindowShowsLast(dir: string, requested: int, runs: seq<Run>)
    ensures ShowsLast(Window(dir, Clamp(requested), runs), runs, requested)
  {
  }

  /** What is read back from a directory: the readable reports in the order of their names, the last ones. */
  lemma OpenedShowsLast(dir: string, requested: int, d: Dir)
    ensures ShowsLast(Reloaded(dir, Clamp(requested), d), if dir == "" then [] else Readable(d), requested)
  {
    WindowShowsLast(dir, requested, if dir == "" then [] else Readable(d));
  }

  /** A store opened on an empty directory with any requested limit and given reports in chronological order
      shows, after any restarts, the last max(limit, 2) of them. */
  lemma LifeShowsLast(dir: string, requested: int, stuck: set<string>, ops: seq<Op>)
    requires dir != "" && AllWritten(ops) && Chronological(AppendedRuns(ops))
    ensures ShowsLast(Execute(Opened(dir, Clamp(requested), map[], stuck), ops).log, AppendedRuns(ops), requested)
  {
    ChronologicalLifeRecovers(dir, requested, stuck, ops);
    WindowShowsLast(dir, requested, AppendedRuns(ops));
  }

  /** The same for a store in memory, and for any writes as long as the process lives. */
  lemma AppendsShowLast(dir: string, requested: int, d: Dir, ops: seq<Op>)
    requires OnlyAppends(ops)
    ensures ShowsLast(Execute(OnDisk(Window(dir, Clamp(requested), []), d), ops).log, RunsOf(dir, ops), requested)
  {
    StoreIsWindow(dir, Clamp(requested), [], d, ops);
    assert [] + RunsOf(dir, ops) == RunsOf(dir, ops);
    WindowShowsLast(dir, requested, RunsOf(dir, ops));
  }

  // In the fleet.

  predicate Succeeds(a: Attempt) {
    a.result.Scanned?
  }

  /** Stands where a scan adds no run. */
  const NO_RUN := Run(Report("", Instant(0, 0, 0, 0, 0, 0, 0, 0), [], [], Summary(0, 0, 0, 0, 0, 0, "")), "")

  /** The run a successful scan adds to a history in `dir`, with the file it was given. */
  function RunOf(dir: string): Attempt -> Run {
    (a: Attempt) =>
      match a.result
      case Failure(_) => NO_RUN
      case Scanned(r) => Run(r, if dir == "" || a.write in {Failed, Torn, Unlisted} then "" else FileName(r.generatedAt))
  }

  /** The runs of a history in `dir` are the successful scans, in order. */
  lemma {:induction false} SuccessesInOrder(dir: string, attempts: seq<Attempt>)
    ensures PicksAs(attempts, Succeeds, RunOf(dir), Successes(dir, attempts))
  {
    if attempts == [] {
      PicksNothing(Succeeds, RunOf(dir));
    } else {
      var init, a := attempts[..|attempts| - 1], attempts[|attempts| - 1];
      assert init + [a] == attempts;
      SuccessesInOrder(dir, init);
      PicksGrow(init, Succeeds, RunOf(dir), Successes(dir, init), a);
      assert Successes(dir, init) + [] == Successes(dir, init);
    }
  }

  /** A scan that fails, or whose cluster keeps its history in memory, leaves the disk alone; any other touches
      the directory of its own cluster and no other. */
  lemma OnlyOwnDirectory(st: State, dirs: map<string, Dir>, a: Attempt, other: string)
    ensures st.log.dir == "" || a.result.Failure? ==> DirsAfterAttempt(st, dirs, a) == dirs
    ensures other != st.log.dir ==>
              var after := DirsAfterAttempt(st, dirs, a);
              (other in after <==> other in dirs) && (other in dirs ==> after[other] == dirs[other])
  {
  }

  /** In memory a registered cluster's history shows the last max(limit, 2) of its successful scans since
      registration. */
  lemma MemoryShowsLast(cfg: Config, dirs: map<string, Dir>, trace: seq<Event>, n: string)
    requires cfg.historyDir == "" && Legal(cfg, dirs, trace) && n in After(cfg, dirs, trace).fleet.states
    ensures ShowsLast(After(cfg, dirs, trace).fleet.states[n].log,
                      Successes("", Lifetime(cfg, dirs, trace, n)), cfg.historyLimit)
  {
    var life := Lifetime(cfg, dirs, trace, n);
    var born := StateIsReplay(cfg, dirs, trace, n);
    var base := BirthRuns(cfg, born);
    ReplayIsExact(cfg, born, life, base);
    assert base + Successes("", life) == Successes("", life);
    WindowShowsLast("", cfg.historyLimit, Successes("", life));
  }

  /** On disk, where directories are unshared and reports are written in order, the last max(limit, 2) of the
      reports found at the start and of all its successful scans ever. */
  lemma PersistedShowsLast(cfg: Config, dirs: map<string, Dir>, trace: seq<Event>, names: set<string>, n: string)
    requires cfg.historyDir != "" && Legal(cfg, dirs, trace) && D.Persistent(cfg, dirs, trace)
    requires D.Unshared(cfg, names) && D.EverListed(trace) <= names && n in names
    requires n in After(cfg, dirs, trace).fleet.states
    ensures ShowsLast(After(cfg, dirs, trace).fleet.states[n].log,
                      Readable(DirAt(dirs, DirFor(cfg, n))) + D.AllRuns(cfg, dirs, trace, n), cfg.historyLimit)
  {
    D.HistorySurvivesDrops(cfg, dirs, trace, names, n);
    WindowShowsLast(DirFor(cfg, n), cfg.historyLimit,
                    Readable(DirAt(dirs, DirFor(cfg, n))) + D.AllRuns(cfg, dirs, trace, n));
  }
}
