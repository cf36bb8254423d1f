/** When a finding is announced twice in a row: a registration that resumes an older history forgets the
    last success. */
module FleetTwice {
  import opened Reports
  import opened Timestamps
  import opened Diffs
  import opened HistoryLog
  import opened HistoryStore
  import opened Fleet
  import opened FleetRuns
  import opened FleetReplay
  import opened FleetRepeats
  import HistoryRuns

  // Exactly when.

  /** The last success of a lifetime, if it has one, has key `k`. */
  ghost predicate LifeHas(life: seq<Attempt>, k: string) {
    var m := PrevSuccess(life, |life|);
    m >= 0 ==> k in ReportKeys(life[m].result.report)
  }

  lemma {:induction false} PrevSuccessBefore(life: seq<Attempt>, a: Attempt, i: nat)
    requires i <= |life|
    ensures PrevSuccess(life + [a], i) == PrevSuccess(life, i)
  {
    if i > 0 {
      assert (life + [a])[i - 1] == life[i - 1];
      PrevSuccessBefore(life, a, i - 1);
    }
  }

  lemma LifeGrows(life: seq<Attempt>, a: Attempt, k: string)
    requires a.result.Scanned? ==> k in ReportKeys(a.result.report)
    requires a.result.Failure? ==> LifeHas(life, k)
    ensures LifeHas(life + [a], k)
  {
    assert (life + [a])[|life|] == a;
    PrevSuccessBefore(life, a, |life|);
  }

  lemma LifeNext(cfg: Config, dirs: map<string, Dir>, init: seq<Event>, e: Event, n: string, k: string)
    requires LifeHas(Lifetime(cfg, dirs, init, n), k)
    requires FinishesFor(After(cfg, dirs, init), e, n) && e.attempt.result.Scanned? ==>
               k in ReportKeys(e.attempt.result.report)
    ensures LifeHas(Lifetime(cfg, dirs, init + [e], n), k)
  {
    var life := Lifetime(cfg, dirs, init, n);
    assert (init + [e])[..|init|] == init;
    if FinishesFor(After(cfg, dirs, init), e, n) {
      LifeGrows(life, e.attempt, k);
    } else {
      assert life + [] == life;
    }
  }

  lemma {:induction false} LifeKeeps(cfg: Config, dirs: map<string, Dir>, trace: seq<Event>, t: nat, u: nat,
                                     n: string, k: string)
    requires t <= u <= |trace| && LifeHas(Lifetime(cfg, dirs, trace[..t], n), k) && Uncleared(cfg, dirs, trace, t, u, n, k)
    ensures LifeHas(Lifetime(cfg, dirs, trace[..u], n), k)
    decreases u
  {
    if t < u {
      LifeKeeps(cfg, dirs, trace, t, u - 1, n, k);
      assert !ClearsAt(cfg, dirs, trace, u - 1, n, k);
      assert trace[..u - 1] + [trace[u - 1]] == trace[..u];
      LifeNext(cfg, dirs, trace[..u - 1], trace[u - 1], n, k);
    }
  }

  lemma LifeAfterPost(cfg: Config, dirs: map<string, Dir>, trace: seq<Event>, i: nat, n: string, k: string)
    requires i < |trace| && PostsAt(cfg, dirs, trace, i, n, k)
    ensures LifeHas(Lifetime(cfg, dirs, trace[..i + 1], n), k)
  {
    var w := After(cfg, dirs, trace[..i]);
    PostedIsLast(cfg, w, trace[i], n, k);
    PostIsDiff(cfg, w.fleet.states[n], trace[i].attempt);
    assert trace[..i + 1][..i] == trace[..i];
    LifeGrows(Lifetime(cfg, dirs, trace[..i], n), trace[i].attempt, k);
  }

  lemma {:induction false} LegalPrefix(cfg: Config, dirs: map<string, Dir>, trace: seq<Event>, t: nat)
    requires t <= |trace| && Legal(cfg, dirs, trace)
    ensures Legal(cfg, dirs, trace[..t])
    decreases |trace|
  {
    if t == |trace| {
      assert trace[..t] == trace;
    } else {
      LegalPrefix(cfg, dirs, trace[..|trace| - 1], t);
      assert trace[..|trace| - 1][..t] == trace[..t];
    }
  }

  /** What is posted next about a cluster is decided by its lifetime and the history it was born with. */
  lemma PostsNext(cfg: Config, dirs: map<string, Dir>, trace: seq<Event>, n: string, a: Attempt, k: string)
    requires cfg.notifying && Legal(cfg, dirs, trace) && n in After(cfg, dirs, trace).fleet.states
    ensures var st, life := After(cfg, dirs, trace).fleet.states[n], Lifetime(cfg, dirs, trace, n);
            k in PostKeys(cfg, st, a) <==> NewlyFound(Birth(cfg, dirs, trace, n).last, life + [a], |life|, k)
  {
    var st, life := After(cfg, dirs, trace).fleet.states[n], Lifetime(cfg, dirs, trace, n);
    var born := StateIsReplay(cfg, dirs, trace, n);
    NextPost(cfg, born, life, a, k);
    PostIsDiff(cfg, st, a);
    PostIsDiff(cfg, Replay(born, life), a);
  }

  /** Scan `a` is the first success since a registration that found a report without its key `k`. */
  ghost predicate Forgotten(inherited: Option<Report>, life: seq<Attempt>, a: Attempt, k: string) {
    && a.result.Scanned? && k in ReportKeys(a.result.report) && PrevSuccess(life, |life|) < 0
    && inherited.Some? && k !in ReportKeys(inherited.value)
  }

  lemma NewlyForgotten(inherited: Option<Report>, life: seq<Attempt>, a: Attempt, k: string)
    requires LifeHas(life, k)
    ensures NewlyFound(inherited, life + [a], |life|, k) <==> Forgotten(inherited, life, a, k)
  {
    PrevSuccessBefore(life, a, |life|);
    assert (life + [a])[|life|] == a;
    var m := PrevSuccess(life, |life|);
    assert m >= 0 ==> (life + [a])[m] == life[m];
  }

  /** After a post of `k` that nothing cleared since, a finishing scan posts `k` again exactly when it is the
      first success since a registration whose history ended with a report without `k`. */
  lemma RepeatsExactly(cfg: Config, dirs: map<string, Dir>, trace: seq<Event>, i: nat, j: nat, n: string, k: string)
    requires cfg.notifying && Legal(cfg, dirs, trace) && i < j < |trace|
    requires PostsAt(cfg, dirs, trace, i, n, k) && Uncleared(cfg, dirs, trace, i + 1, j, n, k)
    requires FinishesFor(After(cfg, dirs, trace[..j]), trace[j], n)
    ensures PostsAt(cfg, dirs, trace, j, n, k) <==>
            Forgotten(Birth(cfg, dirs, trace[..j], n).last, Lifetime(cfg, dirs, trace[..j], n), trace[j].attempt, k)
  {
    LifeAfterPost(cfg, dirs, trace, i, n, k);
    LifeKeeps(cfg, dirs, trace, i + 1, j, n, k);
    LegalPrefix(cfg, dirs, trace, j);
    PostsNext(cfg, dirs, trace[..j], n, trace[j].attempt, k);
    NewlyForgotten(Birth(cfg, dirs, trace[..j], n).last, Lifetime(cfg, dirs, trace[..j], n), trace[j].attempt, k);
  }

  // One such run.

  const NONE := Faults({}, {})

  /** A refresh that lists one cluster, whose scan then holds a token. */
  ghost function Held(trace: seq<Event>, calls: nat, c: Cluster): seq<Event> {
    trace + [Refresh([c], NONE)] + [Acquire(calls, 0)]
  }

  lemma HeldSteps(cfg: Config, w: World, c: Cluster)
    requires !w.crashed
    ensures var listed, acquire := Step(cfg, w, Refresh([c], NONE)), Acquire(|w.calls|, 0);
            && Enabled(listed, acquire)
            && Step(cfg, listed, acquire)
            == World(Refreshed(cfg, w.fleet, [c], NONE), w.calls + [[Job(c.name, Scanning)]], false, w.posts)
  {
    HoldingNone([c]);
    assert Spawn([c]) == [Job(c.name, Waiting)];
    TokenTaken(w.calls, c.name);
  }

  lemma TokenTaken(calls: seq<seq<Job>>, n: string)
    ensures Moved(calls + [[Job(n, Waiting)]], |calls|, 0, Scanning) == calls + [[Job(n, Scanning)]]
  {
    assert [Job(n, Waiting)][0 := Job(n, Scanning)] == [Job(n, Scanning)];
  }

  lemma HeldRuns(cfg: Config, dirs: map<string, Dir>, trace: seq<Event>, c: Cluster)
    requires Legal(cfg, dirs, trace) && !After(cfg, dirs, trace).crashed
    ensures var w := After(cfg, dirs, trace);
            && Legal(cfg, dirs, Held(trace, |w.calls|, c))
            && After(cfg, dirs, Held(trace, |w.calls|, c))
            == World(Refreshed(cfg, w.fleet, [c], NONE), w.calls + [[Job(c.name, Scanning)]], false, w.posts)
  {
    var w := After(cfg, dirs, trace);
    HeldSteps(cfg, w, c);
    RunExtends(cfg, dirs, trace, Refresh([c], NONE));
    RunExtends(cfg, dirs, trace + [Refresh([c], NONE)], Acquire(|w.calls|, 0));
  }

  /** A refresh that registers the cluster opens what its directory holds. */
  lemma ReopenedWith(cfg: Config, f: Fleet, c: Cluster)
    requires c.name !in f.states
    ensures var g := Refreshed(cfg, f, [c], NONE);
            && c.name in g.states && g.states[c.name].log == DirLog(cfg, f.dirs, DirFor(cfg, c.name))
            && SameLogs(cfg, f.dirs, g.dirs)
  {
    RefreshShape(cfg, f, [c], NONE);
    assert c in [c];
    assert RegisteredOn(cfg, c.name, f.dirs, NONE, Refreshed(cfg, f, [c], NONE).states[c.name]);
  }

  /** The scan that holds the token of call `calls` finishes next, on a history that ends with report `r`. */
  ghost predicate Ready(cfg: Config, w: World, calls: nat, n: string, r: Report) {
    && InPhase(w, calls, 0, Scanning) && !w.crashed && w.calls[calls][0].name == n && n in w.fleet.states
    && w.fleet.states[n].log.last == Some(r)
  }

  lemma HeldReady(cfg: Config, dirs: map<string, Dir>, trace: seq<Event>, calls: nat, c: Cluster, r: Report)
    requires Legal(cfg, dirs, trace) && !After(cfg, dirs, trace).crashed && |After(cfg, dirs, trace).calls| == calls
    requires c.name !in After(cfg, dirs, trace).fleet.states
    requires DirLog(cfg, After(cfg, dirs, trace).fleet.dirs, DirFor(cfg, c.name)).last == Some(r)
    ensures Legal(cfg, dirs, Held(trace, calls, c))
    ensures Ready(cfg, After(cfg, dirs, Held(trace, calls, c)), calls, c.name, r)
    ensures var w, f := After(cfg, dirs, Held(trace, calls, c)), After(cfg, dirs, trace).fleet;
            && |w.calls| == calls + 1
            && w.fleet.states[c.name].log == DirLog(cfg, f.dirs, DirFor(cfg, c.name))
            && DirLog(cfg, w.fleet.dirs, DirFor(cfg, c.name)) == DirLog(cfg, f.dirs, DirFor(cfg, c.name))
  {
    var f := After(cfg, dirs, trace).fleet;
    HeldRuns(cfg, dirs, trace, c);
    ReopenedWith(cfg, f, c);
    assert DirLog(cfg, Refreshed(cfg, f, [c], NONE).dirs, DirFor(cfg, c.name)) == DirLog(cfg, f.dirs, DirFor(cfg, c.name));
  }

  lemma OpensOnOne(cfg: Config, dirs: map<string, Dir>, n: string, file: string, r0: Report)
    requires cfg.historyDir != "" && dirs == map[DirFor(cfg, n) := map[file := Saved(r0)]]
    ensures DirLog(cfg, dirs, DirFor(cfg, n)) == Window(DirFor(cfg, n), Clamp(cfg.historyLimit), [Run(r0, file)])
    ensures DirLog(cfg, dirs, DirFor(cfg, n)).last == Some(r0)
  {
    DirForNotEmpty(cfg, n);
    HistoryRuns.OneFileReadable(r0, file);
  }

  /** A scan whose report is not written leaves what the directory opens to. */
  lemma FailedScan(cfg: Config, w: World, n: string, file: string, r0: Report, a: Attempt)
    requires Ready(cfg, w, 0, n, r0) && |w.calls| == 1 && DirFor(cfg, n) != ""
    requires w.fleet.states[n].log == Window(DirFor(cfg, n), Clamp(cfg.historyLimit), [Run(r0, file)])
    requires DirLog(cfg, w.fleet.dirs, DirFor(cfg, n)).last == Some(r0)
    requires a.result.Scanned? && a.write == Failed
    ensures var next := Step(cfg, w, Finish(0, 0, a));
            && !next.crashed && |next.calls| == 1 && DirLog(cfg, next.fleet.dirs, DirFor(cfg, n)).last == Some(r0)
  {
    NothingEvicted(w.fleet.states[n].log, "", DirAt(w.fleet.dirs, DirFor(cfg, n)), a.stuck);
  }

  ghost function FirstScan(c: Cluster, a: Attempt): seq<Event> {
    Held([], 0, c) + [Finish(0, 0, a)]
  }

  /** The first scan reads the old report and leaves the directory as it was. */
  lemma FirstScanRuns(cfg: Config, dirs: map<string, Dir>, c: Cluster, file: string, r0: Report, a: Attempt)
    requires cfg.historyDir != "" && dirs == map[DirFor(cfg, c.name) := map[file := Saved(r0)]]
    requires a.result.Scanned? && a.write == Failed
    ensures Ready(cfg, After(cfg, dirs, Held([], 0, c)), 0, c.name, r0)
    ensures var w := After(cfg, dirs, FirstScan(c, a));
            && Legal(cfg, dirs, FirstScan(c, a)) && !w.crashed && |w.calls| == 1
            && DirLog(cfg, w.fleet.dirs, DirFor(cfg, c.name)).last == Some(r0)
  {
    DirForNotEmpty(cfg, c.name);
    FirstHeld(cfg, dirs, c, file, r0);
    FailedScan(cfg, After(cfg, dirs, Held([], 0, c)), c.name, file, r0, a);
    RunExtends(cfg, dirs, Held([], 0, c), Finish(0, 0, a));
  }

  lemma FirstHeld(cfg: Config, dirs: map<string, Dir>, c: Cluster, file: string, r0: Report)
    requires cfg.historyDir != "" && dirs == map[DirFor(cfg, c.name) := map[file := Saved(r0)]]
    ensures Legal(cfg, dirs, Held([], 0, c))
    ensures var w := After(cfg, dirs, Held([], 0, c));
            && Ready(cfg, w, 0, c.name, r0) && |w.calls| == 1
            && w.fleet.states[c.name].log == Window(DirFor(cfg, c.name), Clamp(cfg.historyLimit), [Run(r0, file)])
            && DirLog(cfg, w.fleet.dirs, DirFor(cfg, c.name)).last == Some(r0)
  {
    OpensOnOne(cfg, dirs, c.name, file, r0);
    assert After(cfg, dirs, []) == Start(dirs);
    HeldReady(cfg, dirs, [], 0, c, r0);
  }

  ghost function Dropped(c: Cluster, a: Attempt): seq<Event> {
    FirstScan(c, a) + [Refresh([], NONE)]
  }

  lemma DroppedRuns(cfg: Config, dirs: map<string, Dir>, c: Cluster, file: string, r0: Report, a: Attempt)
    requires cfg.historyDir != "" && dirs == map[DirFor(cfg, c.name) := map[file := Saved(r0)]]
    requires a.result.Scanned? && a.write == Failed
    ensures Legal(cfg, dirs, Held(Dropped(c, a), 2, c))
    ensures Ready(cfg, After(cfg, dirs, Held(Dropped(c, a), 2, c)), 2, c.name, r0)
  {
    var w := After(cfg, dirs, FirstScan(c, a));
    FirstScanRuns(cfg, dirs, c, file, r0, a);
    RunExtends(cfg, dirs, FirstScan(c, a), Refresh([], NONE));
    RefreshShape(cfg, w.fleet, [], NONE);
    assert DirLog(cfg, Refreshed(cfg, w.fleet, [], NONE).dirs, DirFor(cfg, c.name))
        == DirLog(cfg, w.fleet.dirs, DirFor(cfg, c.name));
    HeldReady(cfg, dirs, Dropped(c, a), 2, c, r0);
  }

  ghost function RepeatRun(c: Cluster, a: Attempt): seq<Event> {
    Held(Dropped(c, a), 2, c) + [Finish(2, 0, a)]
  }

  lemma RepeatRunParts(c: Cluster, a: Attempt)
    ensures var trace := RepeatRun(c, a);
            && |trace| == 7 && trace[..2] == Held([], 0, c) && trace[..6] == Held(Dropped(c, a), 2, c)
            && trace[2] == Finish(0, 0, a) && trace[6] == Finish(2, 0, a)
            && !trace[3].Finish? && !trace[4].Finish? && !trace[5].Finish?
  {
  }

  lemma PostsThen(cfg: Config, dirs: map<string, Dir>, trace: seq<Event>, i: nat, calls: nat, n: string, a: Attempt,
                  r0: Report, k: string)
    requires i < |trace| && trace[i] == Finish(calls, 0, a) && Ready(cfg, After(cfg, dirs, trace[..i]), calls, n, r0)
    requires cfg.notifying && a.result.Scanned? && k in ReportKeys(a.result.report) && k !in ReportKeys(r0)
    ensures PostsAt(cfg, dirs, trace, i, n, k)
  {
    PostIsDiff(cfg, After(cfg, dirs, trace[..i]).fleet.states[n], a);
  }

  lemma NoFinishClears(cfg: Config, dirs: map<string, Dir>, trace: seq<Event>, t: nat, u: nat, n: string, k: string)
    requires u <= |trace| && forall m | t <= m < u :: !trace[m].Finish?
    ensures Uncleared(cfg, dirs, trace, t, u, n, k)
  {
  }

  lemma TwoPosts(cfg: Config, dirs: map<string, Dir>, trace: seq<Event>, n: string, a: Attempt, r0: Report, k: string)
    requires |trace| == 7 && trace[2] == Finish(0, 0, a) && trace[6] == Finish(2, 0, a)
    requires !trace[3].Finish? && !trace[4].Finish? && !trace[5].Finish?
    requires Ready(cfg, After(cfg, dirs, trace[..2]), 0, n, r0) && Ready(cfg, After(cfg, dirs, trace[..6]), 2, n, r0)
    requires cfg.notifying && a.result.Scanned? && k in ReportKeys(a.result.report) && k !in ReportKeys(r0)
    ensures PostsAt(cfg, dirs, trace, 2, n, k) && PostsAt(cfg, dirs, trace, 6, n, k)
    ensures Uncleared(cfg, dirs, trace, 3, 6, n, k)
  {
    PostsThen(cfg, dirs, trace, 2, 0, n, a, r0, k);
    PostsThen(cfg, dirs, trace, 6, 2, n, a, r0, k);
    NoFinishClears(cfg, dirs, trace, 3, 6, n, k);
  }

  lemma RepeatRunLegal(cfg: Config, dirs: map<string, Dir>, c: Cluster, file: string, r0: Report, a: Attempt)
    requires cfg.historyDir != "" && dirs == map[DirFor(cfg, c.name) := map[file := Saved(r0)]]
    requires a.result.Scanned? && a.write == Failed
    ensures Legal(cfg, dirs, RepeatRun(c, a))
  {
    DroppedRuns(cfg, dirs, c, file, r0, a);
    RunExtends(cfg, dirs, Held(Dropped(c, a), 2, c), Finish(2, 0, a));
  }

  /** A report whose write fails is on no disk: when its cluster is dropped and listed again, the history
      resumes before it, and its findings are announced once more although every scan had them. */
  lemma FailedWriteRepeats(cfg: Config, c: Cluster, file: string, r0: Report, r1: Report, at: Instant, k: string)
    requires cfg.notifying && cfg.historyDir != ""
    requires k in ReportKeys(r1) && k !in ReportKeys(r0)
    ensures var dirs := map[DirFor(cfg, c.name) := map[file := Saved(r0)]];
            var trace := RepeatRun(c, Attempt(at, 0, Scanned(r1), Failed, {}));
            && |trace| == 7 && Legal(cfg, dirs, trace)
            && PostsAt(cfg, dirs, trace, 2, c.name, k) && PostsAt(cfg, dirs, trace, 6, c.name, k)
            && Uncleared(cfg, dirs, trace, 3, 6, c.name, k)
  {
    var dirs := map[DirFor(cfg, c.name) := map[file := Saved(r0)]];
    var a := Attempt(at, 0, Scanned(r1), Failed, {});
    RepeatRunLegal(cfg, dirs, c, file, r0, a);
    FirstScanRuns(cfg, dirs, c, file, r0, a);
    DroppedRuns(cfg, dirs, c, file, r0, a);
    RepeatRunParts(c, a);
    TwoPosts(cfg, dirs, RepeatRun(c, a), c.name, a, r0, k);
  }
}
