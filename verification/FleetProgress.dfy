/** Tokens, deadlock freedom and the exact number of steps of `ScanAll`; scan counting. */
module FleetProgress {
  import opened Picking
  import opened HistoryLog
  import opened Fleet
  import opened FleetRuns

  function Count(jobs: seq<Job>, n: string, phases: set<Phase>): nat {
    if jobs == [] then 0
    else
      var j := jobs[|jobs| - 1];
      Count(jobs[..|jobs| - 1], n, phases) + if j.name == n && j.phase in phases then 1 else 0
  }

  function CountAll(calls: seq<seq<Job>>, n: string, phases: set<Phase>): nat {
    if calls == [] then 0
    else CountAll(calls[..|calls| - 1], n, phases) + Count(calls[|calls| - 1], n, phases)
  }

  /** Steps a job still has to take. */
  function Left(p: Phase): nat {
    match p
    case Waiting => 3
    case Scanning => 2
    case Recorded => 1
    case Done => 0
  }

  function LeftIn(jobs: seq<Job>): nat {
    if jobs == [] then 0 else LeftIn(jobs[..|jobs| - 1]) + Left(jobs[|jobs| - 1].phase)
  }

  function LeftAll(calls: seq<seq<Job>>): nat {
    if calls == [] then 0 else LeftAll(calls[..|calls| - 1]) + LeftIn(calls[|calls| - 1])
  }

  function Bit(b: bool): nat {
    if b then 1 else 0
  }

  // One job changing phase.

  lemma {:induction false} JobMoves(jobs: seq<Job>, j: nat, p: Phase, n: string, phases: set<Phase>)
    requires j < |jobs|
    ensures var now := jobs[j := jobs[j].(phase := p)];
            && Holding(now) + Bit(jobs[j].phase in {Scanning, Recorded}) == Holding(jobs) + Bit(p in {Scanning, Recorded})
            && LeftIn(now) + Left(jobs[j].phase) == LeftIn(jobs) + Left(p)
            && Count(now, n, phases) + Bit(jobs[j].name == n && jobs[j].phase in phases)
            == Count(jobs, n, phases) + Bit(jobs[j].name == n && p in phases)
  {
    var init, now := jobs[..|jobs| - 1], jobs[j := jobs[j].(phase := p)];
    if j < |jobs| - 1 {
      JobMoves(init, j, p, n, phases);
      assert now[..|jobs| - 1] == init[j := jobs[j].(phase := p)];
    } else {
      assert now[..|jobs| - 1] == init;
    }
  }

  lemma {:induction false} CallMoves(calls: seq<seq<Job>>, c: nat, j: nat, p: Phase, n: string, phases: set<Phase>)
    requires c < |calls| && j < |calls[c]|
    ensures LeftAll(Moved(calls, c, j, p)) + Left(calls[c][j].phase) == LeftAll(calls) + Left(p)
    ensures CountAll(Moved(calls, c, j, p), n, phases) + Bit(calls[c][j].name == n && calls[c][j].phase in phases)
         == CountAll(calls, n, phases) + Bit(calls[c][j].name == n && p in phases)
  {
    var init, now := calls[..|calls| - 1], Moved(calls, c, j, p);
    if c < |calls| - 1 {
      CallMoves(init, c, j, p, n, phases);
      assert now[..|calls| - 1] == Moved(init, c, j, p);
    } else {
      JobMoves(calls[c], j, p, n, phases);
      assert now[..|calls| - 1] == init;
    }
  }

  function Mentions(clusters: seq<Cluster>, n: string): nat {
    if clusters == [] then 0
    else Mentions(clusters[..|clusters| - 1], n) + Bit(clusters[|clusters| - 1].name == n)
  }

  lemma {:induction false} SpawnedWaiting(clusters: seq<Cluster>, n: string, phases: set<Phase>)
    ensures LeftIn(Spawn(clusters)) == 3 * |clusters| && Holding(Spawn(clusters)) == 0
    ensures Count(Spawn(clusters), n, phases) == if Waiting in phases then Mentions(clusters, n) else 0
  {
    if clusters != [] {
      var init := clusters[..|clusters| - 1];
      SpawnedWaiting(init, n, phases);
      assert Spawn(clusters)[..|clusters| - 1] == Spawn(init);
    }
  }

  // Tokens.

  ghost predicate TokensKept(w: World) {
    forall c | 0 <= c < |w.calls| :: Holding(w.calls[c]) <= 3
  }

  function HoldsToken(j: Job): bool { j.phase == Scanning || j.phase == Recorded }

  /** The goroutines of a call that hold a token. */
  lemma {:induction false} HoldersExactly(jobs: seq<Job>) returns (at: seq<nat>)
    ensures Positions(jobs, HoldsToken, at) && |at| == Holding(jobs)
  {
    at := [];
    if jobs != [] {
      var init, j := jobs[..|jobs| - 1], jobs[|jobs| - 1];
      assert jobs == init + [j];
      at := HoldersExactly(init);
      PositionsGrow(init, HoldsToken, at, j);
      at := if HoldsToken(j) then at + [|init|] else at;
    }
  }

  /** A waiting goroutine can start its scan exactly while fewer than three of its call hold a token. */
  lemma StartsExactly(w: World, c: nat, j: nat) returns (at: seq<nat>)
    requires c < |w.calls| && j < |w.calls[c]|
    ensures Positions(w.calls[c], HoldsToken, at)
    ensures Enabled(w, Acquire(c, j)) <==> !w.crashed && w.calls[c][j].phase == Waiting && |at| < 3
  {
    at := HoldersExactly(w.calls[c]);
  }

  lemma StepKeepsTokens(cfg: Config, w: World, e: Event)
    requires Enabled(w, e) && TokensKept(w)
    ensures TokensKept(Step(cfg, w, e))
  {
    match e
    case Refresh(clusters, _) => SpawnedWaiting(clusters, "", {});
    case Acquire(c, j) => JobMoves(w.calls[c], j, Scanning, "", {});
    case Finish(c, j, _) => JobMoves(w.calls[c], j, Recorded, "", {});
    case Release(c, j) => JobMoves(w.calls[c], j, Done, "", {});
  }

  /** No call ever has more than three scans holding a token. */
  lemma {:induction false} AtMostThreeScans(cfg: Config, dirs: map<string, Dir>, trace: seq<Event>)
    ensures TokensKept(After(cfg, dirs, trace))
  {
    if trace != [] {
      var init, e := trace[..|trace| - 1], trace[|trace| - 1];
      AtMostThreeScans(cfg, dirs, init);
      if Enabled(After(cfg, dirs, init), e) {
        StepKeepsTokens(cfg, After(cfg, dirs, init), e);
      }
    }
  }

  // Progress.

  /** Every step of a goroutine takes exactly one unit off the work left, unless it crashes;
      a refresh adds three per listed cluster. */
  lemma StepCost(cfg: Config, w: World, e: Event)
    requires Enabled(w, e)
    ensures e.Refresh? ==> LeftAll(Step(cfg, w, e).calls) == LeftAll(w.calls) + 3 * |e.clusters|
    ensures !e.Refresh? && !Step(cfg, w, e).crashed ==> LeftAll(Step(cfg, w, e).calls) + 1 == LeftAll(w.calls)
  {
    match e
    case Refresh(clusters, _) =>
      SpawnedWaiting(clusters, "", {});
      assert (w.calls + [Spawn(clusters)])[..|w.calls|] == w.calls;
    case Acquire(c, j) => CallMoves(w.calls, c, j, Scanning, "", {});
    case Finish(c, j, _) => CallMoves(w.calls, c, j, Recorded, "", {});
    case Release(c, j) => CallMoves(w.calls, c, j, Done, "", {});
  }

  function Goroutines(trace: seq<Event>): nat {
    if trace == [] then 0
    else Goroutines(trace[..|trace| - 1]) + if trace[|trace| - 1].Refresh? then |trace[|trace| - 1].clusters| else 0
  }

  function GoroutineSteps(trace: seq<Event>): nat {
    if trace == [] then 0
    else GoroutineSteps(trace[..|trace| - 1]) + Bit(!trace[|trace| - 1].Refresh?)
  }

  /** The steps taken and the steps left always add up to three per goroutine, so no run is longer
      and a run is complete exactly when it has taken them all. */
  lemma {:induction false} StepsAddUp(cfg: Config, dirs: map<string, Dir>, trace: seq<Event>)
    requires Legal(cfg, dirs, trace) && !After(cfg, dirs, trace).crashed
    ensures GoroutineSteps(trace) + LeftAll(After(cfg, dirs, trace).calls) == 3 * Goroutines(trace)
  {
    if trace != [] {
      var init, e := trace[..|trace| - 1], trace[|trace| - 1];
      StepsAddUp(cfg, dirs, init);
      StepCost(cfg, After(cfg, dirs, init), e);
    }
  }

  lemma {:induction false} SomeJobLeft(jobs: seq<Job>) returns (j: nat)
    requires LeftIn(jobs) > 0
    ensures j < |jobs|
    ensures jobs[j].phase != Done
    ensures jobs[j].phase == Waiting ==> Holding(jobs) == 0
  {
    var last := jobs[|jobs| - 1];
    if last.phase == Scanning || last.phase == Recorded {
      j := |jobs| - 1;
    } else if LeftIn(jobs[..|jobs| - 1]) > 0 {
      j := SomeJobLeft(jobs[..|jobs| - 1]);
    } else {
      NothingLeftNothingHeld(jobs[..|jobs| - 1]);
      j := |jobs| - 1;
    }
  }

  lemma {:induction false} NothingLeftNothingHeld(jobs: seq<Job>)
    requires LeftIn(jobs) == 0
    ensures Holding(jobs) == 0
  {
    if jobs != [] {
      NothingLeftNothingHeld(jobs[..|jobs| - 1]);
    }
  }

  lemma {:induction false} SomeCallLeft(calls: seq<seq<Job>>) returns (c: nat)
    requires LeftAll(calls) > 0
    ensures c < |calls| && LeftIn(calls[c]) > 0
  {
    if LeftIn(calls[|calls| - 1]) > 0 {
      c := |calls| - 1;
    } else {
      c := SomeCallLeft(calls[..|calls| - 1]);
    }
  }

  /** While a goroutine is not done, some goroutine can take a step: `ScanAll` never deadlocks. */
  lemma NeverStuck(w: World, a: Attempt) returns (e: Event)
    requires !w.crashed && LeftAll(w.calls) > 0
    ensures !e.Refresh? && Enabled(w, e)
  {
    var c := SomeCallLeft(w.calls);
    var j := SomeJobLeft(w.calls[c]);
    match w.calls[c][j].phase
    case Waiting => e := Acquire(c, j);
    case Scanning => e := Finish(c, j, a);
    case Recorded => e := Release(c, j);
  }

  // Counting scans.

  function Spawned(trace: seq<Event>, n: string): nat {
    if trace == [] then 0
    else
      var e := trace[|trace| - 1];
      Spawned(trace[..|trace| - 1], n) + if e.Refresh? then Mentions(e.clusters, n) else 0
  }

  function Refreshes(trace: seq<Event>): nat {
    if trace == [] then 0 else Refreshes(trace[..|trace| - 1]) + Bit(trace[|trace| - 1].Refresh?)
  }

  ghost predicate AlwaysListed(trace: seq<Event>, n: string) {
    forall i | 0 <= i < |trace| && trace[i].Refresh? :: n in Names(trace[i].clusters)
  }

  const PENDING: set<Phase> := {Waiting, Scanning}

  ghost function ScansOf(w: World, n: string): nat {
    if n in w.fleet.states then w.fleet.states[n].scans else 0
  }

  lemma StepCountsScans(cfg: Config, w: World, e: Event, n: string)
    requires Enabled(w, e) && !Step(cfg, w, e).crashed
    requires e.Refresh? ==> n in Names(e.clusters)
    ensures ScansOf(Step(cfg, w, e), n) + CountAll(Step(cfg, w, e).calls, n, PENDING)
         == ScansOf(w, n) + CountAll(w.calls, n, PENDING) + if e.Refresh? then Mentions(e.clusters, n) else 0
  {
    match e
    case Refresh(clusters, faults) =>
      RefreshShape(cfg, w.fleet, clusters, faults);
      SpawnedWaiting(clusters, n, PENDING);
      assert (w.calls + [Spawn(clusters)])[..|w.calls|] == w.calls;
    case Acquire(c, j) => CallMoves(w.calls, c, j, Scanning, n, PENDING);
    case Finish(c, j, a) => CallMoves(w.calls, c, j, Recorded, n, PENDING);
    case Release(c, j) => CallMoves(w.calls, c, j, Done, n, PENDING);
  }

  /** For a cluster every refresh lists, scans done and scans pending add up to the goroutines
      started for it, even when `ScanAll` calls overlap. */
  lemma {:induction false} ScansConserved(cfg: Config, dirs: map<string, Dir>, trace: seq<Event>, n: string)
    requires Legal(cfg, dirs, trace) && !After(cfg, dirs, trace).crashed && AlwaysListed(trace, n)
    ensures ScansOf(After(cfg, dirs, trace), n) + CountAll(After(cfg, dirs, trace).calls, n, PENDING) == Spawned(trace, n)
  {
    if trace != [] {
      var init, e := trace[..|trace| - 1], trace[|trace| - 1];
      assert forall i | 0 <= i < |init| :: init[i] == trace[i];
      ScansConserved(cfg, dirs, init, n);
      StepCountsScans(cfg, After(cfg, dirs, init), e, n);
    }
  }

  lemma {:induction false} MentionedOnce(clusters: seq<Cluster>, n: string)
    requires UniqueNames(clusters)
    ensures Mentions(clusters, n) == Bit(n in Names(clusters))
  {
    if clusters != [] {
      var init, c := clusters[..|clusters| - 1], clusters[|clusters| - 1];
      MentionedOnce(init, n);
      NamesGrow(init, c);
      assert init + [c] == clusters;
    }
  }

  lemma {:induction false} SpawnedOncePerRefresh(trace: seq<Event>, n: string)
    requires AlwaysListed(trace, n)
    requires forall i | 0 <= i < |trace| && trace[i].Refresh? :: UniqueNames(trace[i].clusters)
    ensures Spawned(trace, n) == Refreshes(trace)
  {
    if trace != [] {
      var init, e := trace[..|trace| - 1], trace[|trace| - 1];
      assert forall i | 0 <= i < |init| :: init[i] == trace[i];
      SpawnedOncePerRefresh(init, n);
      if e.Refresh? {
        MentionedOnce(e.clusters, n);
      }
    }
  }

  lemma {:induction false} NothingLeftNothingPending(jobs: seq<Job>, n: string)
    requires LeftIn(jobs) == 0
    ensures Count(jobs, n, PENDING) == 0
  {
    if jobs != [] {
      NothingLeftNothingPending(jobs[..|jobs| - 1], n);
    }
  }

  lemma {:induction false} NoneLeftNonePending(calls: seq<seq<Job>>, n: string)
    requires LeftAll(calls) == 0
    ensures CountAll(calls, n, PENDING) == 0
  {
    if calls != [] {
      NoneLeftNonePending(calls[..|calls| - 1], n);
      NothingLeftNothingPending(calls[|calls| - 1], n);
    }
  }

  /** After k complete `ScanAll`s a cluster that stayed registered has been scanned k times. */
  lemma ScannedOncePerScanAll(cfg: Config, dirs: map<string, Dir>, trace: seq<Event>, n: string)
    requires Legal(cfg, dirs, trace) && !After(cfg, dirs, trace).crashed && AlwaysListed(trace, n)
    requires forall i | 0 <= i < |trace| && trace[i].Refresh? :: UniqueNames(trace[i].clusters)
    requires LeftAll(After(cfg, dirs, trace).calls) == 0
    ensures ScansOf(After(cfg, dirs, trace), n) == Refreshes(trace)
  {
    ScansConserved(cfg, dirs, trace, n);
    SpawnedOncePerRefresh(trace, n);
    NoneLeftNonePending(After(cfg, dirs, trace).calls, n);
  }
}
