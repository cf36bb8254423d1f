/** `ScanAll` as a protocol: any number of calls, each one registry refresh and then one goroutine
    per listed cluster behind that call's three-token semaphore, interleaved in every way. */
module FleetRuns {
  import opened Reports
  import opened HistoryLog
  import opened Fleet

  const TOKENS: nat := 3

  /** A goroutine waits for a token, scans holding it, records under the mutex, gives it back. */
  datatype Phase = Waiting | Scanning | Recorded | Done

  datatype Job = Job(name: string, phase: Phase)

  datatype Post = Post(cluster: string, findings: seq<LocatedFinding>)

  /** `crashed` is the nil dereference of a finishing scan whose cluster has no state. */
  datatype World = World(fleet: Fleet, calls: seq<seq<Job>>, crashed: bool, posts: seq<Post>)

  datatype Event =
    | Refresh(clusters: seq<Cluster>, faults: Faults)
    | Acquire(call: nat, job: nat)
    | Finish(call: nat, job: nat, attempt: Attempt)
    | Release(call: nat, job: nat)

  function Spawn(clusters: seq<Cluster>): seq<Job> {
    seq(|clusters|, i requires 0 <= i < |clusters| => Job(clusters[i].name, Waiting))
  }

  function Holding(jobs: seq<Job>): nat {
    if jobs == [] then 0
    else Holding(jobs[..|jobs| - 1]) + if jobs[|jobs| - 1].phase in {Scanning, Recorded} then 1 else 0
  }

  predicate InPhase(w: World, call: nat, job: nat, p: Phase) {
    call < |w.calls| && job < |w.calls[call]| && w.calls[call][job].phase == p
  }

  predicate Enabled(w: World, e: Event) {
    && !w.crashed
    && match e
       case Refresh(_, _) => true
       case Acquire(c, j) => InPhase(w, c, j, Waiting) && Holding(w.calls[c]) < TOKENS
       case Finish(c, j, _) => InPhase(w, c, j, Scanning)
       case Release(c, j) => InPhase(w, c, j, Recorded)
  }

  function Moved(calls: seq<seq<Job>>, c: nat, j: nat, p: Phase): seq<seq<Job>>
    requires c < |calls| && j < |calls[c]|
  {
    calls[c := calls[c][j := calls[c][j].(phase := p)]]
  }

  ghost function FinishStep(cfg: Config, w: World, c: nat, j: nat, a: Attempt): World
    requires InPhase(w, c, j, Scanning)
  {
    var n := w.calls[c][j].name;
    if n !in w.fleet.states then w.(crashed := true)
    else
      var p := Posted(cfg, w.fleet.states[n], a);
      World(Finished(w.fleet, n, a), Moved(w.calls, c, j, Recorded), false,
            w.posts + if p.Some? then [Post(n, p.value)] else [])
  }

  ghost function Step(cfg: Config, w: World, e: Event): World
    requires Enabled(w, e)
  {
    match e
    case Refresh(clusters, faults) =>
      w.(fleet := Refreshed(cfg, w.fleet, clusters, faults), calls := w.calls + [Spawn(clusters)])
    case Acquire(c, j) => w.(calls := Moved(w.calls, c, j, Scanning))
    case Finish(c, j, a) => FinishStep(cfg, w, c, j, a)
    case Release(c, j) => w.(calls := Moved(w.calls, c, j, Done))
  }

  ghost function Start(dirs: map<string, Dir>): World {
    World(Fleet(map[], [], dirs), [], false, [])
  }

  /** The world after a run; events that are not enabled are ignored, `Legal` rules them out. */
  ghost function After(cfg: Config, dirs: map<string, Dir>, trace: seq<Event>): World {
    if trace == [] then Start(dirs)
    else
      var w := After(cfg, dirs, trace[..|trace| - 1]);
      if Enabled(w, trace[|trace| - 1]) then Step(cfg, w, trace[|trace| - 1]) else w
  }

  ghost predicate Legal(cfg: Config, dirs: map<string, Dir>, trace: seq<Event>) {
    trace == [] ||
    (Legal(cfg, dirs, trace[..|trace| - 1]) && Enabled(After(cfg, dirs, trace[..|trace| - 1]), trace[|trace| - 1]))
  }

  // The registry and the states never drift apart.

  /** The names of the most recent refresh. */
  ghost function Listed(trace: seq<Event>): set<string> {
    if trace == [] then {}
    else if trace[|trace| - 1].Refresh? then Names(trace[|trace| - 1].clusters)
    else Listed(trace[..|trace| - 1])
  }

  /** In every run, whatever the interleaving, the states, the order and the latest listing
      name exactly the same clusters. */
  lemma {:induction false} RegistryInSync(cfg: Config, dirs: map<string, Dir>, trace: seq<Event>)
    ensures var f := After(cfg, dirs, trace).fleet;
            Legal(cfg, dirs, trace) ==>
              && f.states.Keys == Listed(trace)
              && forall n :: n in f.order <==> n in f.states
  {
    if trace != [] && Legal(cfg, dirs, trace) {
      var init, e := trace[..|trace| - 1], trace[|trace| - 1];
      RegistryInSync(cfg, dirs, init);
      var w := After(cfg, dirs, init);
      if e.Refresh? {
        RefreshShape(cfg, w.fleet, e.clusters, e.faults);
      }
    }
  }

  /** A finishing scan brings the process down exactly when the latest refresh no longer lists it. */
  lemma CrashExactly(cfg: Config, dirs: map<string, Dir>, trace: seq<Event>, c: nat, j: nat, a: Attempt)
    requires Legal(cfg, dirs, trace) && Enabled(After(cfg, dirs, trace), Finish(c, j, a))
    ensures After(cfg, dirs, trace + [Finish(c, j, a)]).crashed
       <==> After(cfg, dirs, trace).calls[c][j].name !in Listed(trace)
  {
    RegistryInSync(cfg, dirs, trace);
    assert (trace + [Finish(c, j, a)])[..|trace|] == trace;
  }

  ghost predicate InFlight(w: World, n: string) {
    exists c: nat, j: nat :: Unfinished(w, c, j) && w.calls[c][j].name == n
  }

  predicate Unfinished(w: World, c: nat, j: nat) {
    c < |w.calls| && j < |w.calls[c]| && w.calls[c][j].phase in {Waiting, Scanning}
  }

  /** No refresh drops a cluster whose scan is still to be recorded. */
  ghost predicate Sheltered(cfg: Config, dirs: map<string, Dir>, trace: seq<Event>) {
    trace == [] ||
    (Sheltered(cfg, dirs, trace[..|trace| - 1]) &&
     (trace[|trace| - 1].Refresh? ==> Covers(trace[|trace| - 1].clusters, After(cfg, dirs, trace[..|trace| - 1]))))
  }

  ghost predicate Covers(clusters: seq<Cluster>, w: World) {
    forall n | InFlight(w, n) :: n in Names(clusters)
  }

  lemma {:induction false} ShelteredNeverCrashes(cfg: Config, dirs: map<string, Dir>, trace: seq<Event>)
    requires Legal(cfg, dirs, trace) && Sheltered(cfg, dirs, trace)
    ensures !After(cfg, dirs, trace).crashed
    ensures forall n | InFlight(After(cfg, dirs, trace), n) :: n in Listed(trace)
  {
    if trace != [] {
      var init, e := trace[..|trace| - 1], trace[|trace| - 1];
      ShelteredNeverCrashes(cfg, dirs, init);
      RegistryInSync(cfg, dirs, init);
      var w, w' := After(cfg, dirs, init), After(cfg, dirs, trace);
      if e.Finish? {
        assert Unfinished(w, e.call, e.job);
        assert InFlight(w, w.calls[e.call][e.job].name);
      }
      forall n | InFlight(w', n)
        ensures n in Listed(trace)
      {
        FlightOrigin(cfg, w, e, n);
      }
    }
  }

  /** Whatever is in flight was in flight before the step or has just been listed. */
  lemma FlightOrigin(cfg: Config, w: World, e: Event, n: string)
    requires Enabled(w, e) && InFlight(Step(cfg, w, e), n)
    ensures InFlight(w, n) || (e.Refresh? && n in Names(e.clusters))
  {
    var w' := Step(cfg, w, e);
    var c: nat, j: nat :| Unfinished(w', c, j) && w'.calls[c][j].name == n;
    if c < |w.calls| {
      assert Unfinished(w, c, j) && w.calls[c][j].name == n;
    } else {
      assert w'.calls[c] == Spawn(e.clusters);
      assert e.clusters[j] in e.clusters;
    }
  }

  /** In particular one `ScanAll` at a time never crashes. */
  lemma {:induction false} OneAtATimeIsSheltered(cfg: Config, dirs: map<string, Dir>, trace: seq<Event>)
    requires forall i | 0 <= i < |trace| && trace[i].Refresh? ::
               forall n :: !InFlight(After(cfg, dirs, trace[..i]), n)
    ensures Sheltered(cfg, dirs, trace)
  {
    if trace != [] {
      var init := trace[..|trace| - 1];
      forall i | 0 <= i < |init| && init[i].Refresh?
        ensures forall n :: !InFlight(After(cfg, dirs, init[..i]), n)
      {
        assert init[..i] == trace[..i] && init[i] == trace[i];
      }
      OneAtATimeIsSheltered(cfg, dirs, init);
    }
  }

  /** A second `ScanAll` that no longer lists a cluster being scanned takes the process down. */
  lemma OverlapCrashes(cfg: Config, dirs: map<string, Dir>, local: Cluster, gone: Cluster, a: Attempt)
    requires local.name != gone.name
    ensures var trace := [Refresh([local, gone], Faults({}, {})), Acquire(0, 1),
                          Refresh([local], Faults({}, {})), Finish(0, 1, a)];
            Legal(cfg, dirs, trace) && After(cfg, dirs, trace).crashed
  {
    var first, second := Refresh([local, gone], Faults({}, {})), Refresh([local], Faults({}, {}));
    var trace := [first, Acquire(0, 1), second];
    OverlapPrefix(cfg, dirs, local, gone);
    CrashExactly(cfg, dirs, trace, 0, 1, a);
    RunExtends(cfg, dirs, trace, Finish(0, 1, a));
    assert trace + [Finish(0, 1, a)] == [first, Acquire(0, 1), second, Finish(0, 1, a)];
    assert Names([local]) == {local.name};
  }

  lemma OverlapPrefix(cfg: Config, dirs: map<string, Dir>, local: Cluster, gone: Cluster)
    ensures var trace := [Refresh([local, gone], Faults({}, {})), Acquire(0, 1), Refresh([local], Faults({}, {}))];
            && Legal(cfg, dirs, trace) && !After(cfg, dirs, trace).crashed
            && After(cfg, dirs, trace).calls == [[Job(local.name, Waiting), Job(gone.name, Scanning)], Spawn([local])]
  {
    var first, second := Refresh([local, gone], Faults({}, {})), Refresh([local], Faults({}, {}));
    OverlapStart(cfg, dirs, local, gone);
    RunExtends(cfg, dirs, [first, Acquire(0, 1)], second);
    assert [first, Acquire(0, 1)] + [second] == [first, Acquire(0, 1), second];
  }

  lemma BothWaiting(cfg: Config, dirs: map<string, Dir>, local: Cluster, gone: Cluster)
    ensures var trace := [Refresh([local, gone], Faults({}, {}))];
            && Legal(cfg, dirs, trace) && !After(cfg, dirs, trace).crashed
            && After(cfg, dirs, trace).calls == [Spawn([local, gone])]
  {
    RunExtends(cfg, dirs, [], Refresh([local, gone], Faults({}, {})));
    assert [] + [Refresh([local, gone], Faults({}, {}))] == [Refresh([local, gone], Faults({}, {}))];
  }

  lemma OverlapStart(cfg: Config, dirs: map<string, Dir>, local: Cluster, gone: Cluster)
    ensures var trace := [Refresh([local, gone], Faults({}, {})), Acquire(0, 1)];
            && Legal(cfg, dirs, trace) && !After(cfg, dirs, trace).crashed
            && After(cfg, dirs, trace).calls == [[Job(local.name, Waiting), Job(gone.name, Scanning)]]
  {
    var first, jobs := Refresh([local, gone], Faults({}, {})), [Job(local.name, Waiting), Job(gone.name, Waiting)];
    BothWaiting(cfg, dirs, local, gone);
    assert Spawn([local, gone]) == jobs;
    HoldingNone([local, gone]);
    RunExtends(cfg, dirs, [first], Acquire(0, 1));
    assert [first] + [Acquire(0, 1)] == [first, Acquire(0, 1)];
    assert jobs[1 := Job(gone.name, Scanning)] == [Job(local.name, Waiting), Job(gone.name, Scanning)];
  }

  lemma RunExtends(cfg: Config, dirs: map<string, Dir>, trace: seq<Event>, e: Event)
    ensures Legal(cfg, dirs, trace) && Enabled(After(cfg, dirs, trace), e) ==>
              && Legal(cfg, dirs, trace + [e])
              && After(cfg, dirs, trace + [e]) == Step(cfg, After(cfg, dirs, trace), e)
  {
    assert (trace + [e])[..|trace|] == trace;
  }

  lemma {:induction false} HoldingNone(clusters: seq<Cluster>)
    ensures Holding(Spawn(clusters)) == 0
  {
    if clusters != [] {
      HoldingNone(clusters[..|clusters| - 1]);
      assert Spawn(clusters)[..|clusters| - 1] == Spawn(clusters[..|clusters| - 1]);
    }
  }
}
