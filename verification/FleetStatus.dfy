/** What the fleet API tells about a cluster after any run, in terms of its listing and its own scans. */
module FleetStatus {
  import opened Reports
  import opened Timestamps
  import opened HistoryLog
  import opened Fleet
  import opened FleetRuns
  import opened FleetReplay

  /** What the fleet API exposes for one cluster. */
  datatype Status = Status(name: string, server: string, lastScan: Option<Instant>, lastDuration: nat,
                           scans: nat, scanErrors: nat, error: string, summary: Option<Summary>)

  /** The status of cluster `n` whose state is `st`. */
  predicate Describes(s: Status, n: string, st: State) {
    && s.name == n && s.server == st.cluster.server
    && s.lastScan == st.lastScan && s.lastDuration == st.lastDuration
    && s.scans == st.scans && s.scanErrors == st.scanErrors
    && s.error == (if st.lastErr.Some? then st.lastErr.value else "")
    && s.summary == (if st.report.Some? then Some(st.report.value.summary) else None)
  }

  // The last scan.

  lemma {:induction false} ReplayEnds(st: State, attempts: seq<Attempt>)
    ensures attempts == [] ==> Replay(st, attempts) == st
    ensures attempts != [] ==>
              var now, last := Replay(st, attempts), attempts[|attempts| - 1];
              && now.lastScan == Some(last.at) && now.lastDuration == last.took
              && now.lastErr == if last.result.Failure? then Some(last.result.error) else None
  {
  }

  /** Time, duration and error are those of the cluster's last finished scan since registration: a failure
      leaves its error, a success clears it; before the first scan there is none of the three. */
  lemma LastScanIsKept(cfg: Config, dirs: map<string, Dir>, trace: seq<Event>, n: string)
    requires Legal(cfg, dirs, trace) && n in After(cfg, dirs, trace).fleet.states
    ensures var st, life := After(cfg, dirs, trace).fleet.states[n], Lifetime(cfg, dirs, trace, n);
            && (life == [] ==> st.lastScan == None && st.lastDuration == 0 && st.lastErr == None)
            && (life != [] ==>
                  var last := life[|life| - 1];
                  && st.lastScan == Some(last.at) && st.lastDuration == last.took
                  && st.lastErr == if last.result.Failure? then Some(last.result.error) else None)
  {
    var born := StateIsReplay(cfg, dirs, trace, n);
    ReplayEnds(born, Lifetime(cfg, dirs, trace, n));
  }

  // The connection details.

  /** `c` is the last of the clusters called `n`. */
  ghost predicate LastNamed(clusters: seq<Cluster>, n: string, c: Cluster) {
    exists i: nat :: i < |clusters| && clusters[i] == c && c.name == n
                     && forall j | i < j < |clusters| :: clusters[j].name != n
  }

  lemma LastNamedNext(clusters: seq<Cluster>, n: string, c: Cluster, x: Cluster)
    ensures x.name == n ==> LastNamed(clusters + [x], n, x)
    ensures x.name != n && LastNamed(clusters, n, c) ==> LastNamed(clusters + [x], n, c)
  {
    var all := clusters + [x];
    assert all[|clusters|] == x;
    if x.name != n && LastNamed(clusters, n, c) {
      var i: nat :| i < |clusters| && clusters[i] == c && c.name == n
                    && forall j | i < j < |clusters| :: clusters[j].name != n;
      assert all[i] == c && forall j | i < j < |all| :: all[j].name != n;
    }
  }

  lemma {:induction false} RegisteredConnects(cfg: Config, f: Fleet, clusters: seq<Cluster>, faults: Faults, n: string)
    requires n in Names(clusters)
    ensures var g := RegisteredAll(cfg, f, clusters, faults);
            n in g.states && LastNamed(clusters, n, g.states[n].cluster)
  {
    var init, c := clusters[..|clusters| - 1], clusters[|clusters| - 1];
    assert init + [c] == clusters;
    NamesGrow(init, c);
    var before := RegisteredAll(cfg, f, init, faults);
    if n in Names(init) {
      RegisteredConnects(cfg, f, init, faults, n);
      LastNamedNext(init, n, before.states[n].cluster, c);
    } else {
      LastNamedNext(init, n, c, c);
    }
  }

  /** The clusters of the most recent refresh. */
  ghost function LatestListing(trace: seq<Event>): seq<Cluster> {
    if trace == [] then []
    else if trace[|trace| - 1].Refresh? then trace[|trace| - 1].clusters
    else LatestListing(trace[..|trace| - 1])
  }

  lemma {:induction false} ListedIsListing(trace: seq<Event>)
    ensures Listed(trace) == Names(LatestListing(trace))
  {
    if trace != [] {
      ListedIsListing(trace[..|trace| - 1]);
    }
  }

  lemma FinishKeepsConnection(cfg: Config, w: World, e: Event, n: string)
    requires Enabled(w, e) && !e.Refresh? && n in w.fleet.states
    ensures n in Step(cfg, w, e).fleet.states
    ensures Step(cfg, w, e).fleet.states[n].cluster == w.fleet.states[n].cluster
  {
    StepTouchesOne(cfg, w, e, n);
  }

  /** A registered cluster is reached with the details of the latest listing; the last entry of a name counts. */
  lemma {:induction false} ConnectionIsLatest(cfg: Config, dirs: map<string, Dir>, trace: seq<Event>, n: string)
    requires Legal(cfg, dirs, trace) && n in After(cfg, dirs, trace).fleet.states
    ensures LastNamed(LatestListing(trace), n, After(cfg, dirs, trace).fleet.states[n].cluster)
  {
    var init, e := trace[..|trace| - 1], trace[|trace| - 1];
    var w := After(cfg, dirs, init);
    if e.Refresh? {
      RefreshShape(cfg, w.fleet, e.clusters, e.faults);
      RegisteredConnects(cfg, Fleet(Kept(w.fleet.states, Names(e.clusters)), [], w.fleet.dirs), e.clusters, e.faults, n);
    } else {
      StepTouchesOne(cfg, w, e, n);
      ConnectionIsLatest(cfg, dirs, init, n);
      FinishKeepsConnection(cfg, w, e, n);
    }
  }

  // The whole status.

  /** The last successful report of a lifetime. */
  ghost predicate LastSuccess(life: seq<Attempt>, r: Option<Report>) {
    if r.None? then forall i | 0 <= i < |life| :: life[i].result.Failure?
    else exists i: nat :: i < |life| && life[i].result == Scanned(r.value)
                          && forall j | i < j < |life| :: life[j].result.Failure?
  }

  lemma LastSuccessNext(init: seq<Attempt>, a: Attempt, r: Option<Report>)
    requires LastSuccess(init, r)
    ensures LastSuccess(init + [a], if a.result.Scanned? then Some(a.result.report) else r)
  {
    var life := init + [a];
    assert life[|init|] == a && forall j | 0 <= j < |init| :: life[j] == init[j];
    if a.result.Failure? && r.Some? {
      var i: nat :| i < |init| && init[i].result == Scanned(r.value)
                    && forall j | i < j < |init| :: init[j].result.Failure?;
      assert life[i].result == Scanned(r.value);
    }
  }

  lemma {:induction false} SuccessesEnd(dir: string, life: seq<Attempt>)
    ensures LastSuccess(life, FromEnd(Successes(dir, life), 0))
  {
    if life != [] {
      var init, a := life[..|life| - 1], life[|life| - 1];
      assert init + [a] == life;
      SuccessesEnd(dir, init);
      LastSuccessNext(init, a, FromEnd(Successes(dir, init), 0));
      if a.result.Failure? {
        assert Successes(dir, init) + [] == Successes(dir, init);
      }
    }
  }

  /** In every run a status tells exactly: the server of the latest listing, how many scans finished since
      registration and how many of them failed, when the last one did, how long it took and with what
      error, and the summary of the last success. */
  lemma StatusIsExact(cfg: Config, dirs: map<string, Dir>, trace: seq<Event>, n: string, s: Status)
    requires Legal(cfg, dirs, trace) && n in After(cfg, dirs, trace).fleet.states
    requires Describes(s, n, After(cfg, dirs, trace).fleet.states[n])
    ensures var life := Lifetime(cfg, dirs, trace, n);
            && s.name == n && s.scans == |life| && s.scanErrors == Failures(life)
            && (exists c :: LastNamed(LatestListing(trace), n, c) && s.server == c.server)
            && (life == [] ==> s.lastScan == None && s.lastDuration == 0 && s.error == "")
            && (life != [] ==>
                  var last := life[|life| - 1];
                  && s.lastScan == Some(last.at) && s.lastDuration == last.took
                  && s.error == if last.result.Failure? then last.result.error else "")
            && exists r :: LastSuccess(life, r) && s.summary == if r.Some? then Some(r.value.summary) else None
  {
    var st := After(cfg, dirs, trace).fleet.states[n];
    LastScanIsKept(cfg, dirs, trace, n);
    ConnectionIsLatest(cfg, dirs, trace, n);
    FleetStateExact(cfg, dirs, trace, n);
    SuccessesEnd(st.log.dir, Lifetime(cfg, dirs, trace, n));
    assert LastSuccess(Lifetime(cfg, dirs, trace, n), st.report);
  }
}
