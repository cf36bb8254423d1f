/** The fleet manager: per-cluster state objects behind one mutex. Each method below is the body
    of one critical section; `FleetRuns` interleaves them. */
module FleetManager {
  import opened Reports
  import opened Timestamps
  import opened HistoryStore
  import opened Fleet
  import opened FleetStatus

  class ClusterState {
    const history: Store
    var cluster: Cluster
    var report: Option<Report>
    var lastScan: Option<Instant>
    var lastDuration: nat
    var lastErr: Option<string>
    var scans: nat
    var scanErrors: nat

    constructor (cluster: Cluster, history: Store)
      ensures this.history == history
      ensures this.cluster == cluster && report == None && lastScan == None && lastErr == None
      ensures lastDuration == scans == scanErrors == 0
    {
      this.history := history;
      this.cluster := cluster;
      report, lastScan, lastDuration, lastErr, scans, scanErrors := None, None, 0, None, 0, 0;
    }

    ghost function View(): State
      reads this, history
    {
      State(cluster, report, history.View(), lastScan, lastDuration, lastErr, scans, scanErrors)
    }

    /** What a finished scan records. */
    method Record(a: Attempt)
      requires history.Valid()
      modifies this, history, history.fs
      ensures history.Valid()
      ensures View() == AfterAttempt(old(View()), a)
      ensures history.fs.dirs == DirsAfterAttempt(old(View()), old(history.fs.dirs), a)
    {
      lastScan, lastDuration := Some(a.at), a.took;
      scans := scans + 1;
      match a.result
      case Failure(e) =>
        lastErr := Some(e);
        scanErrors := scanErrors + 1;
      case Scanned(r) =>
        lastErr := None;
        report := Some(r);
        history.Append(r, a.write, a.stuck);
    }

    /** Records a scan and returns what is to be posted about it. */
    method RecordAndCompare(a: Attempt, cfg: Config) returns (post: Option<seq<LocatedFinding>>)
      requires history.Valid()
      modifies this, history, history.fs
      ensures history.Valid()
      ensures View() == AfterAttempt(old(View()), a)
      ensures history.fs.dirs == DirsAfterAttempt(old(View()), old(history.fs.dirs), a)
      ensures post == Posted(cfg, old(View()), a)
    {
      Record(a);
      post := None;
      if a.result.Scanned? && cfg.notifying {
        post := NewFindings();
      }
    }

    /** The findings of the latest run that the one before did not have, None when there are none. */
    method NewFindings() returns (news: Option<seq<LocatedFinding>>)
      ensures news == NewIn(View().log)
    {
      var d := history.GetLastDiff();
      news := if d.Some? && |d.value.appeared| > 0 then Some(d.value.appeared) else None;
    }
  }

  method LiveNames(clusters: seq<Cluster>) returns (live: set<string>)
    ensures live == Names(clusters)
  {
    live := {};
    for i := 0 to |clusters|
      invariant live == Names(clusters[..i])
    {
      NamesGrow(clusters[..i], clusters[i]);
      assert clusters[..i] + [clusters[i]] == clusters[..i + 1];
      live := live + {clusters[i].name};
    }
    assert clusters[..|clusters|] == clusters;
  }

  class Manager {
    const cfg: Config
    const fs: FileSystem
    var states: map<string, ClusterState>
    var order: seq<string>

    /** Different names have different state objects and different stores on one file system. */
    ghost predicate Objects()
      reads this, fs, states.Values, set st | st in states.Values :: st.history
    {
      && (forall n | n in states :: states[n].history.fs == fs && states[n].history.Valid())
      && (forall m, n | m in states && n in states && m != n ::
            states[m] != states[n] && states[m].history != states[n].history)
    }

    /** Besides, every listed name has a state. */
    ghost predicate Valid()
      reads this, fs, states.Values, set st | st in states.Values :: st.history
    {
      Objects() && forall n | n in order :: n in states
    }

    ghost function StatesView(): map<string, State>
      reads `states, states.Values, set st | st in states.Values :: st.history
    {
      map n | n in states :: states[n].View()
    }

    ghost function View(): Fleet
      reads this, fs, states.Values, set st | st in states.Values :: st.history
    {
      Fleet(StatesView(), order, fs.dirs)
    }

    constructor (cfg: Config, fs: FileSystem)
      ensures Valid() && View() == Fleet(map[], [], fs.dirs)
      ensures this.cfg == cfg && this.fs == fs
    {
      this.cfg, this.fs := cfg, fs;
      states, order := map[], [];
    }

    /** The registry refresh of `ScanAll`. */
    method Refresh(clusters: seq<Cluster>, faults: Faults)
      requires Valid()
      modifies this, fs, states.Values
      ensures Valid()
      ensures View() == Refreshed(cfg, old(View()), clusters, faults)
    {
      order := [];
      var live := LiveNames(clusters);
      states := map n | n in states && n in live :: states[n];
      ghost var start := Fleet(Kept(old(StatesView()), Names(clusters)), [], old(View().dirs));
      Narrowed(live);
      assert View().states == start.states;
      for i := 0 to |clusters|
        invariant Valid()
        invariant forall st | st in states.Values :: st in old(states.Values) || fresh(st)
        invariant View() == RegisteredAll(cfg, start, clusters[..i], faults)
      {
        assert clusters[..i + 1][..i] == clusters[..i];
        Register(clusters[i], faults);
      }
      assert clusters[..|clusters|] == clusters;
      assert View() == RegisteredAll(cfg, start, clusters, faults);
    }

    /** Dropping names drops their entries. */
    twostate lemma Narrowed(live: set<string>)
      requires old(Objects()) && states == map n | n in old(states) && n in live :: old(states)[n]
      requires forall n | n in old(states) :: unchanged(old(states[n])) && unchanged(old(states[n].history))
      requires old(fs.dirs) == fs.dirs
      ensures Objects()
      ensures StatesView() == Kept(old(StatesView()), live)
    {
      forall n | n in states
        ensures states[n].View() == old(states[n].View()) && states[n].history.Valid()
      {
        Untouched(states[n]);
      }
    }

    method Register(c: Cluster, faults: Faults)
      requires Valid()
      modifies this, fs, states.Values
      ensures Valid()
      ensures forall st | st in states.Values :: st in old(states.Values) || fresh(st)
      ensures View() == Registered(cfg, old(View()), c, faults)
    {
      order := order + [c.name];
      assert StatesView() == old(StatesView());
      Place(c, faults);
    }

    /** Keeps a known cluster with its new connection details, or creates it. */
    method Place(c: Cluster, faults: Faults)
      requires Objects()
      modifies `states, fs, states.Values
      ensures Objects() && states.Keys == old(states.Keys) + {c.name}
      ensures forall st | st in states.Values :: st in old(states.Values) || fresh(st)
      ensures c.name in old(states) ==>
                && StatesView() == old(StatesView())[c.name := old(StatesView())[c.name].(cluster := c)]
                && fs.dirs == old(fs.dirs)
      ensures c.name !in old(states) ==>
                && StatesView() == old(StatesView())[c.name := NewState(cfg, c, old(fs.dirs), faults)]
                && fs.dirs == DirsAfterOpen(cfg, c, old(fs.dirs), faults)
    {
      if c.name in states {
        Reconnect(c);
      } else {
        Add(c, faults);
      }
    }

    method Reconnect(c: Cluster)
      requires Objects() && c.name in states
      modifies states[c.name]
      ensures Objects()
      ensures StatesView() == old(StatesView())[c.name := old(StatesView())[c.name].(cluster := c)]
    {
      states[c.name].cluster := c;
      OthersKept(c.name);
      assert states[c.name].View() == old(states[c.name].View()).(cluster := c);
    }

    method Add(c: Cluster, faults: Faults)
      requires Objects() && c.name !in states
      modifies `states, fs
      ensures Objects() && c.name in states && fresh(states[c.name])
      ensures states.Keys == old(states.Keys) + {c.name} && forall n | n in old(states) :: states[n] == old(states[n])
      ensures StatesView() == old(StatesView())[c.name := NewState(cfg, c, old(fs.dirs), faults)]
      ensures fs.dirs == DirsAfterOpen(cfg, c, old(fs.dirs), faults)
    {
      var st := Create(c, faults);
      states := states[c.name := st];
      Inserted(c.name, st);
    }

    /** A new state object with its own store is a new entry of the fleet. */
    twostate lemma Inserted(name: string, new st: ClusterState)
      requires old(Objects()) && name !in old(states) && states == old(states)[name := st]
      requires forall n | n in old(states) :: unchanged(old(states[n])) && unchanged(old(states[n].history))
      requires st !in old(states.Values) && st.history.fs == fs && st.history.Valid()
      requires forall n | n in old(states) :: st != old(states[n]) && st.history != old(states[n].history)
      requires old(fs.dirs).Keys <= fs.dirs.Keys
      ensures Objects()
      ensures StatesView() == old(StatesView())[name := st.View()]
    {
      OldStay(name, st);
      StillApart(name, st);
      OneMoreView(name, st);
    }

    twostate lemma OneMoreView(name: string, new st: ClusterState)
      requires name !in old(states) && states == old(states)[name := st]
      requires forall n | n in old(states) :: states[n].View() == old(states[n].View())
      ensures StatesView() == old(StatesView())[name := st.View()]
    {
    }

    twostate lemma StillApart(name: string, new st: ClusterState)
      requires name !in old(states) && states == old(states)[name := st]
      requires forall m, n | m in old(states) && n in old(states) && m != n ::
                 old(states[m]) != old(states[n]) && old(states[m].history) != old(states[n].history)
      requires forall n | n in old(states) :: unchanged(old(states[n]))
      requires forall n | n in old(states) :: st != old(states[n]) && st.history != old(states[n].history)
      ensures forall m, n | m in states && n in states && m != n ::
                states[m] != states[n] && states[m].history != states[n].history
    {
    }

    twostate lemma OldStay(name: string, new st: ClusterState)
      requires old(Objects()) && name !in old(states) && states == old(states)[name := st]
      requires forall n | n in old(states) :: unchanged(old(states[n])) && unchanged(old(states[n].history))
      requires old(fs.dirs).Keys <= fs.dirs.Keys
      ensures forall n | n in old(states) ::
                && states[n].View() == old(states[n].View())
                && states[n].history.fs == fs && states[n].history.Valid()
    {
      forall n | n in old(states)
        ensures states[n].View() == old(states[n].View()) && states[n].history.fs == fs && states[n].history.Valid()
      {
        Untouched(states[n]);
      }
    }

    /** Opens the cluster's history, falling back to memory when its directory cannot be made. */
    method Create(c: Cluster, faults: Faults) returns (st: ClusterState)
      requires Objects()
      modifies fs
      ensures Objects() && fresh(st) && fresh(st.history) && st.history.fs == fs && st.history.Valid()
      ensures st.View() == NewState(cfg, c, old(fs.dirs), faults)
      ensures fs.dirs == DirsAfterOpen(cfg, c, old(fs.dirs), faults)
    {
      var dir := DirFor(cfg, c.name);
      var hist := Store.New(fs, dir, cfg.historyLimit, dir !in faults.unmakeable, faults.stuck);
      if hist == null {
        hist := Store.New(fs, "", cfg.historyLimit, true, faults.stuck);
      }
      st := new ClusterState(c, hist);
    }

    /** The end of one scan. False stands for the nil dereference when the cluster has no state. */
    method Finish(name: string, a: Attempt) returns (alive: bool, post: Option<seq<LocatedFinding>>)
      requires Valid()
      modifies fs, states.Values, set st | st in states.Values :: st.history
      ensures Valid() && alive == (name in states)
      ensures View() == if alive then Finished(old(View()), name, a) else old(View())
      ensures post == if alive then Posted(cfg, old(View()).states[name], a) else None
    {
      post := None;
      alive := name in states;
      if alive {
        post := RecordFor(name, a);
      }
    }

    method RecordFor(name: string, a: Attempt) returns (post: Option<seq<LocatedFinding>>)
      requires Valid() && name in states
      modifies fs, states[name], states[name].history
      ensures Valid()
      ensures View() == Finished(old(View()), name, a)
      ensures post == Posted(cfg, old(states[name].View()), a)
    {
      var st := states[name];
      post := st.RecordAndCompare(a, cfg);
      OthersKept(name);
    }

    /** A change to one state object and its store is a change to one entry of the fleet. */
    twostate lemma OthersKept(name: string)
      requires old(Objects()) && unchanged(`states) && name in states
      requires forall n | n in states && n != name :: unchanged(states[n]) && unchanged(states[n].history)
      requires states[name].history.Valid() && old(fs.dirs).Keys <= fs.dirs.Keys
      ensures Objects()
      ensures StatesView() == old(StatesView())[name := states[name].View()]
    {
      forall n | n in states && n != name
        ensures states[n].View() == old(states[n].View()) && states[n].history.Valid()
      {
        Untouched(states[n]);
      }
    }

    twostate lemma Untouched(st: ClusterState)
      requires unchanged(st) && unchanged(st.history) && st.history.fs == fs
      requires old(st.history.Valid()) && old(fs.dirs).Keys <= fs.dirs.Keys
      ensures st.View() == old(st.View()) && st.history.Valid()
    {
    }

    /** One status per listed cluster, in registry order. */
    method Statuses() returns (out: seq<Status>)
      requires Valid()
      ensures |out| == |order|
      ensures forall k | 0 <= k < |order| :: Describes(out[k], order[k], View().states[order[k]])
    {
      out := [];
      for i := 0 to |order|
        invariant |out| == i && forall k | 0 <= k < i :: Describes(out[k], order[k], View().states[order[k]])
      {
        assert order[i] in order;
        var st := states[order[i]];
        assert View().states[order[i]] == st.View();
        out := out + [Status(order[i], st.cluster.server, st.lastScan, st.lastDuration, st.scans, st.scanErrors,
                             if st.lastErr.Some? then st.lastErr.value else "",
                             if st.report.Some? then Some(st.report.value.summary) else None)];
      }
    }

    /** The latest report of a cluster, None when unknown or never scanned successfully. */
    method GetReport(name: string) returns (r: Option<Report>)
      requires Valid()
      ensures r == if name in View().states then View().states[name].report else None
    {
      r := if name in states then states[name].report else None;
    }
  }

  // The registry.

  /** A labelled secret; `config` tells whether its connection details parse. */
  datatype Secret = Secret(name: string, server: string, configParses: bool)

  predicate Usable(s: Secret) {
    s.name != "" && s.server != "" && s.configParses
  }

  /** The local cluster, then each usable secret whose name is new, in the order of the list. */
  function RegistryOf(local: Cluster, secrets: seq<Secret>): seq<Cluster> {
    if secrets == [] then [local]
    else
      var out, s := RegistryOf(local, secrets[..|secrets| - 1]), secrets[|secrets| - 1];
      if Usable(s) && s.name !in Names(out) then out + [Cluster(s.name, s.server)] else out
  }

  function LocalCluster(context: string): Cluster {
    Cluster(if context == "" then "local" else context, "local")
  }

  /** `Registry.Clusters`; an error still lists the local cluster. */
  method ListClusters(context: string, secrets: Option<seq<Secret>>) returns (out: seq<Cluster>, ok: bool)
    ensures ok == secrets.Some?
    ensures out != [] && out[0].name == (if context == "" then "local" else context) && out[0].server == "local"
    ensures !ok ==> |out| == 1
    ensures out == RegistryOf(LocalCluster(context), if ok then secrets.value else [])
  {
    var local := LocalCluster(context);
    out, ok := [local], secrets.Some?;
    var seen := {local.name};
    if !ok {
      return;
    }
    var list := secrets.value;
    for i := 0 to |list|
      invariant out == RegistryOf(local, list[..i]) && seen == Names(out)
      invariant out != [] && out[0] == local
    {
      var s := list[i];
      assert list[..i + 1][..i] == list[..i];
      if Usable(s) && s.name !in seen {
        NamesGrow(out, Cluster(s.name, s.server));
        seen := seen + {s.name};
        out := out + [Cluster(s.name, s.server)];
      }
    }
    assert list[..|list|] == list;
  }

  /** Secret `i` has a name, a server and details that parse, is not called like the local cluster, and no
      such secret before it has its name. */
  predicate Introduces(local: Cluster, secrets: seq<Secret>, i: nat)
    requires i < |secrets|
  {
    && secrets[i].name != "" && secrets[i].server != "" && secrets[i].configParses
    && secrets[i].name != local.name
    && forall j | 0 <= j < i && secrets[j].server != "" && secrets[j].configParses :: secrets[j].name != secrets[i].name
  }

  /** `at` lists the positions of the secrets behind the registered clusters. */
  ghost predicate Origins(local: Cluster, secrets: seq<Secret>, out: seq<Cluster>, at: seq<nat>) {
    && |out| == |at| + 1 && out[0] == local
    && (forall k | 0 <= k < |at| :: at[k] < |secrets| && Introduces(local, secrets, at[k])
                                    && out[k + 1] == Cluster(secrets[at[k]].name, secrets[at[k]].server))
    && (forall k, l | 0 <= k < l < |at| :: at[k] < at[l])
    && (forall i | 0 <= i < |secrets| && Introduces(local, secrets, i) :: i in at)
  }

  /** The listing is the local cluster and then exactly the secrets that introduce a name, in order. */
  lemma {:induction false} RegistryInOrder(local: Cluster, secrets: seq<Secret>) returns (at: seq<nat>)
    ensures Origins(local, secrets, RegistryOf(local, secrets), at)
  {
    if secrets == [] {
      at := [];
    } else {
      var init, s := secrets[..|secrets| - 1], secrets[|secrets| - 1];
      var before := RegistryInOrder(local, init);
      assert secrets == init + [s];
      RegistryNames(local, init);
      OriginsGrow(local, init, s, RegistryOf(local, init), before);
      at := if Introduces(local, secrets, |init|) then before + [|init|] else before;
      IntroducedBefore(local, init, s);
    }
  }

  lemma OriginsGrow(local: Cluster, init: seq<Secret>, s: Secret, out: seq<Cluster>, at: seq<nat>)
    requires Origins(local, init, out, at)
    ensures if Introduces(local, init + [s], |init|)
            then Origins(local, init + [s], out + [Cluster(s.name, s.server)], at + [|init|])
            else Origins(local, init + [s], out, at)
  {
    IntroducedBefore(local, init, s);
    assert forall i | i in at :: i in at + [|init|];
    assert |init| in at + [|init|];
  }

  ghost function UsableNames(local: Cluster, secrets: seq<Secret>): set<string> {
    {local.name} + set s | s in secrets && Usable(s) :: s.name
  }

  lemma {:induction false} RegistryNames(local: Cluster, secrets: seq<Secret>)
    ensures Names(RegistryOf(local, secrets)) == UsableNames(local, secrets)
  {
    if secrets != [] {
      var init, s := secrets[..|secrets| - 1], secrets[|secrets| - 1];
      RegistryNames(local, init);
      NamesGrow(RegistryOf(local, init), Cluster(s.name, s.server));
      assert forall x :: x in secrets <==> x in init || x == s by { assert secrets == init + [s]; }
    }
  }

  lemma IntroducedBefore(local: Cluster, init: seq<Secret>, s: Secret)
    ensures forall i | 0 <= i < |init| :: Introduces(local, init + [s], i) <==> Introduces(local, init, i)
    ensures Introduces(local, init + [s], |init|) <==>
            Usable(s) && s.name !in UsableNames(local, init)
  {
    var all := init + [s];
    assert forall j | 0 <= j < |init| :: all[j] == init[j];
    if Usable(s) && s.name != local.name && !Introduces(local, all, |init|) {
      var j :| 0 <= j < |init| && Usable(all[j]) && all[j].name == s.name;
      assert init[j] in init;
    }
  }

  /** No two registered clusters have one name. */
  lemma {:induction false} RegistryNamesUnique(local: Cluster, secrets: seq<Secret>)
    ensures UniqueNames(RegistryOf(local, secrets))
  {
    if secrets != [] {
      var init, s := secrets[..|secrets| - 1], secrets[|secrets| - 1];
      RegistryNamesUnique(local, init);
    }
  }
}
