/** No finding is announced twice in a row: between two posts of one key for one cluster lies a
    successful scan without it, over whole runs of the fleet. */
module FleetRepeats {
  import opened Reports
  import opened Diffs
  import opened HistoryLog
  import opened HistoryStore
  import opened Fleet
  import opened FleetRuns
  import opened FleetReplay
  import opened FleetDurability

  /** The last of some runs, `start` when there is none. */
  ghost function LastOf(runs: seq<Run>, start: Option<Report>): Option<Report> {
    if runs == [] then start else FromEnd(runs, 0)
  }

  /** The report of the last successful scan of a cluster, over all its registrations; before the first one
      it is `start`, the last report of the processes before this one. */
  ghost function LastEver(cfg: Config, dirs: map<string, Dir>, trace: seq<Event>, n: string,
                          start: Option<Report>): Option<Report>
  {
    LastOf(AllRuns(cfg, dirs, trace, n), start)
  }

  ghost predicate Registers(cfg: Config, w: World, e: Event, n: string) {
    Enabled(w, e) && e.Refresh? && n in Names(e.clusters) && n !in w.fleet.states
  }

  /** Whenever the cluster is registered its history opens empty or with its own last success. */
  ghost predicate Faithful(cfg: Config, dirs: map<string, Dir>, trace: seq<Event>, n: string, start: Option<Report>) {
    trace == [] ||
    var init, e := trace[..|trace| - 1], trace[|trace| - 1];
    var w := After(cfg, dirs, init);
    && Faithful(cfg, dirs, init, n, start)
    && (Registers(cfg, w, e, n) ==>
          var found, last := OpenedLog(cfg, n, w.fleet.dirs, e.faults).last, LastEver(cfg, dirs, init, n, start);
          found in {None, last} || last == None)
  }

  /** Event `i` finishes a scan of cluster `n`, and key `k` is posted for it. */
  ghost predicate PostsAt(cfg: Config, dirs: map<string, Dir>, trace: seq<Event>, i: nat, n: string, k: string)
    requires i < |trace|
  {
    var w := After(cfg, dirs, trace[..i]);
    FinishesFor(w, trace[i], n) && k in PostKeys(cfg, w.fleet.states[n], trace[i].attempt)
  }

  /** Event `m` finishes a successful scan of cluster `n` without key `k`. */
  ghost predicate ClearsAt(cfg: Config, dirs: map<string, Dir>, trace: seq<Event>, m: nat, n: string, k: string)
    requires m < |trace|
  {
    && FinishesFor(After(cfg, dirs, trace[..m]), trace[m], n)
    && trace[m].attempt.result.Scanned? && k !in ReportKeys(trace[m].attempt.result.report)
  }

  /** The last success has the key, and the store, if there is one, remembers that success or nothing. */
  ghost predicate Holds(cfg: Config, w: World, last: Option<Report>, n: string, k: string) {
    && last.Some? && k in ReportKeys(last.value)
    && (n in w.fleet.states ==> w.fleet.states[n].log.last in {None, last})
  }

  ghost function NextLast(w: World, e: Event, last: Option<Report>, n: string): Option<Report> {
    if FinishesFor(w, e, n) && e.attempt.result.Scanned? then Some(e.attempt.result.report) else last
  }

  lemma LastOfNext(runs: seq<Run>, w: World, e: Event, n: string, start: Option<Report>)
    ensures LastOf(runs + RunsOfStep(w, e, n), start) == NextLast(w, e, LastOf(runs, start), n)
  {
    assert runs + [] == runs;
  }

  /** One step keeps this, unless it is a success without the key. */
  lemma StepHolds(cfg: Config, w: World, e: Event, last: Option<Report>, n: string, k: string)
    requires Enabled(w, e) && Holds(cfg, w, last, n, k)
    requires FinishesFor(w, e, n) && e.attempt.result.Scanned? ==> k in ReportKeys(e.attempt.result.report)
    requires Registers(cfg, w, e, n) ==> OpenedLog(cfg, n, w.fleet.dirs, e.faults).last in {None, last}
    ensures Holds(cfg, Step(cfg, w, e), NextLast(w, e, last, n), n, k)
  {
    if e.Refresh? {
      RefreshShape(cfg, w.fleet, e.clusters, e.faults);
      if n in Step(cfg, w, e).fleet.states && n !in w.fleet.states {
        assert RegisteredOn(cfg, n, w.fleet.dirs, e.faults, Step(cfg, w, e).fleet.states[n]);
      }
    } else {
      StepTouchesOne(cfg, w, e, n);
    }
  }

  /** No scan of the cluster that events `t` to `u` finish succeeds without key `k`. */
  ghost predicate Uncleared(cfg: Config, dirs: map<string, Dir>, trace: seq<Event>, t: nat, u: nat, n: string, k: string)
    requires u <= |trace|
  {
    forall m | t <= m < u :: !ClearsAt(cfg, dirs, trace, m, n, k)
  }

  ghost predicate HoldsAt(cfg: Config, dirs: map<string, Dir>, trace: seq<Event>, n: string, k: string,
                          start: Option<Report>)
  {
    Holds(cfg, After(cfg, dirs, trace), LastEver(cfg, dirs, trace, n, start), n, k)
  }

  /** Event `u` is a step of the run, and if it registers the cluster it finds the last success or nothing. */
  ghost predicate Taken(cfg: Config, dirs: map<string, Dir>, trace: seq<Event>, u: nat, n: string, start: Option<Report>)
    requires u < |trace|
  {
    var w, e, last := After(cfg, dirs, trace[..u]), trace[u], LastEver(cfg, dirs, trace[..u], n, start);
    && Enabled(w, e) && After(cfg, dirs, trace[..u + 1]) == Step(cfg, w, e)
    && LastEver(cfg, dirs, trace[..u + 1], n, start) == NextLast(w, e, last, n)
    && (Registers(cfg, w, e, n) && last.Some? ==> OpenedLog(cfg, n, w.fleet.dirs, e.faults).last in {None, last})
  }

  lemma NextWorld(cfg: Config, dirs: map<string, Dir>, init: seq<Event>, e: Event)
    requires Legal(cfg, dirs, init + [e])
    ensures Enabled(After(cfg, dirs, init), e)
    ensures After(cfg, dirs, init + [e]) == Step(cfg, After(cfg, dirs, init), e)
  {
    assert (init + [e])[..|init|] == init;
  }

  lemma NextLastEver(cfg: Config, dirs: map<string, Dir>, init: seq<Event>, e: Event, n: string, start: Option<Report>)
    ensures LastEver(cfg, dirs, init + [e], n, start)
         == NextLast(After(cfg, dirs, init), e, LastEver(cfg, dirs, init, n, start), n)
  {
    assert (init + [e])[..|init|] == init;
    LastOfNext(AllRuns(cfg, dirs, init, n), After(cfg, dirs, init), e, n, start);
  }

  lemma NextRegistration(cfg: Config, dirs: map<string, Dir>, init: seq<Event>, e: Event, n: string, start: Option<Report>)
    requires Faithful(cfg, dirs, init + [e], n, start)
    ensures var w, last := After(cfg, dirs, init), LastEver(cfg, dirs, init, n, start);
            Registers(cfg, w, e, n) && last.Some? ==> OpenedLog(cfg, n, w.fleet.dirs, e.faults).last in {None, last}
  {
    assert (init + [e])[..|init|] == init;
  }

  lemma LastTaken(cfg: Config, dirs: map<string, Dir>, init: seq<Event>, e: Event, n: string, start: Option<Report>)
    requires Legal(cfg, dirs, init + [e]) && Faithful(cfg, dirs, init + [e], n, start)
    ensures Taken(cfg, dirs, init + [e], |init|, n, start)
  {
    NextWorld(cfg, dirs, init, e);
    NextLastEver(cfg, dirs, init, e, n, start);
    NextRegistration(cfg, dirs, init, e, n, start);
    assert (init + [e])[..|init|] == init && (init + [e])[..|init| + 1] == init + [e];
  }

  lemma TakenBefore(cfg: Config, dirs: map<string, Dir>, init: seq<Event>, e: Event, v: nat, n: string, start: Option<Report>)
    requires v < |init| && Taken(cfg, dirs, init, v, n, start)
    ensures Taken(cfg, dirs, init + [e], v, n, start)
  {
    assert (init + [e])[..v] == init[..v] && (init + [e])[..v + 1] == init[..v + 1];
  }

  lemma {:induction false} AllTaken(cfg: Config, dirs: map<string, Dir>, trace: seq<Event>, n: string, start: Option<Report>)
    requires Legal(cfg, dirs, trace) && Faithful(cfg, dirs, trace, n, start)
    ensures forall v | 0 <= v < |trace| :: Taken(cfg, dirs, trace, v, n, start)
  {
    if trace != [] {
      var init, e := trace[..|trace| - 1], trace[|trace| - 1];
      AllTaken(cfg, dirs, init, n, start);
      assert init + [e] == trace;
      LastTaken(cfg, dirs, init, e, n, start);
      forall v | 0 <= v < |init|
        ensures Taken(cfg, dirs, trace, v, n, start)
      {
        TakenBefore(cfg, dirs, init, e, v, n, start);
      }
    }
  }

  lemma HoldsNext(cfg: Config, dirs: map<string, Dir>, trace: seq<Event>, u: nat, n: string, k: string,
                  start: Option<Report>)
    requires u < |trace| && Taken(cfg, dirs, trace, u, n, start)
    requires HoldsAt(cfg, dirs, trace[..u], n, k, start) && !ClearsAt(cfg, dirs, trace, u, n, k)
    ensures HoldsAt(cfg, dirs, trace[..u + 1], n, k, start)
  {
    StepHolds(cfg, After(cfg, dirs, trace[..u]), trace[u], LastEver(cfg, dirs, trace[..u], n, start), n, k);
  }

  /** As long as that is so, the last success keeps `k`. */
  lemma {:induction false} HoldsOn(cfg: Config, dirs: map<string, Dir>, trace: seq<Event>, t: nat, u: nat,
                                   n: string, k: string, start: Option<Report>)
    requires t <= u <= |trace| && forall v | t <= v < u :: Taken(cfg, dirs, trace, v, n, start)
    requires HoldsAt(cfg, dirs, trace[..t], n, k, start) && Uncleared(cfg, dirs, trace, t, u, n, k)
    ensures HoldsAt(cfg, dirs, trace[..u], n, k, start)
    decreases u
  {
    if t < u {
      HoldsOn(cfg, dirs, trace, t, u - 1, n, k, start);
      assert !ClearsAt(cfg, dirs, trace, u - 1, n, k);
      HoldsNext(cfg, dirs, trace, u - 1, n, k, start);
    }
  }

  lemma PostedIsLast(cfg: Config, w: World, e: Event, n: string, k: string)
    requires FinishesFor(w, e, n) && k in PostKeys(cfg, w.fleet.states[n], e.attempt)
    ensures e.attempt.result.Scanned? && cfg.notifying
    ensures w.fleet.states[n].log.last.Some? && k !in ReportKeys(w.fleet.states[n].log.last.value)
    ensures Holds(cfg, Step(cfg, w, e), Some(e.attempt.result.report), n, k)
  {
    assert cfg.notifying;
    PostIsDiff(cfg, w.fleet.states[n], e.attempt);
    StepTouchesOne(cfg, w, e, n);
  }

  /** Right after a post the last success has its key. */
  lemma HoldsAfterPost(cfg: Config, dirs: map<string, Dir>, trace: seq<Event>, i: nat, n: string, k: string,
                       start: Option<Report>)
    requires i < |trace| && PostsAt(cfg, dirs, trace, i, n, k)
    ensures HoldsAt(cfg, dirs, trace[..i + 1], n, k, start)
  {
    var w := After(cfg, dirs, trace[..i]);
    assert trace[..i + 1][..i] == trace[..i];
    LastOfNext(AllRuns(cfg, dirs, trace[..i], n), w, trace[i], n, start);
    PostedIsLast(cfg, w, trace[i], n, k);
  }

  /** What the last success has is not posted. */
  lemma HeldIsNotPosted(cfg: Config, dirs: map<string, Dir>, trace: seq<Event>, j: nat, n: string, k: string,
                        start: Option<Report>)
    requires j < |trace| && HoldsAt(cfg, dirs, trace[..j], n, k, start)
    ensures !PostsAt(cfg, dirs, trace, j, n, k)
  {
    if PostsAt(cfg, dirs, trace, j, n, k) {
      PostedIsLast(cfg, After(cfg, dirs, trace[..j]), trace[j], n, k);
      assert false;
    }
  }

  lemma NotPostedUncleared(cfg: Config, dirs: map<string, Dir>, trace: seq<Event>, t: nat, j: nat, n: string, k: string,
                           start: Option<Report>)
    requires Legal(cfg, dirs, trace) && Faithful(cfg, dirs, trace, n, start) && t <= j < |trace|
    requires HoldsAt(cfg, dirs, trace[..t], n, k, start) && Uncleared(cfg, dirs, trace, t, j, n, k)
    ensures !PostsAt(cfg, dirs, trace, j, n, k)
  {
    AllTaken(cfg, dirs, trace, n, start);
    HoldsOn(cfg, dirs, trace, t, j, n, k, start);
    HeldIsNotPosted(cfg, dirs, trace, j, n, k, start);
  }

  /** So from event `t` on, where the last success has `k`, a post of `k` needs a success without it. */
  lemma PostNeedsGap(cfg: Config, dirs: map<string, Dir>, trace: seq<Event>, t: nat, j: nat, n: string, k: string,
                     start: Option<Report>)
    requires Legal(cfg, dirs, trace) && Faithful(cfg, dirs, trace, n, start) && t <= j < |trace|
    requires HoldsAt(cfg, dirs, trace[..t], n, k, start) && PostsAt(cfg, dirs, trace, j, n, k)
    ensures exists m :: t <= m < j && ClearsAt(cfg, dirs, trace, m, n, k)
  {
    if Uncleared(cfg, dirs, trace, t, j, n, k) {
      NotPostedUncleared(cfg, dirs, trace, t, j, n, k, start);
    }
  }

  /** Between two posts of one key for one cluster, however the run interleaves, and even if the cluster
      was dropped and registered again, lies a successful scan of it without the key. */
  lemma RepeatNeedsGap(cfg: Config, dirs: map<string, Dir>, trace: seq<Event>, i: nat, j: nat, n: string, k: string,
                       start: Option<Report>)
    requires Legal(cfg, dirs, trace) && Faithful(cfg, dirs, trace, n, start) && i < j < |trace|
    requires PostsAt(cfg, dirs, trace, i, n, k) && PostsAt(cfg, dirs, trace, j, n, k)
    ensures exists m :: i < m < j && ClearsAt(cfg, dirs, trace, m, n, k)
  {
    HoldsAfterPost(cfg, dirs, trace, i, n, k, start);
    PostNeedsGap(cfg, dirs, trace, i + 1, j, n, k, start);
  }

  // When registrations are faithful.

  /** Histories in memory start empty. */
  lemma {:induction false} MemoryIsFaithful(cfg: Config, dirs: map<string, Dir>, trace: seq<Event>, n: string,
                                            start: Option<Report>)
    requires cfg.historyDir == ""
    ensures Faithful(cfg, dirs, trace, n, start)
  {
    if trace != [] {
      MemoryIsFaithful(cfg, dirs, trace[..|trace| - 1], n, start);
    }
  }

  /** The last report a cluster's directory holds. */
  ghost function LastOnDisk(cfg: Config, dirs: map<string, Dir>, n: string): Option<Report> {
    FromEnd(Readable(DirAt(dirs, DirFor(cfg, n))), 0)
  }

  /** Histories on disk that persist resume with the last success. */
  lemma {:induction false} PersistentIsFaithful(cfg: Config, dirs: map<string, Dir>, trace: seq<Event>,
                                                names: set<string>, n: string, start: Option<Report>)
    requires cfg.historyDir != "" && Legal(cfg, dirs, trace) && Persistent(cfg, dirs, trace)
    requires Unshared(cfg, names) && EverListed(trace) <= names && n in names
    requires start in {None, LastOnDisk(cfg, dirs, n)}
    ensures Faithful(cfg, dirs, trace, n, start)
  {
    if trace != [] {
      var init, e := trace[..|trace| - 1], trace[|trace| - 1];
      PersistentIsFaithful(cfg, dirs, init, names, n, start);
      HistorySurvivesDrops(cfg, dirs, init, names, n);
      LastOfBoth(Readable(DirAt(dirs, DirFor(cfg, n))), AllRuns(cfg, dirs, init, n));
    }
  }
}
