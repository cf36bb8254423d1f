/** In every interleaving a cluster's state is the replay of its own finished scans, and what is
    posted about it is decided by those scans alone. */
module FleetReplay {
  import opened Ordering
  import opened Reports
  import opened Timestamps
  import opened Diffs
  import opened HistoryLog
  import opened HistoryStore
  import opened Fleet
  import opened FleetRuns

  function Replay(st: State, attempts: seq<Attempt>): State {
    if attempts == [] then st
    else AfterAttempt(Replay(st, attempts[..|attempts| - 1]), attempts[|attempts| - 1])
  }

  ghost predicate FinishesFor(w: World, e: Event, n: string) {
    Enabled(w, e) && e.Finish? && w.calls[e.call][e.job].name == n && n in w.fleet.states
  }

  /** The scans recorded for a cluster since it was (last) registered. */
  ghost function Lifetime(cfg: Config, dirs: map<string, Dir>, trace: seq<Event>, n: string): seq<Attempt> {
    if trace == [] then []
    else
      var init, e := trace[..|trace| - 1], trace[|trace| - 1];
      var w := After(cfg, dirs, init);
      if e.Refresh? then
        (if n in w.fleet.states && n in Names(e.clusters) then Lifetime(cfg, dirs, init, n) else [])
      else
        Lifetime(cfg, dirs, init, n) + if FinishesFor(w, e, n) then [e.attempt] else []
  }

  ghost predicate SameButCluster(a: State, b: State) {
    a == b.(cluster := a.cluster)
  }

  lemma AttemptIgnoresCluster(a: State, b: State, x: Attempt)
    requires SameButCluster(a, b)
    ensures SameButCluster(AfterAttempt(a, x), AfterAttempt(b, x))
  {
  }

  /** A goroutine's step changes the state of at most its own cluster. */
  lemma StepTouchesOne(cfg: Config, w: World, e: Event, n: string)
    requires Enabled(w, e) && !e.Refresh?
    ensures var w' := Step(cfg, w, e);
            && w'.fleet.states.Keys == w.fleet.states.Keys
            && (n in w.fleet.states ==>
                  w'.fleet.states[n] == if FinishesFor(w, e, n) then AfterAttempt(w.fleet.states[n], e.attempt)
                                        else w.fleet.states[n])
  {
  }

  /** A refresh keeps what a listed cluster had, up to its connection details. */
  lemma RefreshKeepsOrCreates(cfg: Config, w: World, e: Event, n: string)
    requires Enabled(w, e) && e.Refresh? && n in Step(cfg, w, e).fleet.states
    ensures n in Names(e.clusters)
    ensures var st := Step(cfg, w, e).fleet.states[n];
            if n in w.fleet.states then SameButCluster(st, w.fleet.states[n])
            else RegisteredOn(cfg, n, w.fleet.dirs, e.faults, st)
  {
    RefreshShape(cfg, w.fleet, e.clusters, e.faults);
  }

  /** The history a cluster was (last) registered with: what its directory held at that refresh. */
  ghost function Birth(cfg: Config, dirs: map<string, Dir>, trace: seq<Event>, n: string): Log {
    if trace == [] then DirLog(cfg, dirs, "")
    else
      var init, e := trace[..|trace| - 1], trace[|trace| - 1];
      var w := After(cfg, dirs, init);
      if e.Refresh? && n !in w.fleet.states then OpenedLog(cfg, n, w.fleet.dirs, e.faults)
      else Birth(cfg, dirs, init, n)
  }

  /** The last run of a newly opened history is the last readable report of its directory. */
  lemma OpenedLast(cfg: Config, n: string, dirs: map<string, Dir>, faults: Faults)
    ensures var dir := OpenedDir(cfg, n, faults);
            OpenedLog(cfg, n, dirs, faults).last == if dir == "" then None else FromEnd(Readable(DirAt(dirs, dir)), 0)
  {
  }

  lemma {:induction false} MemoryStartsEmpty(cfg: Config, dirs: map<string, Dir>, trace: seq<Event>, n: string)
    requires cfg.historyDir == ""
    ensures Birth(cfg, dirs, trace, n).last == None
  {
    if trace != [] {
      MemoryStartsEmpty(cfg, dirs, trace[..|trace| - 1], n);
    }
  }

  /** Whatever other scans and refreshes interleave, a registered cluster's state is exactly the
      replay of its own scans on the state it was born with: no scans, and the history its directory
      held at registration. */
  lemma {:induction false} StateIsReplay(cfg: Config, dirs: map<string, Dir>, trace: seq<Event>, n: string)
    returns (born: State)
    requires Legal(cfg, dirs, trace) && n in After(cfg, dirs, trace).fleet.states
    ensures Created(cfg, born) && born.log == Birth(cfg, dirs, trace, n)
    ensures SameButCluster(After(cfg, dirs, trace).fleet.states[n], Replay(born, Lifetime(cfg, dirs, trace, n)))
  {
    var init, e := trace[..|trace| - 1], trace[|trace| - 1];
    var w := After(cfg, dirs, init);
    if e.Refresh? {
      RefreshKeepsOrCreates(cfg, w, e, n);
      if n in w.fleet.states {
        born := StateIsReplay(cfg, dirs, init, n);
      } else {
        born := After(cfg, dirs, trace).fleet.states[n];
      }
    } else {
      StepTouchesOne(cfg, w, e, n);
      born := StateIsReplay(cfg, dirs, init, n);
      var past := Lifetime(cfg, dirs, init, n);
      if FinishesFor(w, e, n) {
        AttemptIgnoresCluster(w.fleet.states[n], Replay(born, past), e.attempt);
      } else {
        assert past + [] == past;
      }
    }
  }

  // What a replay is.

  function Failures(attempts: seq<Attempt>): nat {
    if attempts == [] then 0
    else Failures(attempts[..|attempts| - 1]) + if attempts[|attempts| - 1].result.Failure? then 1 else 0
  }

  /** The successful scans as runs of the history. */
  function Successes(dir: string, attempts: seq<Attempt>): seq<Run> {
    if attempts == [] then []
    else
      var a := attempts[|attempts| - 1];
      Successes(dir, attempts[..|attempts| - 1]) +
      if a.result.Scanned?
      then [Run(a.result.report, FileFor(dir, FileName(a.result.report.generatedAt), a.write))]
      else []
  }

  /** Counters, report and history of a cluster are exactly the counts, the last and the window of its scans. */
  lemma ReplayIsExact(cfg: Config, st: State, attempts: seq<Attempt>, base: seq<Run>)
    requires Created(cfg, st) && st.log == Window(st.log.dir, st.log.limit, base)
    ensures var now, runs := Replay(st, attempts), Successes(st.log.dir, attempts);
            && now.scans == |attempts| && now.scanErrors == Failures(attempts)
            && now.scans == now.scanErrors + |runs|
            && now.report == FromEnd(runs, 0)
            && now.log == Window(st.log.dir, st.log.limit, base + runs)
            && (now.report.Some? ==> now.log.last == now.report)
  {
    ReplayCounts(st, attempts);
    ReplayLog(st, attempts, base);
    var runs := Successes(st.log.dir, attempts);
    if runs != [] {
      assert (base + runs)[|base + runs| - 1] == runs[|runs| - 1];
    }
  }

  lemma {:induction false} ReplayCounts(st: State, attempts: seq<Attempt>)
    requires st.scans == st.scanErrors == 0
    ensures var now := Replay(st, attempts);
            && now.scans == |attempts| && now.scanErrors == Failures(attempts)
            && now.scans == now.scanErrors + |Successes(st.log.dir, attempts)|
  {
    if attempts != [] {
      ReplayCounts(st, attempts[..|attempts| - 1]);
    }
  }

  lemma {:induction false} ReplayLog(st: State, attempts: seq<Attempt>, base: seq<Run>)
    requires st.report == None && st.log == Window(st.log.dir, st.log.limit, base)
    ensures var now, runs := Replay(st, attempts), Successes(st.log.dir, attempts);
            now.report == FromEnd(runs, 0) && now.log == Window(st.log.dir, st.log.limit, base + runs)
  {
    if attempts == [] {
      assert base + [] == base;
    } else {
      var init, a := attempts[..|attempts| - 1], attempts[|attempts| - 1];
      assert init + [a] == attempts;
      ReplayLog(st, init, base);
      ReplayStep(Replay(st, init), st, base, init, a);
    }
  }

  lemma ReplayStep(now: State, st: State, base: seq<Run>, init: seq<Attempt>, a: Attempt)
    requires now.report == FromEnd(Successes(st.log.dir, init), 0)
    requires now.log == Window(st.log.dir, st.log.limit, base + Successes(st.log.dir, init))
    ensures var next, runs := AfterAttempt(now, a), Successes(st.log.dir, init + [a]);
            next.report == FromEnd(runs, 0) && next.log == Window(st.log.dir, st.log.limit, base + runs)
  {
    assert (init + [a])[..|init|] == init;
    var past, runs := Successes(st.log.dir, init), Successes(st.log.dir, init + [a]);
    if a.result.Scanned? {
      var file := FileFor(st.log.dir, FileName(a.result.report.generatedAt), a.write);
      PushRefinesAppend(st.log.dir, st.log.limit, base + past, a.result.report, file);
      Regroup(base, past, [Run(a.result.report, file)]);
    } else {
      assert runs == past;
    }
  }

  /** The same for a cluster of a running fleet, in any interleaving. */
  lemma FleetStateExact(cfg: Config, dirs: map<string, Dir>, trace: seq<Event>, n: string)
    requires Legal(cfg, dirs, trace) && n in After(cfg, dirs, trace).fleet.states
    ensures var st, life := After(cfg, dirs, trace).fleet.states[n], Lifetime(cfg, dirs, trace, n);
            && st.scans == |life| && st.scanErrors == Failures(life)
            && st.scans == st.scanErrors + |Successes(st.log.dir, life)|
            && st.report == FromEnd(Successes(st.log.dir, life), 0)
            && (st.report.Some? ==> st.log.last == st.report)
  {
    var born := StateIsReplay(cfg, dirs, trace, n);
    var base := BirthRuns(cfg, born);
    ReplayIsExact(cfg, born, Lifetime(cfg, dirs, trace, n), base);
    ReplayKeepsDir(born, Lifetime(cfg, dirs, trace, n));
  }

  lemma BirthRuns(cfg: Config, born: State) returns (base: seq<Run>)
    requires Created(cfg, born)
    ensures born.log == Window(born.log.dir, born.log.limit, base)
    ensures born.log.dir == "" ==> base == []
  {
    var d: Dir :| born.log == Reloaded(born.log.dir, Clamp(cfg.historyLimit), d);
    base := if born.log.dir == "" then [] else Readable(d);
  }

  lemma {:induction false} ReplayKeepsDir(st: State, attempts: seq<Attempt>)
    ensures Replay(st, attempts).log.dir == st.log.dir
  {
    if attempts != [] {
      ReplayKeepsDir(st, attempts[..|attempts| - 1]);
    }
  }

  // What is posted.

  ghost function PostKeys(cfg: Config, st: State, a: Attempt): set<string> {
    var p := Posted(cfg, st, a);
    if p.Some? then Keys(p.value) else {}
  }

  /** A finished scan posts the findings its report has and the last run of its history had not: nothing
      on failure, nothing when there is no earlier run. */
  lemma PostIsDiff(cfg: Config, st: State, a: Attempt)
    requires cfg.notifying
    ensures PostKeys(cfg, st, a)
         == if a.result.Failure? || st.log.last.None? then {}
            else ReportKeys(a.result.report) - ReportKeys(st.log.last.value)
  {
    if a.result.Scanned? && st.log.last.Some? {
      var r, prev := a.result.report, st.log.last.value;
      assert LastDiff(AfterAttempt(st, a).log) == Some(DiffOf(prev, r));
      UnknownKeys(Located(r), ReportKeys(prev));
    }
  }

  /** What is posted is the whole list of new findings, in the order of the report, and never an empty one. */
  lemma PostsAppeared(cfg: Config, st: State, a: Attempt)
    ensures Posted(cfg, st, a)
         == if !cfg.notifying || a.result.Failure? || st.log.last.None?
               || DiffOf(st.log.last.value, a.result.report).appeared == []
            then None
            else Some(DiffOf(st.log.last.value, a.result.report).appeared)
  {
    if a.result.Scanned? && st.log.last.Some? {
      assert LastDiff(AfterAttempt(st, a).log) == Some(DiffOf(st.log.last.value, a.result.report));
    }
  }

  /** In a running fleet only a finishing scan posts: for its own cluster, and the whole list of findings that
      are new against the last run of its history. */
  lemma FinishPosts(cfg: Config, w: World, e: Event)
    requires Enabled(w, e)
    ensures !e.Finish? ==> Step(cfg, w, e).posts == w.posts
    ensures e.Finish? && w.calls[e.call][e.job].name in w.fleet.states ==>
              var n := w.calls[e.call][e.job].name;
              var last := w.fleet.states[n].log.last;
              if !cfg.notifying || e.attempt.result.Failure? || last.None?
                 || DiffOf(last.value, e.attempt.result.report).appeared == []
              then Step(cfg, w, e).posts == w.posts
              else Step(cfg, w, e).posts == w.posts + [Post(n, DiffOf(last.value, e.attempt.result.report).appeared)]
  {
    if e.Finish? && w.calls[e.call][e.job].name in w.fleet.states {
      PostsAppeared(cfg, w.fleet.states[w.calls[e.call][e.job].name], e.attempt);
    }
  }

  /** The last successful scan before number `i`, -1 when there is none. */
  function PrevSuccess(attempts: seq<Attempt>, i: nat): (m: int)
    requires i <= |attempts|
    ensures -1 <= m < i
    ensures m >= 0 ==> attempts[m].result.Scanned?
    ensures forall k | m < k < i :: attempts[k].result.Failure?
  {
    if i == 0 then -1
    else if attempts[i - 1].result.Scanned? then i - 1
    else PrevSuccess(attempts, i - 1)
  }

  lemma {:induction false} LastOfSuccesses(dir: string, attempts: seq<Attempt>, i: nat)
    requires i <= |attempts|
    ensures FromEnd(Successes(dir, attempts[..i]), 0)
         == if PrevSuccess(attempts, i) < 0 then None
            else Some(attempts[PrevSuccess(attempts, i)].result.report)
  {
    if i > 0 {
      assert attempts[..i][..i - 1] == attempts[..i - 1];
      LastOfSuccesses(dir, attempts, i - 1);
    }
  }

  /** The run before scan `i`: the last success since registration, or else the report found on disk then. */
  function PrevReport(inherited: Option<Report>, attempts: seq<Attempt>, i: nat): Option<Report>
    requires i <= |attempts|
  {
    var m := PrevSuccess(attempts, i);
    if m >= 0 then Some(attempts[m].result.report) else inherited
  }

  /** Scan `i` succeeded with key `k`, and the run before, which must exist, had not. */
  ghost predicate NewlyFound(inherited: Option<Report>, attempts: seq<Attempt>, i: nat, k: string)
    requires i < |attempts|
  {
    var prev := PrevReport(inherited, attempts, i);
    && attempts[i].result.Scanned? && k in ReportKeys(attempts[i].result.report)
    && prev.Some? && k !in ReportKeys(prev.value)
  }

  /** Key `k` is posted at scan `i` exactly when scan `i` succeeded with it and the run before had not.
      With no report on disk at registration the first success is silent. */
  lemma PostedExactly(cfg: Config, born: State, attempts: seq<Attempt>, i: nat, k: string)
    requires cfg.notifying && Created(cfg, born) && i < |attempts|
    ensures k in PostKeys(cfg, Replay(born, attempts[..i]), attempts[i]) <==> NewlyFound(born.log.last, attempts, i, k)
    ensures cfg.historyDir == "" ==> born.log.last == None
  {
    var base := BirthRuns(cfg, born);
    LastBefore(cfg, born, attempts, i);
    PostIsDiff(cfg, Replay(born, attempts[..i]), attempts[i]);
  }

  lemma LastBefore(cfg: Config, born: State, attempts: seq<Attempt>, i: nat)
    requires Created(cfg, born) && i <= |attempts|
    ensures Replay(born, attempts[..i]).log.last == PrevReport(born.log.last, attempts, i)
  {
    var base := BirthRuns(cfg, born);
    var later := Successes(born.log.dir, attempts[..i]);
    ReplayIsExact(cfg, born, attempts[..i], base);
    LastOfSuccesses(born.log.dir, attempts, i);
    LastOfBoth(base, later);
  }

  lemma LastOfBoth(base: seq<Run>, later: seq<Run>)
    ensures FromEnd(base + later, 0) == if later == [] then FromEnd(base, 0) else FromEnd(later, 0)
    ensures later == [] <==> FromEnd(later, 0) == None
  {
    assert later == [] ==> base + later == base;
  }

  /** Between two posts of one key there is a successful scan without it. */
  lemma RepeatsStaySilent(cfg: Config, born: State, attempts: seq<Attempt>, i: nat, j: nat, k: string)
    requires cfg.notifying && Created(cfg, born) && i < j < |attempts|
    requires k in PostKeys(cfg, Replay(born, attempts[..i]), attempts[i])
    requires k in PostKeys(cfg, Replay(born, attempts[..j]), attempts[j])
    ensures exists m :: i < m < j && attempts[m].result.Scanned? && k !in ReportKeys(attempts[m].result.report)
  {
    PostedExactly(cfg, born, attempts, i, k);
    PostedExactly(cfg, born, attempts, j, k);
    var m := PrevSuccess(attempts, j);
    assert m >= i;
    assert m != i;
  }

  /** In a running fleet a finishing scan posts by the same rule, whatever the other clusters and
      overlapping calls do. Before the first success since registration the run before is the last one
      the cluster's directory held at registration; if it held none, nothing is posted. */
  lemma FleetPostsExactly(cfg: Config, dirs: map<string, Dir>, trace: seq<Event>, e: Event, k: string)
    requires cfg.notifying && Legal(cfg, dirs, trace)
    requires e.Finish? && Enabled(After(cfg, dirs, trace), e)
    requires After(cfg, dirs, trace).calls[e.call][e.job].name in After(cfg, dirs, trace).fleet.states
    ensures var w := After(cfg, dirs, trace);
            var n := w.calls[e.call][e.job].name;
            PostsByRule(cfg, w, e, n, Birth(cfg, dirs, trace, n).last, Lifetime(cfg, dirs, trace, n), k)
  {
    var w := After(cfg, dirs, trace);
    var n := w.calls[e.call][e.job].name;
    var born := StateIsReplay(cfg, dirs, trace, n);
    NextPost(cfg, born, Lifetime(cfg, dirs, trace, n), e.attempt, k);
  }

  /** The finish step `e` posts at most once, and posts key `k` exactly when its scan newly found it. */
  ghost predicate PostsByRule(cfg: Config, w: World, e: Event, n: string, inherited: Option<Report>,
                              past: seq<Attempt>, k: string)
    requires Enabled(w, e) && e.Finish?
  {
    var posts := Step(cfg, w, e).posts;
    && w.posts <= posts && |posts| <= |w.posts| + 1
    && (Announced(w.posts, posts, n, k) <==> NewlyFound(inherited, past + [e.attempt], |past|, k))
  }

  /** The step from `before` to `posts` posted key `k` for cluster `n`. */
  ghost predicate Announced(before: seq<Post>, posts: seq<Post>, n: string, k: string) {
    |posts| > |before| && posts[|before|].cluster == n && k in Keys(posts[|before|].findings)
  }

  lemma NextPost(cfg: Config, born: State, past: seq<Attempt>, a: Attempt, k: string)
    requires cfg.notifying && Created(cfg, born)
    ensures k in PostKeys(cfg, Replay(born, past), a) <==> NewlyFound(born.log.last, past + [a], |past|, k)
    ensures cfg.historyDir == "" ==> born.log.last == None
  {
    assert (past + [a])[..|past|] == past;
    PostedExactly(cfg, born, past + [a], |past|, k);
  }
}
