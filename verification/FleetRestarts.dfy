/** Restarts: a process that is started on the directories of the one before announces nothing twice either,
    neither to the global webhook nor to a team's. */
module FleetRestarts {
  import opened Reports
  import opened Diffs
  import opened Notify
  import opened HistoryLog
  import opened HistoryStore
  import opened Fleet
  import opened FleetRuns
  import opened FleetReplay
  import opened FleetDurability
  import opened FleetRepeats

  /** One life of the process: how it is configured, the directories it starts on, what happens in it, and
      for the cluster at hand the report of the last successful scan before it. */
  datatype Life = Life(cfg: Config, dirs: map<string, Dir>, trace: seq<Event>, start: Option<Report>)

  /** Each life starts where the one before it ended. */
  ghost predicate Follows(a: Life, b: Life, n: string) {
    && b.dirs == After(a.cfg, a.dirs, a.trace).fleet.dirs
    && b.start == LastEver(a.cfg, a.dirs, a.trace, n, a.start)
  }

  ghost predicate Chained(lives: seq<Life>, n: string) {
    && (lives != [] ==> lives[0].start == None)
    && forall p | 0 <= p < |lives| - 1 :: Follows(lives[p], lives[p + 1], n)
  }

  ghost predicate FaithfulLife(l: Life, n: string) {
    Legal(l.cfg, l.dirs, l.trace) && Faithful(l.cfg, l.dirs, l.trace, n, l.start)
  }

  ghost predicate FaithfulLives(lives: seq<Life>, n: string) {
    Chained(lives, n) && forall p | 0 <= p < |lives| :: FaithfulLife(lives[p], n)
  }

  ghost predicate PostsIn(lives: seq<Life>, p: nat, i: nat, n: string, k: string) {
    p < |lives| && i < |lives[p].trace| && PostsAt(lives[p].cfg, lives[p].dirs, lives[p].trace, i, n, k)
  }

  ghost predicate ClearsIn(lives: seq<Life>, p: nat, i: nat, n: string, k: string) {
    p < |lives| && i < |lives[p].trace| && ClearsAt(lives[p].cfg, lives[p].dirs, lives[p].trace, i, n, k)
  }

  /** Event `i` of life `p` comes before event `j` of life `q`. */
  predicate Earlier(p: nat, i: nat, q: nat, j: nat) {
    p < q || (p == q && i < j)
  }

  ghost predicate Has(last: Option<Report>, k: string) {
    last.Some? && k in ReportKeys(last.value)
  }

  /** No scan clears `k` in this life from event `t` on. */
  ghost predicate LifeUncleared(l: Life, t: nat, n: string, k: string) {
    Uncleared(l.cfg, l.dirs, l.trace, t, |l.trace|, n, k)
  }

  lemma LifeHolds(a: Life, b: Life, t: nat, n: string, k: string)
    requires FaithfulLife(a, n) && Follows(a, b, n) && t <= |a.trace| && LifeUncleared(a, t, n, k)
    requires HoldsAt(a.cfg, a.dirs, a.trace[..t], n, k, a.start)
    ensures Has(b.start, k)
  {
    AllTaken(a.cfg, a.dirs, a.trace, n, a.start);
    HoldsOn(a.cfg, a.dirs, a.trace, t, |a.trace|, n, k, a.start);
    assert a.trace[..|a.trace|] == a.trace;
  }

  lemma StartHolds(l: Life, n: string, k: string)
    requires Has(l.start, k)
    ensures HoldsAt(l.cfg, l.dirs, l.trace[..0], n, k, l.start)
  {
    assert l.trace[..0] == [];
  }

  /** Life `b` starts with a last success that has `k` if life `a` does. */
  ghost predicate Passes(a: Life, b: Life, k: string) {
    Has(a.start, k) ==> Has(b.start, k)
  }

  lemma UnclearedPasses(a: Life, b: Life, n: string, k: string)
    requires FaithfulLife(a, n) && Follows(a, b, n) && LifeUncleared(a, 0, n, k)
    ensures Passes(a, b, k)
  {
    if Has(a.start, k) {
      StartHolds(a, n, k);
      LifeHolds(a, b, 0, n, k);
    }
  }

  lemma {:induction false} PassedOn(lives: seq<Life>, p: nat, q: nat, k: string)
    requires p <= q < |lives| && Has(lives[p].start, k) && forall r | p <= r < q :: Passes(lives[r], lives[r + 1], k)
    ensures Has(lives[q].start, k)
    decreases q
  {
    if p < q {
      PassedOn(lives, p, q - 1, k);
      assert Passes(lives[q - 1], lives[q - 1 + 1], k);
    }
  }

  lemma PostPasses(a: Life, b: Life, i: nat, n: string, k: string)
    requires FaithfulLife(a, n) && Follows(a, b, n) && i < |a.trace| && PostsAt(a.cfg, a.dirs, a.trace, i, n, k)
    requires LifeUncleared(a, i + 1, n, k)
    ensures Has(b.start, k)
  {
    HoldsAfterPost(a.cfg, a.dirs, a.trace, i, n, k, a.start);
    LifeHolds(a, b, i + 1, n, k);
  }

  /** After a post of `k` in life `p` that nothing cleared, every later life starts with a last success that
      has it. */
  lemma StartHas(lives: seq<Life>, p: nat, i: nat, q: nat, n: string, k: string)
    requires p < q < |lives| && FaithfulLives(lives, n) && PostsIn(lives, p, i, n, k)
    requires LifeUncleared(lives[p], i + 1, n, k)
    requires forall r | p < r < q :: LifeUncleared(lives[r], 0, n, k)
    ensures Has(lives[q].start, k)
  {
    PostPasses(lives[p], lives[p + 1], i, n, k);
    forall r | p + 1 <= r < q
      ensures Passes(lives[r], lives[r + 1], k)
    {
      UnclearedPasses(lives[r], lives[r + 1], n, k);
    }
    PassedOn(lives, p + 1, q, k);
  }

  /** Whatever restarts lie between two posts of one key for one cluster, a successful scan of it without
      the key lies between them too. */
  lemma RepeatNeedsGapOverRestarts(lives: seq<Life>, p: nat, i: nat, q: nat, j: nat, n: string, k: string)
    requires FaithfulLives(lives, n) && Earlier(p, i, q, j)
    requires PostsIn(lives, p, i, n, k) && PostsIn(lives, q, j, n, k)
    ensures exists r: nat, m: nat :: Earlier(p, i, r, m) && Earlier(r, m, q, j) && ClearsIn(lives, r, m, n, k)
  {
    var l := lives[q];
    if p == q {
      RepeatNeedsGap(l.cfg, l.dirs, l.trace, i, j, n, k, l.start);
      var m :| i < m < j && ClearsAt(l.cfg, l.dirs, l.trace, m, n, k);
      assert Earlier(p, i, q, m) && Earlier(q, m, q, j) && ClearsIn(lives, q, m, n, k);
    } else if !LifeUncleared(lives[p], i + 1, n, k) {
      var m :| i + 1 <= m < |lives[p].trace| && ClearsAt(lives[p].cfg, lives[p].dirs, lives[p].trace, m, n, k);
      assert Earlier(p, i, p, m) && Earlier(p, m, q, j) && ClearsIn(lives, p, m, n, k);
    } else if r :| p < r < q && !LifeUncleared(lives[r], 0, n, k) {
      var m :| 0 <= m < |lives[r].trace| && ClearsAt(lives[r].cfg, lives[r].dirs, lives[r].trace, m, n, k);
      assert Earlier(p, i, r, m) && Earlier(r, m, q, j) && ClearsIn(lives, r, m, n, k);
    } else {
      StartHas(lives, p, i, q, n, k);
      StartHolds(l, n, k);
      PostNeedsGap(l.cfg, l.dirs, l.trace, 0, j, n, k, l.start);
      var m :| 0 <= m < j && ClearsAt(l.cfg, l.dirs, l.trace, m, n, k);
      assert Earlier(p, i, q, m) && Earlier(q, m, q, j) && ClearsIn(lives, q, m, n, k);
    }
  }

  // When lives are faithful.

  /** A life on the common history directory that persists what it records. */
  ghost predicate PersistentLife(l: Life, historyDir: string, names: set<string>) {
    && l.cfg.historyDir == historyDir && Unshared(l.cfg, names) && EverListed(l.trace) <= names
    && Legal(l.cfg, l.dirs, l.trace) && Persistent(l.cfg, l.dirs, l.trace)
  }

  ghost predicate DiskHasLast(cfg: Config, dirs: map<string, Dir>, n: string, last: Option<Report>) {
    last in {None, LastOnDisk(cfg, dirs, n)}
  }

  lemma OnDiskLast(cfg: Config, w: World, n: string)
    requires DirFor(cfg, n) != ""
    ensures OnDisk(cfg, w, n).last == LastOnDisk(cfg, w.fleet.dirs, n)
  {
  }

  /** One persistent life leaves its last success as the last report on disk. */
  lemma LifeKeepsLast(l: Life, historyDir: string, names: set<string>, n: string)
    requires historyDir != "" && n in names && PersistentLife(l, historyDir, names)
    requires DiskHasLast(l.cfg, l.dirs, n, l.start)
    ensures DiskHasLast(l.cfg, After(l.cfg, l.dirs, l.trace).fleet.dirs, n, LastEver(l.cfg, l.dirs, l.trace, n, l.start))
  {
    HistorySurvivesDrops(l.cfg, l.dirs, l.trace, names, n);
    LastOfBoth(Readable(DirAt(l.dirs, DirFor(l.cfg, n))), AllRuns(l.cfg, l.dirs, l.trace, n));
    DirForNotEmpty(l.cfg, n);
    OnDiskLast(l.cfg, After(l.cfg, l.dirs, l.trace), n);
  }

  lemma {:induction false} StartOnDisk(lives: seq<Life>, p: nat, historyDir: string, names: set<string>, n: string)
    requires p < |lives| && historyDir != "" && n in names && Chained(lives, n)
    requires forall r | 0 <= r < |lives| :: PersistentLife(lives[r], historyDir, names)
    ensures DiskHasLast(lives[p].cfg, lives[p].dirs, n, lives[p].start)
  {
    if p > 0 {
      StartOnDisk(lives, p - 1, historyDir, names, n);
      NextOnDisk(lives[p - 1], lives[p - 1 + 1], historyDir, names, n);
    }
  }

  lemma NextOnDisk(a: Life, b: Life, historyDir: string, names: set<string>, n: string)
    requires historyDir != "" && n in names && Follows(a, b, n)
    requires PersistentLife(a, historyDir, names) && b.cfg.historyDir == historyDir
    requires DiskHasLast(a.cfg, a.dirs, n, a.start)
    ensures DiskHasLast(b.cfg, b.dirs, n, b.start)
  {
    LifeKeepsLast(a, historyDir, names, n);
    SameDisk(a.cfg, b.cfg, b.dirs, n, b.start);
  }

  lemma SameDisk(a: Config, b: Config, dirs: map<string, Dir>, n: string, last: Option<Report>)
    requires a.historyDir == b.historyDir && DiskHasLast(a, dirs, n, last)
    ensures DiskHasLast(b, dirs, n, last)
  {
    assert DirFor(a, n) == DirFor(b, n);
  }

  /** Lives that persist are faithful, however often the process restarts and whatever limits it is given. */
  lemma PersistentLivesAreFaithful(lives: seq<Life>, historyDir: string, names: set<string>, n: string)
    requires historyDir != "" && n in names && Chained(lives, n)
    requires forall p | 0 <= p < |lives| :: PersistentLife(lives[p], historyDir, names)
    ensures FaithfulLives(lives, n)
  {
    forall p | 0 <= p < |lives|
      ensures FaithfulLife(lives[p], n)
    {
      var l := lives[p];
      assert PersistentLife(l, historyDir, names);
      StartOnDisk(lives, p, historyDir, names, n);
      PersistentIsFaithful(l.cfg, l.dirs, l.trace, names, n, l.start);
    }
  }

  /** So are lives in memory. */
  lemma MemoryLivesAreFaithful(lives: seq<Life>, n: string)
    requires Chained(lives, n)
    requires forall p | 0 <= p < |lives| ::
               lives[p].cfg.historyDir == "" && Legal(lives[p].cfg, lives[p].dirs, lives[p].trace)
    ensures FaithfulLives(lives, n)
  {
    forall p | 0 <= p < |lives|
      ensures FaithfulLife(lives[p], n)
    {
      MemoryIsFaithful(lives[p].cfg, lives[p].dirs, lives[p].trace, n, lives[p].start);
    }
  }

  // Down to a team's webhook.

  ghost function PostedAt(cfg: Config, dirs: map<string, Dir>, trace: seq<Event>, i: nat, n: string): seq<LocatedFinding>
    requires i < |trace|
  {
    var w := After(cfg, dirs, trace[..i]);
    if !FinishesFor(w, trace[i], n) then []
    else
      var p := Posted(cfg, w.fleet.states[n], trace[i].attempt);
      if p.Some? then p.value else []
  }

  /** The webhook of team `t` receives key `k` from the scan of cluster `n` that event `i` finishes. */
  ghost predicate HearsAt(cfg: Config, dirs: map<string, Dir>, trace: seq<Event>, i: nat, n: string,
                          r: Router, t: string, k: string)
    requires i < |trace|
  {
    t in r.teams && k in Keys(TeamPost(r, PostedAt(cfg, dirs, trace, i, n), t))
  }

  lemma TeamKeysPosted(r: Router, fs: seq<LocatedFinding>, t: string)
    requires t in r.teams
    ensures Keys(TeamPost(r, fs, t)) <= Keys(fs)
  {
    forall f | f in TeamPost(r, fs, t)
      ensures f in fs
    {
      TeamHearsExactlyItsOwn(r, fs, t, f);
      assert f in multiset(TeamPost(r, fs, t));
      assert f in multiset(fs);
    }
  }

  ghost predicate HearsIn(lives: seq<Life>, p: nat, i: nat, n: string, r: Router, t: string, k: string) {
    p < |lives| && i < |lives[p].trace| && HearsAt(lives[p].cfg, lives[p].dirs, lives[p].trace, i, n, r, t, k)
  }

  /** A team is told of a finding again only after a successful scan of the cluster without it, restarts
      of the process and changes of the router included. */
  lemma TeamHearsAgainAfterGap(lives: seq<Life>, p: nat, i: nat, q: nat, j: nat, n: string,
                               before: Router, now: Router, t: string, k: string)
    requires FaithfulLives(lives, n) && Earlier(p, i, q, j)
    requires HearsIn(lives, p, i, n, before, t, k) && HearsIn(lives, q, j, n, now, t, k)
    ensures exists r: nat, m: nat :: Earlier(p, i, r, m) && Earlier(r, m, q, j) && ClearsIn(lives, r, m, n, k)
  {
    TeamKeysPosted(before, PostedAt(lives[p].cfg, lives[p].dirs, lives[p].trace, i, n), t);
    TeamKeysPosted(now, PostedAt(lives[q].cfg, lives[q].dirs, lives[q].trace, j, n), t);
    RepeatNeedsGapOverRestarts(lives, p, i, q, j, n, k);
  }
}
