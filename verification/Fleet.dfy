/** The fleet manager's critical sections as functions of the whole fleet state. */
module Fleet {
  import opened Paths
  import opened Reports
  import opened Timestamps
  import opened HistoryLog
  import opened HistoryStore

  datatype Cluster = Cluster(name: string, server: string)

  /** `historyDir` "" keeps every history in memory. */
  datatype Config = Config(historyDir: string, historyLimit: int, notifying: bool)

  datatype State = State(cluster: Cluster, report: Option<Report>, log: Log, lastScan: Option<Instant>,
                         lastDuration: nat, lastErr: Option<string>, scans: nat, scanErrors: nat)

  datatype Fleet = Fleet(states: map<string, State>, order: seq<string>, dirs: map<string, Dir>)

  datatype Result = Scanned(report: Report) | Failure(error: string)

  /** One finished scan: when, how long it took, with what outcome, and how persisting its report ended. */
  datatype Attempt = Attempt(at: Instant, took: nat, result: Result, write: Write, stuck: set<string>)

  /** What the disk refuses during a refresh. */
  datatype Faults = Faults(unmakeable: set<string>, stuck: set<string>)

  predicate PlainChar(c: char) {
    'a' <= c <= 'z' || 'A' <= c <= 'Z' || '0' <= c <= '9' || c == '-' || c == '_' || c == '.'
  }

  function SanitizeName(name: string): string {
    seq(|name|, i requires 0 <= i < |name| => if PlainChar(name[i]) then name[i] else '-')
  }

  method Sanitize(name: string) returns (s: string)
    ensures s == SanitizeName(name)
  {
    s := "";
    for i := 0 to |name|
      invariant s == SanitizeName(name)[..i]
    {
      s := s + [if PlainChar(name[i]) then name[i] else '-'];
    }
    assert SanitizeName(name)[..|name|] == SanitizeName(name);
  }

  function DirFor(cfg: Config, name: string): string {
    if cfg.historyDir == "" then "" else Join(cfg.historyDir, SanitizeName(name))
  }

  /** The directory a new store really uses: memory when the wanted one cannot be made. */
  function OpenedDir(cfg: Config, name: string, faults: Faults): string {
    var dir := DirFor(cfg, name);
    if dir in faults.unmakeable then "" else dir
  }

  predicate Dashed(c: char) {
    !PlainChar(c) || c == '-'
  }

  /** The names differ only in characters that a directory name cannot keep. */
  predicate SameSegment(a: string, b: string) {
    |a| == |b| && forall i | 0 <= i < |a| :: a[i] == b[i] || (Dashed(a[i]) && Dashed(b[i]))
  }

  lemma SanitizedAlike(a: string, b: string)
    ensures SanitizeName(a) == SanitizeName(b) <==> SameSegment(a, b)
    ensures '/' !in SanitizeName(a)
    ensures SanitizeName(a) in {"", ".", ".."} <==> a in {"", ".", ".."}
    ensures SanitizeName(a) in {"", "."} <==> a in {"", "."}
  {
    var s, t := SanitizeName(a), SanitizeName(b);
    if s == t {
      forall i | 0 <= i < |a|
        ensures a[i] == b[i] || (Dashed(a[i]) && Dashed(b[i]))
      {
        assert s[i] == t[i];
      }
    } else if |a| == |b| {
      var i :| 0 <= i < |a| && s[i] != t[i];
    }
    DotsKept(a);
  }

  lemma DotsKept(a: string)
    ensures SanitizeName(a) == "" <==> a == ""
    ensures SanitizeName(a) == "." <==> a == "."
    ensures SanitizeName(a) == ".." <==> a == ".."
  {
    var s := SanitizeName(a);
    if |a| == 1 {
      assert s == [s[0]] && a == [a[0]];
    } else if |a| == 2 {
      assert s == [s[0], s[1]] && a == [a[0], a[1]];
    }
  }

  /** Two clusters share a history directory exactly when their names give one segment, both name the
      history directory itself, or both stay at the root because that is where it is. */
  lemma SharedDirectory(cfg: Config, a: string, b: string)
    requires cfg.historyDir != ""
    ensures DirFor(cfg, a) == DirFor(cfg, b) <==>
            || SameSegment(a, b)
            || (a in {"", "."} && b in {"", "."})
            || (Clean(cfg.historyDir) == ROOT && a in {"", ".", ".."} && b in {"", ".", ".."})
  {
    var p, s, t := Clean(cfg.historyDir), SanitizeName(a), SanitizeName(b);
    SanitizedAlike(a, b);
    SanitizedAlike(b, a);
    CleanWellFormed(cfg.historyDir);
    JoinEnters(cfg.historyDir, s);
    JoinEnters(cfg.historyDir, t);
    TextInjective(Enter(p, s), Enter(p, t));
    EnterCollides(p, s, t);
  }

  /** The registrable names "." and ".." leave the cluster's own directory: the first keeps its history in
      the common directory, the second in the one above. */
  lemma DotsEscape(cfg: Config)
    requires cfg.historyDir != ""
    ensures DirFor(cfg, ".") == Text(Clean(cfg.historyDir))
    ensures DirFor(cfg, "..") == Text(Enter(Clean(cfg.historyDir), ".."))
  {
    DotsKept(".");
    DotsKept("..");
    JoinEnters(cfg.historyDir, ".");
    JoinEnters(cfg.historyDir, "..");
  }

  /** A cluster's directory is a segment of its own right below the common one. */
  ghost predicate OwnDirectory(cfg: Config, name: string) {
    exists part :: Proper(part) && part != ".." && DirFor(cfg, name) == Text(Enter(Clean(cfg.historyDir), part))
  }

  /** These two and the empty name are the only ones that do. */
  lemma OwnDirectoryExactly(cfg: Config, name: string)
    requires cfg.historyDir != ""
    ensures OwnDirectory(cfg, name) <==> name !in {"", ".", ".."}
  {
    var p, s := Clean(cfg.historyDir), SanitizeName(name);
    SanitizedAlike(name, name);
    CleanWellFormed(cfg.historyDir);
    JoinEnters(cfg.historyDir, s);
    if name !in {"", ".", ".."} {
      assert Proper(s) && s != "..";
    } else if part :| Proper(part) && part != ".." && DirFor(cfg, name) == Text(Enter(p, part)) {
      TextInjective(Enter(p, s), Enter(p, part));
      EnterSize(p, s);
      EnterSize(p, part);
    }
  }

  lemma DirForNotEmpty(cfg: Config, name: string)
    requires cfg.historyDir != ""
    ensures DirFor(cfg, name) != ""
  {
    SanitizedAlike(name, name);
    CleanWellFormed(cfg.historyDir);
    JoinEnters(cfg.historyDir, SanitizeName(name));
    RootShows(Enter(Clean(cfg.historyDir), SanitizeName(name)));
  }

  function Names(clusters: seq<Cluster>): set<string> {
    set c | c in clusters :: c.name
  }

  ghost predicate UniqueNames(clusters: seq<Cluster>) {
    forall i, j | 0 <= i < j < |clusters| :: clusters[i].name != clusters[j].name
  }

  /** What a store opened on a directory shows. */
  ghost function DirLog(cfg: Config, dirs: map<string, Dir>, dir: string): Log {
    Reloaded(dir, Clamp(cfg.historyLimit), DirAt(dirs, dir))
  }

  ghost function OpenedLog(cfg: Config, name: string, dirs: map<string, Dir>, faults: Faults): Log {
    DirLog(cfg, dirs, OpenedDir(cfg, name, faults))
  }

  /** A cluster's state right after registration. */
  ghost function NewState(cfg: Config, c: Cluster, dirs: map<string, Dir>, faults: Faults): State {
    State(c, None, OpenedLog(cfg, c.name, dirs, faults), None, 0, None, 0, 0)
  }

  ghost function DirsAfterOpen(cfg: Config, c: Cluster, dirs: map<string, Dir>, faults: Faults): map<string, Dir> {
    var dir := OpenedDir(cfg, c.name, faults);
    WithDir(dirs, dir, ReloadedDir(Clamp(cfg.historyLimit), DirAt(dirs, dir), faults.stuck))
  }

  ghost function Registered(cfg: Config, f: Fleet, c: Cluster, faults: Faults): Fleet {
    if c.name in f.states
    then f.(order := f.order + [c.name], states := f.states[c.name := f.states[c.name].(cluster := c)])
    else Fleet(f.states[c.name := NewState(cfg, c, f.dirs, faults)], f.order + [c.name],
               DirsAfterOpen(cfg, c, f.dirs, faults))
  }

  ghost function RegisteredAll(cfg: Config, f: Fleet, clusters: seq<Cluster>, faults: Faults): Fleet {
    if clusters == [] then f
    else Registered(cfg, RegisteredAll(cfg, f, clusters[..|clusters| - 1], faults), clusters[|clusters| - 1], faults)
  }

  function Kept(states: map<string, State>, live: set<string>): map<string, State> {
    map n | n in states && n in live :: states[n]
  }

  /** The first critical section of `ScanAll`: the registry as just listed. */
  ghost function Refreshed(cfg: Config, f: Fleet, clusters: seq<Cluster>, faults: Faults): Fleet {
    RegisteredAll(cfg, Fleet(Kept(f.states, Names(clusters)), [], f.dirs), clusters, faults)
  }

  /** What one finished scan does to its cluster. */
  function AfterAttempt(st: State, a: Attempt): State {
    var st := st.(scans := st.scans + 1, lastScan := Some(a.at), lastDuration := a.took);
    match a.result
    case Failure(e) => st.(scanErrors := st.scanErrors + 1, lastErr := Some(e))
    case Scanned(r) =>
      st.(lastErr := None, report := Some(r), log := Appended(st.log, r, FileName(r.generatedAt), a.write))
  }

  function DirsAfterAttempt(st: State, dirs: map<string, Dir>, a: Attempt): map<string, Dir> {
    match a.result
    case Failure(_) => dirs
    case Scanned(r) =>
      WithDir(dirs, st.log.dir,
              AppendedDir(st.log, DirAt(dirs, st.log.dir), r, FileName(r.generatedAt), a.write, a.stuck))
  }

  /** The second critical section of `ScanAll`, for a cluster that still has a state. */
  function Finished(f: Fleet, name: string, a: Attempt): Fleet
    requires name in f.states
  {
    var st := f.states[name];
    f.(states := f.states[name := AfterAttempt(st, a)], dirs := DirsAfterAttempt(st, f.dirs, a))
  }

  ghost function NewIn(log: Log): Option<seq<LocatedFinding>> {
    var d := LastDiff(log);
    if d.Some? && |d.value.appeared| > 0 then Some(d.value.appeared) else None
  }

  /** The findings handed to the sink by a finished scan, None when nothing is posted. */
  ghost function Posted(cfg: Config, st: State, a: Attempt): Option<seq<LocatedFinding>> {
    if !cfg.notifying || a.result.Failure? then None else NewIn(AfterAttempt(st, a).log)
  }

  // What a refresh does, name by name.

  function OrderOf(clusters: seq<Cluster>): seq<string> {
    if clusters == [] then [] else OrderOf(clusters[..|clusters| - 1]) + [clusters[|clusters| - 1].name]
  }

  /** A state nothing has been scanned into yet. */
  predicate Unscanned(st: State) {
    st.report == None && st.lastErr == None && st.lastScan == None && st.lastDuration == st.scans == st.scanErrors == 0
  }

  /** A state fresh from registration, whatever its directory held. */
  ghost predicate Created(cfg: Config, st: State) {
    && Unscanned(st) && (cfg.historyDir == "" ==> st.log.dir == "")
    && exists d: Dir :: st.log == Reloaded(st.log.dir, Clamp(cfg.historyLimit), d)
  }

  /** Cluster `n` was registered when the disk held `dirs`: its history is what its directory held then. */
  ghost predicate RegisteredOn(cfg: Config, n: string, dirs: map<string, Dir>, faults: Faults, st: State) {
    Unscanned(st) && st.log == OpenedLog(cfg, n, dirs, faults)
  }

  /** Every directory still opens to the same history. */
  ghost predicate SameLogs(cfg: Config, before: map<string, Dir>, now: map<string, Dir>) {
    forall dir :: DirLog(cfg, now, dir) == DirLog(cfg, before, dir)
  }

  /** Opening a store prunes its directory without changing what any directory opens to. */
  lemma OpenKeepsLogs(cfg: Config, c: Cluster, dirs: map<string, Dir>, faults: Faults)
    ensures SameLogs(cfg, dirs, DirsAfterOpen(cfg, c, dirs, faults))
  {
    var mine := OpenedDir(cfg, c.name, faults);
    forall dir
      ensures DirLog(cfg, DirsAfterOpen(cfg, c, dirs, faults), dir) == DirLog(cfg, dirs, dir)
    {
      if dir == mine && dir != "" {
        ReopenStable(dir, Clamp(cfg.historyLimit), DirAt(dirs, dir), faults.stuck);
      }
    }
  }

  /** `g` registers `names` on top of `f`: known states keep everything but their connection details,
      new ones open what their directory held in `f`. */
  ghost predicate Extends(cfg: Config, faults: Faults, f: Fleet, g: Fleet, names: set<string>) {
    && g.states.Keys == f.states.Keys + names
    && (forall n | n in f.states :: g.states[n] == f.states[n].(cluster := g.states[n].cluster))
    && (forall n | n in g.states && n !in f.states :: RegisteredOn(cfg, n, f.dirs, faults, g.states[n]))
    && SameLogs(cfg, f.dirs, g.dirs)
  }

  lemma RegisteredShape(cfg: Config, f: Fleet, g: Fleet, names: set<string>, c: Cluster, faults: Faults)
    requires Extends(cfg, faults, f, g, names)
    ensures Extends(cfg, faults, f, Registered(cfg, g, c, faults), names + {c.name})
  {
    var h := Registered(cfg, g, c, faults);
    if c.name !in g.states {
      OpenKeepsLogs(cfg, c, g.dirs, faults);
      assert DirLog(cfg, g.dirs, OpenedDir(cfg, c.name, faults)) == DirLog(cfg, f.dirs, OpenedDir(cfg, c.name, faults));
    }
    StateReplaced(cfg, faults, f, g, h, names, c.name);
  }

  lemma StateReplaced(cfg: Config, faults: Faults, f: Fleet, g: Fleet, h: Fleet, names: set<string>, n: string)
    requires Extends(cfg, faults, f, g, names) && n in h.states && h.states == g.states[n := h.states[n]]
    requires if n in g.states then h.states[n] == g.states[n].(cluster := h.states[n].cluster)
             else RegisteredOn(cfg, n, f.dirs, faults, h.states[n])
    requires SameLogs(cfg, f.dirs, h.dirs)
    ensures Extends(cfg, faults, f, h, names + {n})
  {
    assert h.states.Keys == g.states.Keys + {n};
    forall m | m in f.states
      ensures h.states[m] == f.states[m].(cluster := h.states[m].cluster)
    {
      assert m in g.states && g.states[m] == f.states[m].(cluster := g.states[m].cluster);
    }
    forall m | m in h.states && m !in f.states
      ensures RegisteredOn(cfg, m, f.dirs, faults, h.states[m])
    {
      assert m in g.states ==> RegisteredOn(cfg, m, f.dirs, faults, g.states[m]);
    }
  }

  lemma {:induction false} RegisteredAllShape(cfg: Config, f: Fleet, clusters: seq<Cluster>, faults: Faults)
    ensures Extends(cfg, faults, f, RegisteredAll(cfg, f, clusters, faults), Names(clusters))
  {
    if clusters == [] {
    } else {
      var init, c := clusters[..|clusters| - 1], clusters[|clusters| - 1];
      assert init + [c] == clusters;
      RegisteredAllShape(cfg, f, init, faults);
      NamesGrow(init, c);
      RegisteredShape(cfg, f, RegisteredAll(cfg, f, init, faults), Names(init), c, faults);
    }
  }

  lemma {:induction false} RegisteredAllOrder(cfg: Config, f: Fleet, clusters: seq<Cluster>, faults: Faults)
    ensures RegisteredAll(cfg, f, clusters, faults).order == f.order + OrderOf(clusters)
  {
    if clusters != [] {
      RegisteredAllOrder(cfg, f, clusters[..|clusters| - 1], faults);
    }
  }

  lemma NamesGrow(clusters: seq<Cluster>, c: Cluster)
    ensures Names(clusters + [c]) == Names(clusters) + {c.name}
  {
    assert c in clusters + [c];
    assert forall x | x in clusters :: x in clusters + [c];
  }

  lemma {:induction false} OrderListsNames(clusters: seq<Cluster>)
    ensures forall n :: n in OrderOf(clusters) <==> n in Names(clusters)
  {
    if clusters != [] {
      var init, c := clusters[..|clusters| - 1], clusters[|clusters| - 1];
      OrderListsNames(init);
      NamesGrow(init, c);
      assert init + [c] == clusters;
    }
  }

  /** After a refresh exactly the listed clusters have a state, the order names exactly them,
      a cluster that was known keeps its counters, report and history, and a new one has no scans and
      the history its directory held before the refresh, even when listed clusters share one. */
  lemma RefreshShape(cfg: Config, f: Fleet, clusters: seq<Cluster>, faults: Faults)
    ensures var g := Refreshed(cfg, f, clusters, faults);
            && g.states.Keys == Names(clusters)
            && g.order == OrderOf(clusters)
            && (forall n :: n in g.order <==> n in g.states)
            && (forall n | n in f.states && n in g.states :: g.states[n] == f.states[n].(cluster := g.states[n].cluster))
            && (forall n | n in g.states && n !in f.states :: RegisteredOn(cfg, n, f.dirs, faults, g.states[n]))
            && SameLogs(cfg, f.dirs, g.dirs)
  {
    var start := Fleet(Kept(f.states, Names(clusters)), [], f.dirs);
    RegisteredAllShape(cfg, start, clusters, faults);
    RegisteredAllOrder(cfg, start, clusters, faults);
    OrderListsNames(clusters);
    assert start.states.Keys <= Names(clusters);
  }
}
