/** The single-cluster server's report cache: reads, forced refreshes, failed runs and ownership
    updates, each one critical section. Times are milliseconds of a monotonic clock. */
module ReportCache {
  import opened Ordering
  import opened Reports
  import opened Diffs

  /** What one analysis observes: findings by namespace and section, and the namespaces' team labels. */
  datatype Snapshot = Snapshot(report: Report, labels: map<string, string>)

  /** `AssignTeams`: the mapping wins, then the label; untouched when neither is configured. */
  function TeamFor(ns: NamespaceSection, teamOf: map<string, string>, useLabels: bool,
                   labels: map<string, string>): string
  {
    if |teamOf| == 0 && !useLabels then ns.team
    else if ns.name in teamOf && teamOf[ns.name] != "" then teamOf[ns.name]
    else if useLabels && ns.name in labels then labels[ns.name]
    else ""
  }

  function Analyzed(s: Snapshot, teamOf: map<string, string>, useLabels: bool): Report {
    var nss := s.report.namespaces;
    s.report.(namespaces := seq(|nss|, i requires 0 <= i < |nss| =>
      nss[i].(team := TeamFor(nss[i], teamOf, useLabels, s.labels))))
  }

  /** Every namespace the mapping names carries exactly the mapped team. */
  lemma AnalysisStampsOwners(s: Snapshot, teamOf: map<string, string>, useLabels: bool)
    ensures forall ns | ns in Analyzed(s, teamOf, useLabels).namespaces ::
              ns.name in teamOf && teamOf[ns.name] != "" ==> ns.team == teamOf[ns.name]
  {
  }

  /** `teamOf` is the mapping configured at the start. `loaded` are the reports the history store found when
      it was opened; None when there is no store. */
  datatype Options = Options(ttl: int, teamOf: map<string, string>, useLabels: bool, notifying: bool,
                             loaded: Option<seq<Report>>)

  datatype Cached = Cached(report: Report, at: int)

  /** `history` is the full log behind the store, whose last two reports decide what is posted. */
  datatype State = State(teamOf: map<string, string>, cached: Option<Cached>, runs: nat, runErrors: nat,
                         lastDuration: int, history: Option<seq<Report>>)

  /** A read at time `now`; if it runs the analysis, that ends at `done` with a snapshot or an error.
      An update installs a freshly read mapping, None when reading it failed. */
  datatype Op =
    | Read(force: bool, now: int, done: int, outcome: Option<Snapshot>)
    | Update(mapping: Option<map<string, string>>)

  predicate Hit(o: Options, s: State, op: Op)
    requires op.Read?
  {
    !op.force && s.cached.Some? && op.now - s.cached.value.at < o.ttl
  }

  function Step(o: Options, s: State, op: Op): State {
    match op
    case Update(m) => if m.None? then s else s.(teamOf := m.value, cached := None)
    case Read(_, now, done, outcome) =>
      if Hit(o, s, op) then s
      else if outcome.None? then s.(runs := s.runs + 1, runErrors := s.runErrors + 1, lastDuration := done - now)
      else
        var r := Analyzed(outcome.value, s.teamOf, o.useLabels);
        s.(runs := s.runs + 1, lastDuration := done - now, cached := Some(Cached(r, done)),
           history := Appended(s.history, r))
  }

  function Appended(history: Option<seq<Report>>, r: Report): Option<seq<Report>> {
    if history.None? then None else Some(history.value + [r])
  }

  /** The new findings of the last run of a history, None when there are none or no run before it. */
  ghost function NewInLast(history: Option<seq<Report>>): Option<seq<LocatedFinding>> {
    if history.None? || |history.value| < 2 then None
    else
      var h := history.value;
      var d := DiffOf(h[|h| - 2], h[|h| - 1]);
      if |d.appeared| > 0 then Some(d.appeared) else None
  }

  /** What a read hands to the sink. */
  ghost function Posted(o: Options, s: State, op: Op): Option<seq<LocatedFinding>>
    requires op.Read?
  {
    if Hit(o, s, op) || op.outcome.None? || !o.notifying then None else NewInLast(Step(o, s, op).history)
  }

  /** The reply to a read, None for an error. */
  function Reply(o: Options, s: State, op: Op): Option<Report>
    requires op.Read?
  {
    if Hit(o, s, op) then Some(s.cached.value.report)
    else if op.outcome.None? then None
    else Some(Analyzed(op.outcome.value, s.teamOf, o.useLabels))
  }

  function Fresh(o: Options): State {
    State(o.teamOf, None, 0, 0, 0, o.loaded)
  }

  function Execute(o: Options, s: State, ops: seq<Op>): State {
    if ops == [] then s else Step(o, Execute(o, s, ops[..|ops| - 1]), ops[|ops| - 1])
  }

  /** The server object. */
  class Server {
    const options: Options
    const fixture: Option<Report>
    var teamOf: map<string, string>
    var cached: Option<Report>
    var cachedAt: int
    var runs: nat
    var runErrors: nat
    var lastDuration: int
    var history: Option<seq<Report>>

    ghost function View(): State
      reads this
    {
      State(teamOf, if cached.Some? then Some(Cached(cached.value, cachedAt)) else None, runs, runErrors,
            lastDuration, history)
    }

    constructor (options: Options, fixture: Option<Report>)
      ensures View() == Fresh(options) && this.options == options && this.fixture == fixture
    {
      this.options, this.fixture := options, fixture;
      teamOf, cached, cachedAt, runs, runErrors, lastDuration, history :=
        options.teamOf, None, 0, 0, 0, 0, options.loaded;
    }

    /** `report`; a fixture is served without touching anything. */
    method GetReport(force: bool, now: int, done: int, outcome: Option<Snapshot>)
      returns (r: Option<Report>, post: Option<seq<LocatedFinding>>)
      modifies this
      ensures fixture.Some? ==> r == fixture && post == None && View() == old(View())
      ensures fixture.None? ==>
                && r == Reply(options, old(View()), Read(force, now, done, outcome))
                && post == Posted(options, old(View()), Read(force, now, done, outcome))
                && View() == Step(options, old(View()), Read(force, now, done, outcome))
    {
      if fixture.Some? {
        return fixture, None;
      }
      if !force && cached.Some? && now - cachedAt < options.ttl {
        return cached, None;
      }
      runs, lastDuration := runs + 1, done - now;
      if outcome.None? {
        runErrors := runErrors + 1;
        return None, None;
      }
      r, post := Some(Analyzed(outcome.value, teamOf, options.useLabels)), None;
      cached, cachedAt := r, done;
      post := Record(r.value);
    }

    /** The history after a successful run, and what is handed to the sink. */
    method Record(r: Report) returns (post: Option<seq<LocatedFinding>>)
      modifies `history
      ensures history == Appended(old(history), r)
      ensures post == if options.notifying then NewInLast(history) else None
    {
      post := None;
      if history.Some? {
        history := Some(history.value + [r]);
        if options.notifying {
          post := LastNews();
        }
      }
    }

    method LastNews() returns (news: Option<seq<LocatedFinding>>)
      ensures news == NewInLast(history)
    {
      if history.None? || |history.value| < 2 {
        return None;
      }
      var h := history.value;
      var d := Diff(h[|h| - 2], h[|h| - 1]);
      news := if |d.appeared| > 0 then Some(d.appeared) else None;
    }

    /** `refreshTeams`: a failed read leaves the previous mapping and the cache in place; `handed` is what
        the fleet is given afterwards. */
    method RefreshTeams(mapping: Option<map<string, string>>) returns (handed: Option<map<string, string>>)
      modifies this
      ensures View() == Step(options, old(View()), Update(mapping))
      ensures handed == mapping
    {
      if mapping.Some? {
        teamOf := mapping.value;
        cached := None;
      }
      handed := mapping;
    }
  }

  // Over any sequence of operations.

  /** Read number `k` ran the analysis and succeeded. */
  predicate RanAt(o: Options, ops: seq<Op>, k: nat) {
    k < |ops| && ops[k].Read? && ops[k].outcome.Some? && !Hit(o, Execute(o, Fresh(o), ops[..k]), ops[k])
  }

  /** The cached report comes from the last successful run, was computed with the mapping that is
      current now, and nothing after that run updated the mapping. */
  ghost predicate CacheFrom(o: Options, ops: seq<Op>, k: nat) {
    var s := Execute(o, Fresh(o), ops);
    && RanAt(o, ops, k) && s.cached.Some?
    && s.cached.value == Cached(Analyzed(ops[k].outcome.value, s.teamOf, o.useLabels), ops[k].done)
    && (forall i | k < i < |ops| :: !RanAt(o, ops, i) && !(ops[i].Update? && ops[i].mapping.Some?))
  }

  lemma {:induction false} CacheIsCurrent(o: Options, ops: seq<Op>) returns (k: nat)
    requires Execute(o, Fresh(o), ops).cached.Some?
    ensures CacheFrom(o, ops, k)
  {
    var init, op := ops[..|ops| - 1], ops[|ops| - 1];
    var s := Execute(o, Fresh(o), init);
    if RanAt(o, ops, |ops| - 1) {
      k := |ops| - 1;
    } else {
      k := CacheIsCurrent(o, init);
      RanAtPrefix(o, ops, k);
      forall i | k < i < |ops|
        ensures !RanAt(o, ops, i) && !(ops[i].Update? && ops[i].mapping.Some?)
      {
        if i < |init| {
          RanAtPrefix(o, ops, i);
          assert init[i] == ops[i];
        }
      }
    }
  }

  lemma RanAtPrefix(o: Options, ops: seq<Op>, k: nat)
    requires ops != [] && k < |ops| - 1
    ensures RanAt(o, ops[..|ops| - 1], k) == RanAt(o, ops, k)
  {
    assert ops[..|ops| - 1][..k] == ops[..k];
  }

  /** A reply that did not run the analysis repeats an earlier successful run that ended less than
      the TTL ago, with the ownership that is current now. */
  lemma ServedFreshAndOwned(o: Options, ops: seq<Op>, op: Op) returns (k: nat)
    requires op.Read? && Hit(o, Execute(o, Fresh(o), ops), op)
    ensures CacheFrom(o, ops, k) && op.now - ops[k].done < o.ttl
    ensures Reply(o, Execute(o, Fresh(o), ops), op)
         == Some(Analyzed(ops[k].outcome.value, Execute(o, Fresh(o), ops).teamOf, o.useLabels))
  {
    k := CacheIsCurrent(o, ops);
  }

  /** Any reply, cached or not, carries the current owner of every mapped namespace. */
  lemma RepliesCarryCurrentOwners(o: Options, ops: seq<Op>, op: Op)
    requires op.Read? && Reply(o, Execute(o, Fresh(o), ops), op).Some?
    ensures forall ns | ns in Reply(o, Execute(o, Fresh(o), ops), op).value.namespaces ::
              var teamOf := Execute(o, Fresh(o), ops).teamOf;
              ns.name in teamOf && teamOf[ns.name] != "" ==> ns.team == teamOf[ns.name]
  {
    var s := Execute(o, Fresh(o), ops);
    if Hit(o, s, op) {
      var k := ServedFreshAndOwned(o, ops, op);
      AnalysisStampsOwners(ops[k].outcome.value, s.teamOf, o.useLabels);
    } else {
      AnalysisStampsOwners(op.outcome.value, s.teamOf, o.useLabels);
    }
  }

  /** A failed run answers with an error and changes only the counters and the duration. */
  lemma FailureKeepsCache(o: Options, s: State, op: Op)
    requires op.Read? && op.outcome.None? && !Hit(o, s, op)
    ensures Reply(o, s, op) == None
    ensures var next := Step(o, s, op);
            next == s.(runs := next.runs, runErrors := next.runErrors, lastDuration := next.lastDuration)
  {
  }

  function SuccessfulReports(o: Options, ops: seq<Op>): seq<Report> {
    if ops == [] then []
    else
      var s, op := Execute(o, Fresh(o), ops[..|ops| - 1]), ops[|ops| - 1];
      SuccessfulReports(o, ops[..|ops| - 1]) +
      if op.Read? && op.outcome.Some? && !Hit(o, s, op) then [Analyzed(op.outcome.value, s.teamOf, o.useLabels)] else []
  }

  /** What the history holds after these operations, None without a store. */
  function Recorded(o: Options, ops: seq<Op>): Option<seq<Report>> {
    if o.loaded.None? then None else Some(o.loaded.value + SuccessfulReports(o, ops))
  }

  /** Every run is either counted as an error or successful, and the successful ones are appended to the
      history, exactly once and in order. */
  lemma {:induction false} RunsAccounted(o: Options, ops: seq<Op>)
    ensures var s := Execute(o, Fresh(o), ops);
            s.runs == s.runErrors + |SuccessfulReports(o, ops)| && s.history == Recorded(o, ops)
  {
    if ops != [] {
      RunsAccounted(o, ops[..|ops| - 1]);
      if o.loaded.Some? {
        var past, op := SuccessfulReports(o, ops[..|ops| - 1]), ops[|ops| - 1];
        assert past + [] == past;
        if op.Read? && op.outcome.Some? {
          var s := Execute(o, Fresh(o), ops[..|ops| - 1]);
          Regroup(o.loaded.value, past, [Analyzed(op.outcome.value, s.teamOf, o.useLabels)]);
        }
      }
    } else if o.loaded.Some? {
      assert o.loaded.value + [] == o.loaded.value;
    }
  }

  ghost function PostKeys(o: Options, s: State, op: Op): set<string>
    requires op.Read?
  {
    if Posted(o, s, op).Some? then Keys(Posted(o, s, op).value) else {}
  }

  lemma NewsKeys(h: seq<Report>, r: Report)
    requires h != []
    ensures var news := NewInLast(Some(h + [r]));
            (if news.Some? then Keys(news.value) else {}) == ReportKeys(r) - ReportKeys(h[|h| - 1])
  {
    var all := h + [r];
    assert all[|all| - 2] == h[|h| - 1] && all[|all| - 1] == r;
    UnknownKeys(Located(r), ReportKeys(h[|h| - 1]));
  }

  lemma NoNewsAtFirst(r: Report)
    ensures NewInLast(Some([] + [r])) == None
  {
  }

  /** After any operations a read posts exactly the keys its report has and the last one of the history
      had not: nothing from the cache, on failure, or without a report before it. */
  lemma ReadPostsNews(o: Options, ops: seq<Op>, op: Op)
    requires op.Read? && o.notifying && o.loaded.Some?
    ensures var s, h := Execute(o, Fresh(o), ops), Recorded(o, ops).value;
            PostKeys(o, s, op)
            == if Hit(o, s, op) || op.outcome.None? || h == [] then {}
               else ReportKeys(Analyzed(op.outcome.value, s.teamOf, o.useLabels)) - ReportKeys(h[|h| - 1])
  {
    RunsAccounted(o, ops);
    var s, h := Execute(o, Fresh(o), ops), Recorded(o, ops).value;
    if !Hit(o, s, op) && op.outcome.Some? {
      var r := Analyzed(op.outcome.value, s.teamOf, o.useLabels);
      assert Step(o, s, op).history == Some(h + [r]);
      if h == [] {
        NoNewsAtFirst(r);
      } else {
        NewsKeys(h, r);
      }
    }
  }
}
