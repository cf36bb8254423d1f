/** When a read of the report runs the analysis, told by the counters and the requests alone. */
module ReportRuns {
  import opened Reports
  import opened Diffs
  import opened ReportCache

  /** The server's state after the first `k` operations. */
  function Before(o: Options, ops: seq<Op>, k: nat): State
    requires k <= |ops|
  {
    Execute(o, Fresh(o), ops[..k])
  }

  /** Operation `k` counted a run and no error. */
  predicate Succeeded(o: Options, ops: seq<Op>, k: nat)
    requires k < |ops|
  {
    && Before(o, ops, k + 1).runs == Before(o, ops, k).runs + 1
    && Before(o, ops, k + 1).runErrors == Before(o, ops, k).runErrors
  }

  predicate Installs(op: Op) {
    op.Update? && op.mapping.Some?
  }

  /** Operation `k` is the last success, nothing installed a mapping since, and it ended less than the TTL
      before `now`. */
  ghost predicate StillGood(o: Options, ops: seq<Op>, k: nat, now: int) {
    && k < |ops| && ops[k].Read? && Succeeded(o, ops, k)
    && (forall i | k < i < |ops| :: !Succeeded(o, ops, i) && !Installs(ops[i]))
    && now - ops[k].done < o.ttl
  }

  lemma StepAt(o: Options, ops: seq<Op>, k: nat)
    requires k < |ops|
    ensures Before(o, ops, k + 1) == Step(o, Before(o, ops, k), ops[k])
  {
    assert ops[..k + 1][..k] == ops[..k];
  }

  lemma SucceededIsRan(o: Options, ops: seq<Op>, k: nat)
    requires k < |ops|
    ensures Succeeded(o, ops, k) <==> RanAt(o, ops, k)
  {
    StepAt(o, ops, k);
  }

  /** As long as there was no success and no installed mapping, the cache stays as it is. */
  lemma {:induction false} CacheStays(o: Options, ops: seq<Op>, k: nat, n: nat)
    requires k <= n <= |ops|
    requires forall i | k <= i < n :: !Succeeded(o, ops, i) && !Installs(ops[i])
    ensures Before(o, ops, n).cached == Before(o, ops, k).cached
    ensures Before(o, ops, n).teamOf == Before(o, ops, k).teamOf
    decreases n
  {
    if k < n {
      CacheStays(o, ops, k, n - 1);
      StepAt(o, ops, n - 1);
      SucceededIsRan(o, ops, n - 1);
    }
  }

  lemma CachedExactly(o: Options, ops: seq<Op>, now: int)
    ensures var s := Execute(o, Fresh(o), ops);
            s.cached.Some? && now - s.cached.value.at < o.ttl <==> exists k :: StillGood(o, ops, k, now)
  {
    var s := Execute(o, Fresh(o), ops);
    assert ops[..|ops|] == ops;
    if s.cached.Some? && now - s.cached.value.at < o.ttl {
      var k := CacheIsCurrent(o, ops);
      SucceededIsRan(o, ops, k);
      forall i | k < i < |ops|
        ensures !Succeeded(o, ops, i) && !Installs(ops[i])
      {
        SucceededIsRan(o, ops, i);
      }
      assert StillGood(o, ops, k, now);
    }
    if k: nat :| StillGood(o, ops, k, now) {
      StepAt(o, ops, k);
      SucceededIsRan(o, ops, k);
      CacheStays(o, ops, k + 1, |ops|);
    }
  }

  /** After any operations a read leaves the run counter alone exactly when it is not forced and the last
      successful run ended less than the TTL ago, with no mapping installed since. In every other case
      it runs the analysis once, and answers with that analysis under the mapping in use, or with an error
      when it failed. */
  lemma ReadRunsExactly(o: Options, ops: seq<Op>, op: Op)
    requires op.Read?
    ensures var s, next := Execute(o, Fresh(o), ops), Execute(o, Fresh(o), ops + [op]);
            && (next.runs == s.runs <==> !op.force && exists k :: StillGood(o, ops, k, op.now))
            && (next.runs != s.runs ==>
                  && next.runs == s.runs + 1 && next.lastDuration == op.done - op.now
                  && next.runErrors == s.runErrors + (if op.outcome.None? then 1 else 0)
                  && Reply(o, s, op) == if op.outcome.None? then None
                                        else Some(Analyzed(op.outcome.value, s.teamOf, o.useLabels)))
            && (next.runs == s.runs ==> next == s)
  {
    assert (ops + [op])[..|ops|] == ops;
    CachedExactly(o, ops, op.now);
  }

  /** In the first case the answer is that of run `k`, with today's mapping. */
  lemma RepeatIsExact(o: Options, ops: seq<Op>, op: Op, k: nat)
    requires op.Read? && !op.force && StillGood(o, ops, k, op.now)
    ensures ops[k].outcome.Some?
    ensures Reply(o, Execute(o, Fresh(o), ops), op)
         == Some(Analyzed(ops[k].outcome.value, Execute(o, Fresh(o), ops).teamOf, o.useLabels))
  {
    assert ops[..|ops|] == ops;
    StepAt(o, ops, k);
    SucceededIsRan(o, ops, k);
    CacheStays(o, ops, k + 1, |ops|);
  }

  /** The mapping in use is the last one installed, or the configured one. */
  lemma {:induction false} MappingIsLatest(o: Options, ops: seq<Op>) returns (k: int)
    ensures -1 <= k < |ops| && forall i | k < i < |ops| :: !Installs(ops[i])
    ensures k >= 0 ==> Installs(ops[k])
    ensures Execute(o, Fresh(o), ops).teamOf == if k >= 0 then ops[k].mapping.value else o.teamOf
  {
    k := -1;
    if ops != [] {
      if Installs(ops[|ops| - 1]) {
        k := |ops| - 1;
      } else {
        k := MappingIsLatest(o, ops[..|ops| - 1]);
      }
    }
  }

  /** The duration is that of the last run, whether it succeeded or not, and zero before the first. */
  lemma {:induction false} DurationIsLast(o: Options, ops: seq<Op>) returns (k: int)
    ensures -1 <= k < |ops| && forall i | k < i < |ops| :: Before(o, ops, i + 1).runs == Before(o, ops, i).runs
    ensures k >= 0 ==> ops[k].Read? && Before(o, ops, k + 1).runs == Before(o, ops, k).runs + 1
    ensures Execute(o, Fresh(o), ops).lastDuration == if k >= 0 then ops[k].done - ops[k].now else 0
  {
    k := -1;
    if ops != [] {
      var n := |ops| - 1;
      StepAt(o, ops, n);
      assert ops[..|ops|] == ops;
      if Before(o, ops, n + 1).runs != Before(o, ops, n).runs {
        k := n;
      } else {
        k := DurationIsLast(o, ops[..n]);
        forall i | 0 <= i <= n
          ensures Before(o, ops[..n], i) == Before(o, ops, i)
        {
          assert ops[..n][..i] == ops[..i];
        }
      }
    }
  }

  /** What the analysis puts on each namespace, and nothing else: the mapped team, else the label where labels
      are used, else none; teams are left alone when neither is configured. */
  lemma AnalysisExactly(s: Snapshot, teamOf: map<string, string>, useLabels: bool)
    ensures var r, nss := Analyzed(s, teamOf, useLabels), s.report.namespaces;
            && r == s.report.(namespaces := r.namespaces) && |r.namespaces| == |nss|
            && forall i | 0 <= i < |nss| ::
                 var ns, name := r.namespaces[i], nss[i].name;
                 && ns.name == name && ns.findings == nss[i].findings
                 && (teamOf == map[] && !useLabels ==> ns.team == nss[i].team)
                 && (name in teamOf && teamOf[name] != "" ==> ns.team == teamOf[name])
                 && ((teamOf != map[] || useLabels) && (name in teamOf ==> teamOf[name] == "") ==>
                       ns.team == if useLabels && name in s.labels then s.labels[name] else "")
  {
  }

  lemma NewsIsAppeared(h: seq<Report>, r: Report)
    ensures NewInLast(Some(h + [r]))
         == if h == [] || DiffOf(h[|h| - 1], r).appeared == [] then None else Some(DiffOf(h[|h| - 1], r).appeared)
  {
    var all := h + [r];
    assert all[|all| - 1] == r && (h != [] ==> all[|all| - 2] == h[|h| - 1]);
  }

  /** A run posts exactly the findings its report adds to the one before, all of them and in order. */
  lemma PostedIsAppeared(o: Options, ops: seq<Op>, op: Op)
    requires op.Read? && o.loaded.Some?
    ensures var s, next := Execute(o, Fresh(o), ops), Execute(o, Fresh(o), ops + [op]);
            var h := Recorded(o, ops).value;
            Posted(o, s, op)
            == if next.runs == s.runs || op.outcome.None? || !o.notifying || h == [] then None
               else var appeared := DiffOf(h[|h| - 1], Analyzed(op.outcome.value, s.teamOf, o.useLabels)).appeared;
                    if appeared == [] then None else Some(appeared)
  {
    assert (ops + [op])[..|ops|] == ops;
    RunsAccounted(o, ops);
    var s := Execute(o, Fresh(o), ops);
    if op.outcome.Some? {
      NewsIsAppeared(Recorded(o, ops).value, Analyzed(op.outcome.value, s.teamOf, o.useLabels));
    }
  }
}
