/** The summary of a report and the renderers that count its findings: JUnit, SARIF and metrics agree. */
module Views {
  import opened Ordering
  import opened Reports
  import opened Diffs

  /** A list of findings as the renderers label it. */
  datatype Group = Group(rule: string, title: string, place: string, section: string, namespace: string,
                         findings: seq<Finding>)

  function NamespaceGroups(nss: seq<NamespaceSection>): seq<Group> {
    seq(|nss|, i requires 0 <= i < |nss| =>
      Group("cluster-guardian/workloads", "Per-namespace workload checks", "namespace/" + nss[i].name,
            "workloads", nss[i].name, nss[i].findings))
  }

  function SectionGroups(secs: seq<Section>): seq<Group> {
    seq(|secs|, i requires 0 <= i < |secs| =>
      Group("cluster-guardian/" + secs[i].id, secs[i].title, secs[i].id, secs[i].id, "", secs[i].findings))
  }

  /** The order every renderer follows: namespaces, then sections. */
  function Groups(r: Report): seq<Group> {
    NamespaceGroups(r.namespaces) + SectionGroups(r.sections)
  }

  function Findings(gs: seq<Group>): seq<Finding> {
    if gs == [] then [] else Findings(gs[..|gs| - 1]) + gs[|gs| - 1].findings
  }

  function Count(fs: seq<Finding>, s: Severity): nat {
    if fs == [] then 0 else Count(fs[..|fs| - 1], s) + if fs[|fs| - 1].severity == s then 1 else 0
  }

  lemma {:induction false} CountConcat(a: seq<Finding>, b: seq<Finding>, s: Severity)
    ensures Count(a + b, s) == Count(a, s) + Count(b, s)
  {
    if b == [] {
      assert a + b == a;
    } else {
      var init, f := b[..|b| - 1], b[|b| - 1];
      CountConcat(a, init, s);
      assert a + b == a + init + [f];
    }
  }

  lemma FindingsOneMore(gs: seq<Group>, i: nat)
    requires i < |gs|
    ensures Findings(gs[..i + 1]) == Findings(gs[..i]) + gs[i].findings
    ensures forall s :: Count(Findings(gs[..i + 1]), s) == Count(Findings(gs[..i]), s) + Count(gs[i].findings, s)
  {
    assert gs[..i + 1][..i] == gs[..i];
    forall s
      ensures Count(Findings(gs[..i + 1]), s) == Count(Findings(gs[..i]), s) + Count(gs[i].findings, s)
    {
      CountConcat(Findings(gs[..i]), gs[i].findings, s);
    }
  }

  lemma {:induction false} CountsAddUp(fs: seq<Finding>)
    ensures |fs| == Count(fs, OK) + Count(fs, Info) + Count(fs, Warning) + Count(fs, Critical)
  {
    if fs != [] {
      CountsAddUp(fs[..|fs| - 1]);
    }
  }

  // The summary.

  function ScoreOf(critical: nat, warnings: nat, info: nat): int {
    var score := 100 - 15 * critical - 4 * warnings - info;
    if score < 0 then 0 else score
  }

  function GradeOf(score: int): string {
    if score >= 90 then "A" else if score >= 80 then "B" else if score >= 70 then "C" else if score >= 60 then "D" else "F"
  }

  function SummaryOf(r: Report): Summary {
    var fs := Findings(Groups(r));
    var score := ScoreOf(Count(fs, Critical), Count(fs, Warning), Count(fs, Info));
    Summary(|r.namespaces|, |fs|, Count(fs, Info), Count(fs, Warning), Count(fs, Critical), score, GradeOf(score))
  }

  method CountFindings(fs: seq<Finding>, s0: Summary) returns (s: Summary)
    ensures s == s0.(total := s0.total + |fs|, info := s0.info + Count(fs, Info),
                     warnings := s0.warnings + Count(fs, Warning), critical := s0.critical + Count(fs, Critical))
  {
    s := s0;
    for i := 0 to |fs|
      invariant s == s0.(total := s0.total + i, info := s0.info + Count(fs[..i], Info),
                         warnings := s0.warnings + Count(fs[..i], Warning),
                         critical := s0.critical + Count(fs[..i], Critical))
    {
      assert fs[..i + 1][..i] == fs[..i];
      s := s.(total := s.total + 1);
      match fs[i].severity
      case OK =>
      case Info => s := s.(info := s.info + 1);
      case Warning => s := s.(warnings := s.warnings + 1);
      case Critical => s := s.(critical := s.critical + 1);
    }
    assert fs[..|fs|] == fs;
  }

  method Finalize(r: Report) returns (finalized: Report)
    ensures finalized == r.(summary := SummaryOf(r))
  {
    var gs := Groups(r);
    var s := Summary(|r.namespaces|, 0, 0, 0, 0, 0, "");
    for i := 0 to |gs|
      invariant var fs := Findings(gs[..i]);
                s == Summary(|r.namespaces|, |fs|, Count(fs, Info), Count(fs, Warning), Count(fs, Critical), 0, "")
    {
      FindingsOneMore(gs, i);
      s := CountFindings(gs[i].findings, s);
    }
    assert gs[..|gs|] == gs;
    var score := ScoreOf(s.critical, s.warnings, s.info);
    finalized := r.(summary := s.(score := score, grade := GradeOf(score)));
  }

  /** The total is the severities' sum and what the run-over-run walk visits; the score is a percentage. */
  lemma SummaryAddsUp(r: Report)
    ensures var s, fs := SummaryOf(r), Findings(Groups(r));
            && s.total == Count(fs, OK) + s.info + s.warnings + s.critical
            && s.total == |Located(r)|
            && 0 <= s.score <= 100
            && (s.score == 100 <==> s.info == s.warnings == s.critical == 0)
  {
    CountsAddUp(Findings(Groups(r)));
    NamespacesSize(r.namespaces);
    SectionsSize(r.sections);
    FindingsConcat(NamespaceGroups(r.namespaces), SectionGroups(r.sections));
  }

  lemma {:induction false} FindingsConcat(a: seq<Group>, b: seq<Group>)
    ensures Findings(a + b) == Findings(a) + Findings(b)
  {
    if b == [] {
      assert a + b == a;
    } else {
      FindingsConcat(a, b[..|b| - 1]);
      assert (a + b)[..|a + b| - 1] == a + b[..|b| - 1];
      Regroup(Findings(a), Findings(b[..|b| - 1]), b[|b| - 1].findings);
    }
  }

  lemma {:induction false} NamespacesSize(nss: seq<NamespaceSection>)
    ensures |InNamespaces(nss)| == |Findings(NamespaceGroups(nss))|
  {
    if nss != [] {
      NamespacesSize(nss[..|nss| - 1]);
      assert NamespaceGroups(nss)[..|nss| - 1] == NamespaceGroups(nss[..|nss| - 1]);
    }
  }

  lemma {:induction false} SectionsSize(secs: seq<Section>)
    ensures |InSections(secs)| == |Findings(SectionGroups(secs))|
  {
    if secs != [] {
      SectionsSize(secs[..|secs| - 1]);
      assert SectionGroups(secs)[..|secs| - 1] == SectionGroups(secs[..|secs| - 1]);
    }
  }

  // JUnit.

  datatype Case = Case(name: string, classname: string, failure: Option<Severity>)

  datatype Suite = Suite(name: string, tests: nat, failures: nat, cases: seq<Case>)

  datatype JUnit = JUnit(tests: nat, failures: nat, suites: seq<Suite>)

  function CaseOf(classname: string, f: Finding): Case {
    Case(f.message, classname, if Rank(f.severity) >= Rank(Warning) then Some(f.severity) else None)
  }

  function SuiteOf(g: Group): Suite {
    Suite(g.place, |g.findings|, Count(g.findings, Warning) + Count(g.findings, Critical),
          seq(|g.findings|, i requires 0 <= i < |g.findings| => CaseOf(g.place, g.findings[i])))
  }

  function SuitesOf(gs: seq<Group>): seq<Suite> {
    if gs == [] then []
    else SuitesOf(gs[..|gs| - 1]) + if gs[|gs| - 1].findings == [] then [] else [SuiteOf(gs[|gs| - 1])]
  }

  lemma SuitesOneMore(gs: seq<Group>, i: nat)
    requires i < |gs|
    ensures SuitesOf(gs[..i + 1]) == SuitesOf(gs[..i]) + if gs[i].findings == [] then [] else [SuiteOf(gs[i])]
  {
    assert gs[..i + 1][..i] == gs[..i];
  }

  method BuildSuite(g: Group) returns (s: Suite)
    ensures s == SuiteOf(g)
  {
    s := Suite(g.place, |g.findings|, 0, []);
    for i := 0 to |g.findings|
      invariant s.name == g.place && s.tests == |g.findings|
      invariant s.failures == Count(g.findings[..i], Warning) + Count(g.findings[..i], Critical)
      invariant s.cases == SuiteOf(g).cases[..i]
    {
      var f := g.findings[i];
      assert g.findings[..i + 1][..i] == g.findings[..i];
      if Rank(f.severity) >= Rank(Warning) {
        s := s.(failures := s.failures + 1);
      }
      s := s.(cases := s.cases + [CaseOf(g.place, f)]);
    }
    assert g.findings[..|g.findings|] == g.findings;
  }

  /** `WriteJUnit`: one test per finding, one failure per warning or critical finding, no empty suite. */
  method BuildJUnit(r: Report) returns (j: JUnit)
    ensures j.suites == SuitesOf(Groups(r))
    ensures var s := SummaryOf(r); j.tests == s.total && j.failures == s.warnings + s.critical
  {
    var gs := Groups(r);
    j := JUnit(0, 0, []);
    for i := 0 to |gs|
      invariant j.suites == SuitesOf(gs[..i]) && j.tests == |Findings(gs[..i])|
      invariant j.failures == Count(Findings(gs[..i]), Warning) + Count(Findings(gs[..i]), Critical)
    {
      FindingsOneMore(gs, i);
      SuitesOneMore(gs, i);
      if gs[i].findings != [] {
        var s := BuildSuite(gs[i]);
        j := JUnit(j.tests + s.tests, j.failures + s.failures, j.suites + [s]);
      }
    }
    assert gs[..|gs|] == gs;
  }

  // SARIF.

  datatype SarifResult = SarifResult(ruleId: string, level: Severity, message: string, uri: string, fingerprint: string)

  datatype SarifRule = SarifRule(id: string, description: string)

  function ResultOf(g: Group, f: Finding): SarifResult {
    SarifResult(g.rule, f.severity, if f.hint == "" then f.message else f.message + " — " + f.hint,
                if f.target == "" then g.place else f.target, FindingKey(g.place, f))
  }

  function ResultsIn(g: Group, fs: seq<Finding>): seq<SarifResult> {
    if fs == [] then []
    else ResultsIn(g, fs[..|fs| - 1]) + ResultIn(g, fs[|fs| - 1])
  }

  /** OK findings are not problems. */
  function ResultIn(g: Group, f: Finding): seq<SarifResult> {
    if f.severity == OK then [] else [ResultOf(g, f)]
  }

  function ResultsOf(gs: seq<Group>): seq<SarifResult> {
    if gs == [] then [] else ResultsOf(gs[..|gs| - 1]) + ResultsIn(gs[|gs| - 1], gs[|gs| - 1].findings)
  }

  function RuleIds(rules: seq<SarifRule>): set<string> {
    set rule | rule in rules :: rule.id
  }

  function RuleIdsUsed(results: seq<SarifResult>): set<string> {
    set x | x in results :: x.ruleId
  }

  /** Rules without repetition, exactly those some result refers to. */
  ghost predicate RulesCover(rules: seq<SarifRule>, results: seq<SarifResult>) {
    && (forall i, j | 0 <= i < j < |rules| :: rules[i].id != rules[j].id)
    && RuleIds(rules) == RuleIdsUsed(results)
  }

  ghost predicate HasProblem(fs: seq<Finding>) {
    exists f :: f in fs && f.severity != OK
  }

  /** The rule a group adds when it is the first with a problem under that id. */
  ghost function RuleAdded(rules: seq<SarifRule>, g: Group, fs: seq<Finding>): seq<SarifRule> {
    if HasProblem(fs) && g.rule !in RuleIds(rules) then [SarifRule(g.rule, g.title)] else []
  }

  ghost function RulesOf(gs: seq<Group>): seq<SarifRule> {
    if gs == [] then []
    else
      var rules, g := RulesOf(gs[..|gs| - 1]), gs[|gs| - 1];
      rules + RuleAdded(rules, g, g.findings)
  }

  lemma RuleAddedNext(rules: seq<SarifRule>, g: Group, fs: seq<Finding>, f: Finding)
    ensures var now := rules + RuleAdded(rules, g, fs);
            rules + RuleAdded(rules, g, fs + [f]) == now + RuleAdded(now, g, [f])
  {
    var now := rules + RuleAdded(rules, g, fs);
    assert HasProblem(fs + [f]) <==> HasProblem(fs) || f.severity != OK by {
      assert forall x :: x in fs + [f] <==> x in fs || x == f;
    }
    assert HasProblem([f]) <==> f.severity != OK by {
      assert f in [f];
    }
    if HasProblem(fs) {
      var added := RuleAdded(rules, g, fs);
      if added != [] {
        assert now[|rules|] == added[0] && added[0] in now;
      } else {
        assert now == rules;
      }
      assert RuleAdded(now, g, [f]) == [];
      assert now + [] == now;
    } else {
      assert now == rules;
    }
  }

  /** The closures `add` and `addRule`. */
  method AddResult(g: Group, f: Finding, rules0: seq<SarifRule>, seen0: set<string>, results0: seq<SarifResult>)
    returns (rules: seq<SarifRule>, seen: set<string>, results: seq<SarifResult>)
    requires RulesCover(rules0, results0) && seen0 == RuleIds(rules0)
    ensures results == results0 + ResultIn(g, f)
    ensures rules == rules0 + RuleAdded(rules0, g, [f])
    ensures RulesCover(rules, results) && seen == RuleIds(rules)
  {
    assert HasProblem([f]) <==> f.severity != OK by {
      assert f in [f];
    }
    rules, seen, results := rules0, seen0, results0;
    if f.severity == OK {
      return;
    }
    if g.rule !in seen {
      seen := seen + {g.rule};
      rules := rules + [SarifRule(g.rule, g.title)];
    }
    results := results + [ResultOf(g, f)];
    NewUse(results0, ResultOf(g, f));
  }

  lemma NewUse(results: seq<SarifResult>, x: SarifResult)
    ensures RuleIdsUsed(results + [x]) == RuleIdsUsed(results) + {x.ruleId}
  {
    assert forall y :: y in results + [x] <==> y in results || y == x;
  }

  lemma GroupNext(g: Group, k: nat, rules: seq<SarifRule>, results: seq<SarifResult>)
    requires k < |g.findings|
    ensures results + ResultsIn(g, g.findings[..k + 1])
         == results + ResultsIn(g, g.findings[..k]) + ResultIn(g, g.findings[k])
    ensures var now := rules + RuleAdded(rules, g, g.findings[..k]);
            rules + RuleAdded(rules, g, g.findings[..k + 1]) == now + RuleAdded(now, g, [g.findings[k]])
  {
    var fs := g.findings[..k];
    assert g.findings[..k + 1] == fs + [g.findings[k]];
    assert (fs + [g.findings[k]])[..k] == fs;
    Regroup(results, ResultsIn(g, fs), ResultIn(g, g.findings[k]));
    RuleAddedNext(rules, g, fs, g.findings[k]);
  }

  /** `AddResult` for each finding of one group. */
  method AddGroup(g: Group, rules0: seq<SarifRule>, seen0: set<string>, results0: seq<SarifResult>)
    returns (rules: seq<SarifRule>, seen: set<string>, results: seq<SarifResult>)
    requires RulesCover(rules0, results0) && seen0 == RuleIds(rules0)
    ensures results == results0 + ResultsIn(g, g.findings)
    ensures rules == rules0 + RuleAdded(rules0, g, g.findings)
    ensures RulesCover(rules, results) && seen == RuleIds(rules)
  {
    rules, seen, results := rules0, seen0, results0;
    for k := 0 to |g.findings|
      invariant results == results0 + ResultsIn(g, g.findings[..k])
      invariant rules == rules0 + RuleAdded(rules0, g, g.findings[..k])
      invariant RulesCover(rules, results) && seen == RuleIds(rules)
    {
      GroupNext(g, k, rules0, results0);
      rules, seen, results := AddResult(g, g.findings[k], rules, seen, results);
    }
    assert g.findings[..|g.findings|] == g.findings;
  }

  lemma SarifNext(gs: seq<Group>, i: nat)
    requires i < |gs|
    ensures ResultsOf(gs[..i + 1]) == ResultsOf(gs[..i]) + ResultsIn(gs[i], gs[i].findings)
    ensures RulesOf(gs[..i + 1]) == RulesOf(gs[..i]) + RuleAdded(RulesOf(gs[..i]), gs[i], gs[i].findings)
  {
    assert gs[..i + 1][..i] == gs[..i];
  }

  /** `WriteSARIF`: the problems in order, and the rules they refer to. */
  method BuildSarif(r: Report) returns (rules: seq<SarifRule>, results: seq<SarifResult>)
    ensures results == ResultsOf(Groups(r)) && rules == RulesOf(Groups(r)) && RulesCover(rules, results)
  {
    var gs := Groups(r);
    var seen: set<string> := {};
    rules, results := [], [];
    for i := 0 to |gs|
      invariant results == ResultsOf(gs[..i]) && rules == RulesOf(gs[..i])
      invariant RulesCover(rules, results) && seen == RuleIds(rules)
    {
      SarifNext(gs, i);
      rules, seen, results := AddGroup(gs[i], rules, seen, results);
    }
    assert gs[..|gs|] == gs;
  }

  lemma {:induction false} ResultsInCount(g: Group, fs: seq<Finding>)
    ensures |ResultsIn(g, fs)| + Count(fs, OK) == |fs|
  {
    if fs != [] {
      ResultsInCount(g, fs[..|fs| - 1]);
    }
  }

  /** Every finding but the OK ones becomes a result. */
  lemma {:induction false} ResultsCount(gs: seq<Group>)
    ensures |ResultsOf(gs)| + Count(Findings(gs), OK) == |Findings(gs)|
  {
    if gs != [] {
      var init, g := gs[..|gs| - 1], gs[|gs| - 1];
      ResultsCount(init);
      ResultsInCount(g, g.findings);
      CountConcat(Findings(init), g.findings, OK);
    }
  }

  // Metrics.

  datatype Row = Row(section: string, namespace: string, severity: Severity, n: nat)

  function RowsFor(g: Group): seq<Row> {
    [Row(g.section, g.namespace, OK, Count(g.findings, OK)), Row(g.section, g.namespace, Info, Count(g.findings, Info)),
     Row(g.section, g.namespace, Warning, Count(g.findings, Warning)),
     Row(g.section, g.namespace, Critical, Count(g.findings, Critical))]
  }

  function RowsOf(gs: seq<Group>): seq<Row> {
    if gs == [] then [] else RowsOf(gs[..|gs| - 1]) + RowsFor(gs[|gs| - 1])
  }

  function RowSum(rows: seq<Row>, s: Severity): nat {
    if rows == [] then 0
    else RowSum(rows[..|rows| - 1], s) + if rows[|rows| - 1].severity == s then rows[|rows| - 1].n else 0
  }

  method Tally(fs: seq<Finding>) returns (counts: array<nat>)
    ensures fresh(counts) && counts.Length == 4 && forall s: Severity :: counts[Rank(s)] == Count(fs, s)
  {
    counts := new nat[4](_ => 0);
    for i := 0 to |fs|
      invariant forall s: Severity :: counts[Rank(s)] == Count(fs[..i], s)
    {
      assert fs[..i + 1][..i] == fs[..i];
      counts[Rank(fs[i].severity)] := counts[Rank(fs[i].severity)] + 1;
    }
    assert fs[..|fs|] == fs;
  }

  method FindingRows(r: Report) returns (rows: seq<Row>)
    ensures rows == RowsOf(Groups(r))
  {
    var gs := Groups(r);
    rows := [];
    for i := 0 to |gs|
      invariant rows == RowsOf(gs[..i])
    {
      assert gs[..i + 1][..i] == gs[..i];
      var g := gs[i];
      var counts := Tally(g.findings);
      rows := rows + [Row(g.section, g.namespace, OK, counts[Rank(OK)]), Row(g.section, g.namespace, Info, counts[Rank(Info)]),
                      Row(g.section, g.namespace, Warning, counts[Rank(Warning)]),
                      Row(g.section, g.namespace, Critical, counts[Rank(Critical)])];
    }
    assert gs[..|gs|] == gs;
  }

  lemma {:induction false} RowSumConcat(a: seq<Row>, b: seq<Row>, s: Severity)
    ensures RowSum(a + b, s) == RowSum(a, s) + RowSum(b, s)
  {
    if b == [] {
      assert a + b == a;
    } else {
      RowSumConcat(a, b[..|b| - 1], s);
      assert (a + b)[..|a + b| - 1] == a + b[..|b| - 1];
    }
  }

  lemma RowSumPair(a: Row, b: Row, s: Severity)
    ensures RowSum([a, b], s) == (if a.severity == s then a.n else 0) + (if b.severity == s then b.n else 0)
  {
    RowSumConcat([a], [b], s);
    assert [a, b] == [a] + [b];
    assert [a][..0] == [] && [b][..0] == [];
    assert RowSum([a], s) == RowSum([a][..0], s) + if a.severity == s then a.n else 0;
    assert RowSum([b], s) == RowSum([b][..0], s) + if b.severity == s then b.n else 0;
  }

  lemma RowsForSum(g: Group, s: Severity)
    ensures RowSum(RowsFor(g), s) == Count(g.findings, s)
  {
    var rows := RowsFor(g);
    RowSumConcat(rows[..2], rows[2..], s);
    assert rows == rows[..2] + rows[2..];
    RowSumPair(rows[0], rows[1], s);
    RowSumPair(rows[2], rows[3], s);
    assert rows[..2] == [rows[0], rows[1]] && rows[2..] == [rows[2], rows[3]];
  }

  lemma {:induction false} RowsSum(gs: seq<Group>, s: Severity)
    ensures RowSum(RowsOf(gs), s) == Count(Findings(gs), s) && |RowsOf(gs)| == 4 * |gs|
  {
    if gs != [] {
      var init, g := gs[..|gs| - 1], gs[|gs| - 1];
      RowsSum(init, s);
      RowsForSum(g, s);
      RowSumConcat(RowsOf(init), RowsFor(g), s);
      CountConcat(Findings(init), g.findings, s);
    }
  }

  /** All views of one report agree with its summary. */
  lemma ViewsAgree(r: Report)
    ensures var s, gs := SummaryOf(r), Groups(r);
            && RowSum(RowsOf(gs), Info) == s.info && RowSum(RowsOf(gs), Warning) == s.warnings
            && RowSum(RowsOf(gs), Critical) == s.critical
            && RowSum(RowsOf(gs), OK) == s.total - s.info - s.warnings - s.critical
            && |ResultsOf(gs)| == s.info + s.warnings + s.critical
  {
    var gs := Groups(r);
    RowsSum(gs, OK);
    RowsSum(gs, Info);
    RowsSum(gs, Warning);
    RowsSum(gs, Critical);
    ResultsCount(gs);
    CountsAddUp(Findings(gs));
  }
}
