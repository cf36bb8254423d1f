/** What the summary and the renderers say of each namespace, section and finding of a report. */
module ViewContents {
  import opened Picking
  import opened Reports
  import opened Normalise
  import opened Diffs
  import opened Views

  // Counting.

  function OfSeverity(s: Severity): Finding -> bool {
    (f: Finding) => f.severity == s
  }

  /** A count is the number of positions with that severity. */
  lemma {:induction false} CountExactly(fs: seq<Finding>, s: Severity) returns (at: seq<nat>)
    ensures Positions(fs, OfSeverity(s), at) && |at| == Count(fs, s)
  {
    at := [];
    if fs != [] {
      var init, f := fs[..|fs| - 1], fs[|fs| - 1];
      assert fs == init + [f];
      at := CountExactly(init, s);
      PositionsGrow(init, OfSeverity(s), at, f);
      at := if f.severity == s then at + [|init|] else at;
    }
  }

  /** The same findings in the same order. */
  ghost predicate Alike(fs: seq<Finding>, located: seq<LocatedFinding>) {
    |fs| == |located| && forall k | 0 <= k < |fs| :: fs[k] == located[k].finding
  }

  lemma AlikeTogether(a: seq<Finding>, p: seq<LocatedFinding>, b: seq<Finding>, q: seq<LocatedFinding>)
    requires Alike(a, p) && Alike(b, q)
    ensures Alike(a + b, p + q)
  {
  }

  lemma {:induction false} NamespaceFindings(nss: seq<NamespaceSection>)
    ensures Alike(Findings(NamespaceGroups(nss)), InNamespaces(nss))
  {
    if nss != [] {
      var init, ns := nss[..|nss| - 1], nss[|nss| - 1];
      NamespaceFindings(init);
      assert NamespaceGroups(nss)[..|nss| - 1] == NamespaceGroups(init);
      AlikeTogether(Findings(NamespaceGroups(init)), InNamespaces(init),
                    ns.findings, Locate("namespace " + ns.name, ns.team, ns.findings));
    }
  }

  lemma {:induction false} SectionFindings(secs: seq<Section>)
    ensures Alike(Findings(SectionGroups(secs)), InSections(secs))
  {
    if secs != [] {
      var init, s := secs[..|secs| - 1], secs[|secs| - 1];
      SectionFindings(init);
      assert SectionGroups(secs)[..|secs| - 1] == SectionGroups(init);
      AlikeTogether(Findings(SectionGroups(init)), InSections(init), s.findings, Locate(s.title, "", s.findings));
    }
  }

  /** The summary and the renderers go through the same findings as the diff, in the same order. */
  lemma SameWalk(r: Report)
    ensures Alike(Findings(Groups(r)), Located(r))
  {
    NamespaceFindings(r.namespaces);
    SectionFindings(r.sections);
    FindingsConcat(NamespaceGroups(r.namespaces), SectionGroups(r.sections));
    AlikeTogether(Findings(NamespaceGroups(r.namespaces)), InNamespaces(r.namespaces),
                  Findings(SectionGroups(r.sections)), InSections(r.sections));
  }

  /** Where in the walk the findings of one severity are; the summary counts them, and the namespaces. */
  lemma SummaryExactly(r: Report, s: Severity) returns (at: seq<nat>)
    ensures Positions(Findings(Groups(r)), OfSeverity(s), at)
    ensures var sum := SummaryOf(r);
            && sum.namespaces == |r.namespaces| && sum.total == |Located(r)|
            && (s == Info ==> sum.info == |at|) && (s == Warning ==> sum.warnings == |at|)
            && (s == Critical ==> sum.critical == |at|)
  {
    SameWalk(r);
    at := CountExactly(Findings(Groups(r)), s);
  }

  /** A critical finding costs 15 points, a warning 4 and an info 1, until nothing is left; each grade stands
      for ten points lost, and beyond forty there is only F. */
  lemma GradeExactly(r: Report)
    ensures var s := SummaryOf(r);
            var lost := 15 * s.critical + 4 * s.warnings + s.info;
            && s.score == (if lost >= 100 then 0 else 100 - lost)
            && s.grade == (if lost <= 10 then "A" else if lost <= 20 then "B" else if lost <= 30 then "C"
                           else if lost <= 40 then "D" else "F")
  {
  }

  // Labels.

  /** How the renderers label the findings of a namespace. */
  lemma NamespaceLabels(r: Report, i: nat)
    requires i < |r.namespaces|
    ensures |Groups(r)| == |r.namespaces| + |r.sections|
    ensures Groups(r)[i] == Group("cluster-guardian/workloads", "Per-namespace workload checks",
                                  "namespace/" + r.namespaces[i].name, "workloads", r.namespaces[i].name,
                                  r.namespaces[i].findings)
  {
  }

  /** Sections come after the namespaces. */
  lemma SectionLabels(r: Report, i: nat)
    requires i < |r.sections|
    ensures var id := r.sections[i].id;
            |Groups(r)| == |r.namespaces| + |r.sections|
            && Groups(r)[|r.namespaces| + i]
               == Group("cluster-guardian/" + id, r.sections[i].title, id, id, "", r.sections[i].findings)
  {
  }

  // JUnit.

  function HasFindings(g: Group): bool { g.findings != [] }

  /** One suite per group with findings, in order. */
  lemma {:induction false} SuitesInOrder(gs: seq<Group>)
    ensures PicksAs(gs, HasFindings, SuiteOf, SuitesOf(gs))
  {
    if gs == [] {
      PicksNothing(HasFindings, SuiteOf);
    } else {
      var init, g := gs[..|gs| - 1], gs[|gs| - 1];
      assert gs == init + [g];
      SuitesInOrder(init);
      PicksGrow(init, HasFindings, SuiteOf, SuitesOf(init), g);
      assert SuitesOf(init) + [] == SuitesOf(init);
    }
  }

  function Fails(c: Case): bool { c.failure.Some? }

  /** One case per finding under its message, failing for a warning or a critical finding; the suite counts
      its cases and those that fail. */
  lemma SuiteExactly(g: Group) returns (failing: seq<nat>)
    ensures var s := SuiteOf(g);
            && s.name == g.place && s.tests == |s.cases| == |g.findings|
            && (forall k | 0 <= k < |g.findings| ::
                  && s.cases[k].name == g.findings[k].message && s.cases[k].classname == g.place
                  && s.cases[k].failure == match g.findings[k].severity
                                           case OK => None
                                           case Info => None
                                           case Warning => Some(Warning)
                                           case Critical => Some(Critical))
            && Positions(s.cases, Fails, failing) && |failing| == s.failures
  {
    var s := SuiteOf(g);
    assert forall k | 0 <= k < |g.findings| :: s.cases[k] == CaseOf(g.place, g.findings[k]);
    assert g.findings[..|g.findings|] == g.findings && s.cases[..|s.cases|] == s.cases;
    failing := FailingCases(g, |g.findings|);
  }

  lemma FailingNext(g: Group, n: nat, failing: seq<nat>) returns (more: seq<nat>)
    requires n < |g.findings| && Positions(SuiteOf(g).cases[..n], Fails, failing)
    ensures Positions(SuiteOf(g).cases[..n + 1], Fails, more)
    ensures |more| == |failing| + if g.findings[n].severity in {Warning, Critical} then 1 else 0
  {
    var cases, c := SuiteOf(g).cases, SuiteOf(g).cases[n];
    assert cases[..n + 1] == cases[..n] + [c];
    assert c == CaseOf(g.place, g.findings[n]);
    PositionsGrow(cases[..n], Fails, failing, c);
    more := if Fails(c) then failing + [|cases[..n]|] else failing;
  }

  lemma {:induction false} FailingCases(g: Group, n: nat) returns (failing: seq<nat>)
    requires n <= |g.findings|
    ensures Positions(SuiteOf(g).cases[..n], Fails, failing)
    ensures |failing| == Count(g.findings[..n], Warning) + Count(g.findings[..n], Critical)
  {
    failing := [];
    if n > 0 {
      assert g.findings[..n][..n - 1] == g.findings[..n - 1];
      failing := FailingCases(g, n - 1);
      failing := FailingNext(g, n - 1, failing);
    }
  }

  // SARIF.

  function Problem(f: Finding): bool { f.severity != OK }

  /** A result names the rule of its group and the severity, puts the hint behind the message, stands at its
      object, or at the group when it has none, and carries the key a diff would use. */
  function ResultFor(g: Group): Finding -> SarifResult {
    (f: Finding) => SarifResult(g.rule, f.severity, f.message + (if f.hint == "" then "" else " — " + f.hint),
                                if f.target == "" then g.place else f.target,
                                g.place + "|" + f.target + "|" + Normalised(f.message))
  }

  lemma ResultForIs(g: Group, f: Finding)
    ensures ResultFor(g)(f) == ResultOf(g, f)
  {
    var key := g.place + "|" + f.target + "|" + Normalised(f.message);
    assert FindingKey(g.place, f) == key;
    assert f.message + "" == f.message;
  }

  lemma {:induction false} ResultsPicked(g: Group, fs: seq<Finding>, make: Finding -> SarifResult)
    requires forall f :: make(f) == ResultOf(g, f)
    ensures PicksAs(fs, Problem, make, ResultsIn(g, fs))
  {
    if fs == [] {
      PicksNothing(Problem, make);
    } else {
      var init, f := fs[..|fs| - 1], fs[|fs| - 1];
      assert fs == init + [f];
      ResultsPicked(g, init, make);
      PicksGrow(init, Problem, make, ResultsIn(g, init), f);
      assert ResultsIn(g, init) + [] == ResultsIn(g, init);
    }
  }

  lemma ResultsInOrder(g: Group, fs: seq<Finding>)
    ensures PicksAs(fs, Problem, ResultFor(g), ResultsIn(g, fs))
  {
    forall f
      ensures ResultFor(g)(f) == ResultOf(g, f)
    {
      ResultForIs(g, f);
    }
    ResultsPicked(g, fs, ResultFor(g));
  }

  /** The results are those of the groups one after the other, and of a group those of its problems. */
  lemma ResultsExactly(gs: seq<Group>, i: nat) returns (mine: seq<SarifResult>)
    requires i < |gs|
    ensures ResultsOf([]) == [] && ResultsOf(gs[..i + 1]) == ResultsOf(gs[..i]) + mine
    ensures PicksAs(gs[i].findings, Problem, ResultFor(gs[i]), mine)
  {
    mine := ResultsIn(gs[i], gs[i].findings);
    assert gs[..i + 1][..i] == gs[..i];
    ResultsInOrder(gs[i], gs[i].findings);
  }

  /** Group `i` is the first with a problem under its rule. */
  ghost predicate Introduces(gs: seq<Group>, i: nat) {
    && i < |gs| && HasProblem(gs[i].findings)
    && forall j | 0 <= j < i && gs[j].rule == gs[i].rule :: !HasProblem(gs[j].findings)
  }

  function RuleFor(g: Group): SarifRule {
    SarifRule(g.rule, g.title)
  }

  lemma {:induction false} RuleIdsExactly(gs: seq<Group>, id: string)
    ensures id in RuleIds(RulesOf(gs)) <==> exists j :: 0 <= j < |gs| && gs[j].rule == id && HasProblem(gs[j].findings)
  {
    if gs != [] {
      var init, g := gs[..|gs| - 1], gs[|gs| - 1];
      RuleIdsExactly(init, id);
      assert forall j | 0 <= j < |init| :: init[j] == gs[j];
      var rules, added := RulesOf(init), RuleAdded(RulesOf(init), g, g.findings);
      assert forall x :: x in rules + added <==> x in rules || x in added;
      if added != [] {
        assert added == [RuleFor(g)] && RuleFor(g) in added;
      }
    }
  }

  /** The rules are those of the groups at these positions, in order. */
  ghost predicate RulesAt(gs: seq<Group>, rules: seq<SarifRule>, at: seq<nat>) {
    && |at| == |rules|
    && (forall k | 0 <= k < |at| :: at[k] < |gs| && rules[k] == RuleFor(gs[at[k]]))
    && (forall k, l | 0 <= k < l < |at| :: at[k] < at[l])
  }

  lemma IntroducesNext(init: seq<Group>, g: Group, i: nat)
    requires i < |init|
    ensures Introduces(init + [g], i) <==> Introduces(init, i)
  {
    assert forall j | 0 <= j < |init| :: init[j] == (init + [g])[j];
  }

  lemma RuleNext(init: seq<Group>, g: Group)
    ensures RulesOf(init + [g]) == RulesOf(init) + (if Introduces(init + [g], |init|) then [RuleFor(g)] else [])
  {
    var gs := init + [g];
    assert gs[..|gs| - 1] == init && gs[|init|] == g;
    assert forall j | 0 <= j < |init| :: init[j] == gs[j];
    RuleIdsExactly(init, g.rule);
  }

  lemma RulesAtNext(init: seq<Group>, g: Group, rules: seq<SarifRule>, at: seq<nat>)
    requires RulesAt(init, rules, at)
    ensures RulesAt(init + [g], rules, at) && RulesAt(init + [g], rules + [RuleFor(g)], at + [|init|])
  {
  }

  /** Each rule is listed once, in the order of the groups that first need it, with that group's title. */
  lemma {:induction false} RulesInOrder(gs: seq<Group>) returns (at: seq<nat>)
    ensures RulesAt(gs, RulesOf(gs), at) && forall i: nat :: i in at <==> Introduces(gs, i)
  {
    at := [];
    if gs != [] {
      var init, g := gs[..|gs| - 1], gs[|gs| - 1];
      assert gs == init + [g];
      at := RulesInOrder(init);
      RuleNext(init, g);
      RulesAtNext(init, g, RulesOf(init), at);
      forall i: nat | i < |init|
        ensures Introduces(gs, i) <==> Introduces(init, i)
      {
        IntroducesNext(init, g, i);
      }
      assert RulesOf(init) + [] == RulesOf(init);
      if Introduces(gs, |init|) {
        at := at + [|init|];
      }
    }
  }

  // Metrics.

  /** Four rows for each group, from OK to critical, with the group's section and namespace. */
  lemma {:induction false} RowsExactly(gs: seq<Group>, i: nat)
    requires i < |gs|
    ensures |RowsOf(gs)| == 4 * |gs|
    ensures var section, namespace, fs := gs[i].section, gs[i].namespace, gs[i].findings;
            && RowsOf(gs)[4 * i] == Row(section, namespace, OK, Count(fs, OK))
            && RowsOf(gs)[4 * i + 1] == Row(section, namespace, Info, Count(fs, Info))
            && RowsOf(gs)[4 * i + 2] == Row(section, namespace, Warning, Count(fs, Warning))
            && RowsOf(gs)[4 * i + 3] == Row(section, namespace, Critical, Count(fs, Critical))
  {
    var init := gs[..|gs| - 1];
    RowsSum(gs, OK);
    RowsSum(init, OK);
    if i < |init| {
      RowsExactly(init, i);
    }
  }
}
