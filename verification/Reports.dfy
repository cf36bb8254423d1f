/** The analysis result: findings grouped into namespace sections and topic sections. */
module Reports {
  import opened Timestamps

  datatype Option<+T> = None | Some(value: T)

  datatype Severity = OK | Info | Warning | Critical

  function Rank(s: Severity): nat {
    match s
    case OK => 0
    case Info => 1
    case Warning => 2
    case Critical => 3
  }

  datatype Finding = Finding(severity: Severity, message: string, target: string, hint: string,
                             controls: seq<string>)

  datatype NamespaceSection = NamespaceSection(name: string, team: string, findings: seq<Finding>)

  datatype Section = Section(id: string, title: string, findings: seq<Finding>)

  datatype Summary = Summary(namespaces: nat, total: nat, info: nat, warnings: nat, critical: nat,
                             score: int, grade: string)

  datatype Report = Report(clusterName: string, generatedAt: Instant,
                           namespaces: seq<NamespaceSection>, sections: seq<Section>,
                           summary: Summary)

  /** A finding with its place in the report: a section title or "namespace <name>". */
  datatype LocatedFinding = LocatedFinding(location: string, team: string, finding: Finding)

  function Locate(location: string, team: string, fs: seq<Finding>): seq<LocatedFinding> {
    seq(|fs|, i requires 0 <= i < |fs| => LocatedFinding(location, team, fs[i]))
  }

  function InNamespaces(nss: seq<NamespaceSection>): seq<LocatedFinding> {
    if nss == [] then []
    else
      var ns := nss[|nss| - 1];
      InNamespaces(nss[..|nss| - 1]) + Locate("namespace " + ns.name, ns.team, ns.findings)
  }

  function InSections(secs: seq<Section>): seq<LocatedFinding> {
    if secs == [] then []
    else
      var s := secs[|secs| - 1];
      InSections(secs[..|secs| - 1]) + Locate(s.title, "", s.findings)
  }

  /** Every finding in the order `forEachFinding` visits them. */
  function Located(r: Report): seq<LocatedFinding> {
    InNamespaces(r.namespaces) + InSections(r.sections)
  }

  /** The findings of one section, passed on one by one. */
  method VisitSection(before: seq<LocatedFinding>, location: string, team: string, fs: seq<Finding>)
    returns (visited: seq<LocatedFinding>)
    ensures visited == before + Locate(location, team, fs)
  {
    visited := before;
    for j := 0 to |fs|
      invariant visited == before + Locate(location, team, fs)[..j]
    {
      visited := visited + [LocatedFinding(location, team, fs[j])];
    }
  }

  /** `forEachFinding`: what its callback receives, call by call. */
  method ForEachFinding(r: Report) returns (visited: seq<LocatedFinding>)
    ensures visited == Located(r)
  {
    visited := [];
    for i := 0 to |r.namespaces|
      invariant visited == InNamespaces(r.namespaces[..i])
    {
      assert r.namespaces[..i + 1][..i] == r.namespaces[..i];
      visited := VisitSection(visited, "namespace " + r.namespaces[i].name, r.namespaces[i].team,
                              r.namespaces[i].findings);
    }
    assert r.namespaces[..|r.namespaces|] == r.namespaces;
    ghost var first := visited;
    for i := 0 to |r.sections|
      invariant visited == first + InSections(r.sections[..i])
    {
      assert r.sections[..i + 1][..i] == r.sections[..i];
      Ordering.Regroup(first, InSections(r.sections[..i]), Locate(r.sections[i].title, "", r.sections[i].findings));
      visited := VisitSection(visited, r.sections[i].title, "", r.sections[i].findings);
    }
    assert r.sections[..|r.sections|] == r.sections;
  }

  /** A finding of a topic section belongs to no team. */
  lemma {:induction false} SectionsHaveNoTeam(secs: seq<Section>)
    ensures forall f | f in InSections(secs) :: f.team == ""
  {
    if secs != [] {
      SectionsHaveNoTeam(secs[..|secs| - 1]);
    }
  }
}
