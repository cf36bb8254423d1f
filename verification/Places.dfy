/** Where a report's findings are, and what that means for its diff and for the webhooks: every statement
    here is about the namespaces and sections of the reports themselves. */
module Places {
  import opened Picking
  import opened Reports
  import opened Normalise
  import opened Diffs
  import opened Notify

  // The walk.

  /** The number of findings in the first `i` namespaces. */
  function NamespaceOffset(nss: seq<NamespaceSection>, i: nat): nat
    requires i <= |nss|
  {
    if i == 0 then 0 else NamespaceOffset(nss, i - 1) + |nss[i - 1].findings|
  }

  function SectionOffset(secs: seq<Section>, i: nat): nat
    requires i <= |secs|
  {
    if i == 0 then 0 else SectionOffset(secs, i - 1) + |secs[i - 1].findings|
  }

  lemma {:induction false} NamespacesLength(nss: seq<NamespaceSection>, n: nat)
    requires n <= |nss|
    ensures |InNamespaces(nss[..n])| == NamespaceOffset(nss, n)
  {
    if n > 0 {
      NamespacesLength(nss, n - 1);
      assert nss[..n][..n - 1] == nss[..n - 1];
    }
  }

  lemma {:induction false} SectionsLength(secs: seq<Section>, n: nat)
    requires n <= |secs|
    ensures |InSections(secs[..n])| == SectionOffset(secs, n)
  {
    if n > 0 {
      SectionsLength(secs, n - 1);
      assert secs[..n][..n - 1] == secs[..n - 1];
    }
  }

  lemma {:induction false} NamespacePlace(nss: seq<NamespaceSection>, n: nat, i: nat, j: nat)
    requires i < n <= |nss| && j < |nss[i].findings|
    ensures NamespaceOffset(nss, i) + j < |InNamespaces(nss[..n])|
    ensures InNamespaces(nss[..n])[NamespaceOffset(nss, i) + j]
         == LocatedFinding("namespace " + nss[i].name, nss[i].team, nss[i].findings[j])
    decreases n
  {
    assert nss[..n][..n - 1] == nss[..n - 1];
    NamespacesLength(nss, n - 1);
    if i < n - 1 {
      NamespacePlace(nss, n - 1, i, j);
    }
  }

  lemma {:induction false} SectionPlace(secs: seq<Section>, n: nat, i: nat, j: nat)
    requires i < n <= |secs| && j < |secs[i].findings|
    ensures SectionOffset(secs, i) + j < |InSections(secs[..n])|
    ensures InSections(secs[..n])[SectionOffset(secs, i) + j] == LocatedFinding(secs[i].title, "", secs[i].findings[j])
    decreases n
  {
    assert secs[..n][..n - 1] == secs[..n - 1];
    SectionsLength(secs, n - 1);
    if i < n - 1 {
      SectionPlace(secs, n - 1, i, j);
    }
  }

  /** The walk visits every finding once, namespaces first. */
  lemma VisitedOnce(r: Report)
    ensures |Located(r)| == NamespaceOffset(r.namespaces, |r.namespaces|) + SectionOffset(r.sections, |r.sections|)
  {
    NamespacesLength(r.namespaces, |r.namespaces|);
    SectionsLength(r.sections, |r.sections|);
    assert r.namespaces[..|r.namespaces|] == r.namespaces && r.sections[..|r.sections|] == r.sections;
  }

  /** Finding `j` of namespace `i` comes after those of the namespaces before it, under "namespace " and its
      name and with its team. */
  lemma NamespaceVisitedAt(r: Report, i: nat, j: nat)
    requires i < |r.namespaces| && j < |r.namespaces[i].findings|
    ensures NamespaceOffset(r.namespaces, i) + j < |Located(r)|
    ensures Located(r)[NamespaceOffset(r.namespaces, i) + j]
         == LocatedFinding("namespace " + r.namespaces[i].name, r.namespaces[i].team, r.namespaces[i].findings[j])
  {
    assert r.namespaces[..|r.namespaces|] == r.namespaces;
    NamespacePlace(r.namespaces, |r.namespaces|, i, j);
  }

  /** Finding `j` of section `i` comes after all namespaces and the sections before it, under its title and
      with no team. */
  lemma SectionVisitedAt(r: Report, i: nat, j: nat)
    requires i < |r.sections| && j < |r.sections[i].findings|
    ensures var p := NamespaceOffset(r.namespaces, |r.namespaces|) + SectionOffset(r.sections, i) + j;
            p < |Located(r)| && Located(r)[p] == LocatedFinding(r.sections[i].title, "", r.sections[i].findings[j])
  {
    var a, b := InNamespaces(r.namespaces), InSections(r.sections);
    assert r.namespaces[..|r.namespaces|] == r.namespaces && r.sections[..|r.sections|] == r.sections;
    NamespacesLength(r.namespaces, |r.namespaces|);
    SectionPlace(r.sections, |r.sections|, i, j);
    var k := SectionOffset(r.sections, i) + j;
    assert (a + b)[|a| + k] == b[k];
  }

  /** Finding `j` of namespace `i`, as the walk passes it on. */
  ghost predicate InNamespace(r: Report, i: nat, j: nat, x: LocatedFinding) {
    && i < |r.namespaces| && j < |r.namespaces[i].findings|
    && x == LocatedFinding("namespace " + r.namespaces[i].name, r.namespaces[i].team, r.namespaces[i].findings[j])
  }

  ghost predicate InSection(r: Report, i: nat, j: nat, x: LocatedFinding) {
    && i < |r.sections| && j < |r.sections[i].findings|
    && x == LocatedFinding(r.sections[i].title, "", r.sections[i].findings[j])
  }

  lemma {:induction false} NamespaceOf(nss: seq<NamespaceSection>, n: nat, x: LocatedFinding) returns (i: nat, j: nat)
    requires n <= |nss| && x in InNamespaces(nss[..n])
    ensures i < n && j < |nss[i].findings|
    ensures x == LocatedFinding("namespace " + nss[i].name, nss[i].team, nss[i].findings[j])
  {
    assert nss[..n][..n - 1] == nss[..n - 1];
    if x in InNamespaces(nss[..n - 1]) {
      i, j := NamespaceOf(nss, n - 1, x);
    } else {
      var fs := Locate("namespace " + nss[n - 1].name, nss[n - 1].team, nss[n - 1].findings);
      assert x in fs;
      i := n - 1;
      j :| j < |fs| && fs[j] == x;
    }
  }

  lemma {:induction false} SectionOf(secs: seq<Section>, n: nat, x: LocatedFinding) returns (i: nat, j: nat)
    requires n <= |secs| && x in InSections(secs[..n])
    ensures i < n && j < |secs[i].findings|
    ensures x == LocatedFinding(secs[i].title, "", secs[i].findings[j])
  {
    assert secs[..n][..n - 1] == secs[..n - 1];
    if x in InSections(secs[..n - 1]) {
      i, j := SectionOf(secs, n - 1, x);
    } else {
      var fs := Locate(secs[n - 1].title, "", secs[n - 1].findings);
      assert x in fs;
      i := n - 1;
      j :| j < |fs| && fs[j] == x;
    }
  }

  lemma NamespaceVisited(r: Report, i: nat, j: nat, x: LocatedFinding)
    requires InNamespace(r, i, j, x)
    ensures x in Located(r)
  {
    NamespaceVisitedAt(r, i, j);
  }

  lemma SectionVisited(r: Report, i: nat, j: nat, x: LocatedFinding)
    requires InSection(r, i, j, x)
    ensures x in Located(r)
  {
    SectionVisitedAt(r, i, j);
  }

  lemma VisitedOnly(r: Report, x: LocatedFinding)
    requires x in Located(r)
    ensures (exists i, j :: InNamespace(r, i, j, x)) || (exists i, j :: InSection(r, i, j, x))
  {
    assert r.namespaces[..|r.namespaces|] == r.namespaces && r.sections[..|r.sections|] == r.sections;
    if x in InNamespaces(r.namespaces) {
      var i, j := NamespaceOf(r.namespaces, |r.namespaces|, x);
      assert InNamespace(r, i, j, x);
    } else {
      var i, j := SectionOf(r.sections, |r.sections|, x);
      assert InSection(r, i, j, x);
    }
  }

  lemma VisitedExactly(r: Report, x: LocatedFinding)
    ensures x in Located(r) <==> (exists i, j :: InNamespace(r, i, j, x)) || (exists i, j :: InSection(r, i, j, x))
  {
    if x in Located(r) {
      VisitedOnly(r, x);
    }
    if i: nat, j: nat :| InNamespace(r, i, j, x) {
      NamespaceVisited(r, i, j, x);
    }
    if i: nat, j: nat :| InSection(r, i, j, x) {
      SectionVisited(r, i, j, x);
    }
  }

  // What is new.

  /** A problem with the same object and, up to numbers, the same message. */
  predicate SameProblem(g: Finding, f: Finding) {
    g.severity != OK && g.target == f.target && Normalised(g.message) == Normalised(f.message)
  }

  /** The report has that problem in a namespace called `b`. */
  ghost predicate HasInNamespace(r: Report, b: string, f: Finding) {
    exists i: nat, j: nat :: i < |r.namespaces| && j < |r.namespaces[i].findings|
                             && r.namespaces[i].name == b && SameProblem(r.namespaces[i].findings[j], f)
  }

  /** The report has that problem in a section of that title. */
  ghost predicate HasInSection(r: Report, title: string, f: Finding) {
    exists i: nat, j: nat :: i < |r.sections| && j < |r.sections[i].findings|
                             && r.sections[i].title == title && SameProblem(r.sections[i].findings[j], f)
  }

  /** No name, title or object has a '|'. */
  ghost predicate Barless(r: Report) {
    && (forall i: nat | i < |r.namespaces| :: '|' !in r.namespaces[i].name)
    && (forall i: nat | i < |r.sections| :: '|' !in r.sections[i].title)
    && (forall i: nat, j: nat | i < |r.namespaces| && j < |r.namespaces[i].findings| ::
          '|' !in r.namespaces[i].findings[j].target)
    && (forall i: nat, j: nat | i < |r.sections| && j < |r.sections[i].findings| ::
          '|' !in r.sections[i].findings[j].target)
  }

  /** No section is titled like the place of a namespace. */
  ghost predicate Distinguishable(r: Report, q: Report) {
    forall i: nat, j: nat | i < |r.namespaces| && j < |q.sections| :: "namespace " + r.namespaces[i].name != q.sections[j].title
  }

  lemma BarlessPlaces(r: Report, x: LocatedFinding)
    requires Barless(r) && x in Located(r)
    ensures '|' !in x.location && '|' !in x.finding.target
  {
    VisitedExactly(r, x);
    if i: nat, j: nat :| InNamespace(r, i, j, x) {
      var place := "namespace ";
      assert '|' !in place;
    } else {
      var i: nat, j: nat :| InSection(r, i, j, x);
    }
  }

  lemma KnownExactly(r: Report, q: Report, x: LocatedFinding)
    requires Barless(r) && Barless(q) && x in Located(q)
    ensures Key(x) in ReportKeys(r) <==>
            exists g :: g in Located(r) && g.location == x.location && SameProblem(g.finding, x.finding)
  {
    BarlessPlaces(q, x);
    forall g | g in Located(r)
      ensures Key(g) == Key(x) <==>
              && g.location == x.location && g.finding.target == x.finding.target
              && Normalised(g.finding.message) == Normalised(x.finding.message)
    {
      BarlessPlaces(r, g);
      KeyIdentifies(g, x);
    }
  }

  lemma SamePlace(a: string, b: string)
    ensures "namespace " + a == "namespace " + b <==> a == b
  {
    assert ("namespace " + a)[|"namespace "|..] == a && ("namespace " + b)[|"namespace "|..] == b;
  }

  lemma HadInNamespace(r: Report, q: Report, i: nat, j: nat, x: LocatedFinding)
    requires Distinguishable(q, r) && InNamespace(q, i, j, x)
    ensures (exists g :: g in Located(r) && g.location == x.location && SameProblem(g.finding, x.finding))
       <==> HasInNamespace(r, q.namespaces[i].name, x.finding)
  {
    if g :| g in Located(r) && g.location == x.location && SameProblem(g.finding, x.finding) {
      VisitedExactly(r, g);
      if k: nat, l: nat :| InNamespace(r, k, l, g) {
        SamePlace(r.namespaces[k].name, q.namespaces[i].name);
      }
    }
    if k: nat, l: nat :| k < |r.namespaces| && l < |r.namespaces[k].findings| && r.namespaces[k].name == q.namespaces[i].name
                         && SameProblem(r.namespaces[k].findings[l], x.finding) {
      var g := LocatedFinding("namespace " + r.namespaces[k].name, r.namespaces[k].team, r.namespaces[k].findings[l]);
      assert InNamespace(r, k, l, g);
      VisitedExactly(r, g);
    }
  }

  lemma HadInSection(r: Report, q: Report, i: nat, j: nat, x: LocatedFinding)
    requires Distinguishable(r, q) && InSection(q, i, j, x)
    ensures (exists g :: g in Located(r) && g.location == x.location && SameProblem(g.finding, x.finding))
       <==> HasInSection(r, q.sections[i].title, x.finding)
  {
    if g :| g in Located(r) && g.location == x.location && SameProblem(g.finding, x.finding) {
      VisitedExactly(r, g);
    }
    if k: nat, l: nat :| k < |r.sections| && l < |r.sections[k].findings| && r.sections[k].title == q.sections[i].title
                         && SameProblem(r.sections[k].findings[l], x.finding) {
      var g := LocatedFinding(r.sections[k].title, "", r.sections[k].findings[l]);
      assert InSection(r, k, l, g);
      VisitedExactly(r, g);
    }
  }

  lemma UnknownExactly(r: Report, q: Report, x: LocatedFinding)
    requires Barless(r) && Barless(q) && x in Located(q)
    ensures x in Unknown(Located(q), ReportKeys(r)) <==>
            x.finding.severity != OK
            && !exists g :: g in Located(r) && g.location == x.location && SameProblem(g.finding, x.finding)
  {
    UnknownMembers(Located(q), ReportKeys(r));
    KnownExactly(r, q, x);
  }

  /** A finding of a namespace is reported as new exactly when it is a problem that the older report has not
      in any namespace of that name, and as resolved exactly when the newer one has not. */
  lemma NewInNamespaceExactly(older: Report, newer: Report, i: nat, j: nat, x: LocatedFinding)
    requires Barless(older) && Barless(newer)
    ensures Distinguishable(newer, older) && InNamespace(newer, i, j, x) ==>
              (x in DiffOf(older, newer).appeared <==>
               x.finding.severity != OK && !HasInNamespace(older, newer.namespaces[i].name, x.finding))
    ensures Distinguishable(older, newer) && InNamespace(older, i, j, x) ==>
              (x in DiffOf(older, newer).resolved <==>
               x.finding.severity != OK && !HasInNamespace(newer, older.namespaces[i].name, x.finding))
  {
    VisitedExactly(newer, x);
    VisitedExactly(older, x);
    if Distinguishable(newer, older) && InNamespace(newer, i, j, x) {
      UnknownExactly(older, newer, x);
      HadInNamespace(older, newer, i, j, x);
    }
    if Distinguishable(older, newer) && InNamespace(older, i, j, x) {
      UnknownExactly(newer, older, x);
      HadInNamespace(newer, older, i, j, x);
    }
  }

  /** The same for a section and its title. */
  lemma NewInSectionExactly(older: Report, newer: Report, i: nat, j: nat, x: LocatedFinding)
    requires Barless(older) && Barless(newer)
    ensures Distinguishable(older, newer) && InSection(newer, i, j, x) ==>
              (x in DiffOf(older, newer).appeared <==>
               x.finding.severity != OK && !HasInSection(older, newer.sections[i].title, x.finding))
    ensures Distinguishable(newer, older) && InSection(older, i, j, x) ==>
              (x in DiffOf(older, newer).resolved <==>
               x.finding.severity != OK && !HasInSection(newer, older.sections[i].title, x.finding))
  {
    VisitedExactly(newer, x);
    VisitedExactly(older, x);
    if Distinguishable(older, newer) && InSection(newer, i, j, x) {
      UnknownExactly(older, newer, x);
      HadInSection(older, newer, i, j, x);
    }
    if Distinguishable(newer, older) && InSection(older, i, j, x) {
      UnknownExactly(newer, older, x);
      HadInSection(newer, older, i, j, x);
    }
  }

  function UnknownTo(known: set<string>): LocatedFinding -> bool {
    (f: LocatedFinding) => f.finding.severity != OK && FindingKey(f.location, f.finding) !in known
  }

  /** Both parts of a diff are in the order of the walk, with every occurrence. */
  lemma {:induction false} UnknownInOrder(fs: seq<LocatedFinding>, known: set<string>)
    ensures Picks(fs, UnknownTo(known), Unknown(fs, known))
  {
    if fs == [] {
      PicksNothing(UnknownTo(known), Same<LocatedFinding>);
    } else {
      var init, f := fs[..|fs| - 1], fs[|fs| - 1];
      assert fs == init + [f];
      UnknownInOrder(init, known);
      PicksGrow(init, UnknownTo(known), Same, Unknown(init, known), f);
      assert Unknown(init, known) + [] == Unknown(init, known);
    }
  }

  // Who hears of it.

  /** The severities a notifier with this threshold lets through. */
  predicate Reaches(min: Severity, s: Severity) {
    match min
    case OK => true
    case Info => s != OK
    case Warning => s in {Warning, Critical}
    case Critical => s == Critical
  }

  function Reaching(min: Severity): LocatedFinding -> bool {
    (f: LocatedFinding) => Reaches(min, f.finding.severity)
  }

  function Of(team: string): LocatedFinding -> bool {
    (f: LocatedFinding) => f.team == team && team != ""
  }

  lemma ReachesByRank(min: Severity, s: Severity)
    ensures Reaches(min, s) <==> Rank(s) >= Rank(min)
  {
  }

  lemma {:induction false} QualifyingInOrder(n: Notifier, fs: seq<LocatedFinding>)
    ensures Picks(fs, Reaching(n.min), Qualifying(n, fs))
  {
    if fs == [] {
      PicksNothing(Reaching(n.min), Same<LocatedFinding>);
    } else {
      var init, f := fs[..|fs| - 1], fs[|fs| - 1];
      assert fs == init + [f];
      QualifyingInOrder(n, init);
      ReachesByRank(n.min, f.finding.severity);
      PicksGrow(init, Reaching(n.min), Same, Qualifying(n, init), f);
      assert Qualifying(n, init) + [] == Qualifying(n, init);
    }
  }

  lemma {:induction false} ShareInOrder(team: string, fs: seq<LocatedFinding>)
    ensures Picks(fs, Of(team), ShareOf(team, fs))
  {
    if fs == [] {
      PicksNothing(Of(team), Same<LocatedFinding>);
    } else {
      var init, f := fs[..|fs| - 1], fs[|fs| - 1];
      assert fs == init + [f];
      ShareInOrder(team, init);
      PicksGrow(init, Of(team), Same, ShareOf(team, init), f);
      assert ShareOf(team, init) + [] == ShareOf(team, init);
    }
  }

  /** A new finding of a namespace is posted to the webhook of the team that owns the namespace, if its
      severity reaches that webhook's threshold, and to no other team's. */
  lemma OwnerHearsExactly(older: Report, newer: Report, i: nat, j: nat, x: LocatedFinding, r: Router, t: string)
    requires Barless(older) && Barless(newer) && Distinguishable(newer, older)
    requires InNamespace(newer, i, j, x) && t in r.teams
    ensures x in TeamPost(r, DiffOf(older, newer).appeared, t) <==>
            && t == newer.namespaces[i].team && t != "" && Reaches(r.teams[t].min, x.finding.severity)
            && x.finding.severity != OK && !HasInNamespace(older, newer.namespaces[i].name, x.finding)
  {
    var fs := DiffOf(older, newer).appeared;
    NewInNamespaceExactly(older, newer, i, j, x);
    TeamHearsExactlyItsOwn(r, fs, t, x);
    ReachesByRank(r.teams[t].min, x.finding.severity);
    assert x in TeamPost(r, fs, t) <==> x in multiset(TeamPost(r, fs, t));
    assert x in fs <==> x in multiset(fs);
  }

  /** The global webhook hears of it whoever owns the namespace. */
  lemma GlobalHearsExactly(older: Report, newer: Report, i: nat, j: nat, x: LocatedFinding, n: Notifier)
    requires Barless(older) && Barless(newer) && Distinguishable(newer, older) && InNamespace(newer, i, j, x)
    ensures x in Qualifying(n, DiffOf(older, newer).appeared) <==>
            && Reaches(n.min, x.finding.severity)
            && x.finding.severity != OK && !HasInNamespace(older, newer.namespaces[i].name, x.finding)
  {
    var fs := DiffOf(older, newer).appeared;
    NewInNamespaceExactly(older, newer, i, j, x);
    QualifyingCounts(n, fs, x);
    ReachesByRank(n.min, x.finding.severity);
    assert x in Qualifying(n, fs) <==> x in multiset(Qualifying(n, fs));
    assert x in fs <==> x in multiset(fs);
  }
}
