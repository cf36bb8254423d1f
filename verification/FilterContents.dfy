/** What is left of a report that is narrowed to a framework or to a team, list by list. */
module FilterContents {
  import opened Picking
  import opened Reports
  import opened Views
  import opened Filters

  /** The control begins with the prefix, letter by letter and whatever the case. */
  predicate BeginsWith(p: Pattern, control: string) {
    |p.prefix| <= |control| && forall i | 0 <= i < |p.prefix| :: p.lower(p.prefix[i]) == p.lower(control[i])
  }

  function HasTag(p: Pattern): Finding -> bool {
    (f: Finding) => exists i :: 0 <= i < |f.controls| && BeginsWith(p, f.controls[i])
  }

  lemma PrefixExactly(p: Pattern, control: string)
    ensures Lower(p, p.prefix) <= Lower(p, control) <==> BeginsWith(p, control)
  {
    var a, b := Lower(p, p.prefix), Lower(p, control);
    assert forall i | 0 <= i < |a| :: a[i] == p.lower(p.prefix[i]);
    assert forall i | 0 <= i < |b| :: b[i] == p.lower(control[i]);
    if BeginsWith(p, control) {
      assert a == b[..|a|];
    }
  }

  lemma TaggedExactly(p: Pattern, f: Finding)
    ensures Tagged(p, f) <==> HasTag(p)(f)
  {
    if c :| c in f.controls && Lower(p, p.prefix) <= Lower(p, c) {
      PrefixExactly(p, c);
      var i :| 0 <= i < |f.controls| && f.controls[i] == c;
    }
    if i :| 0 <= i < |f.controls| && BeginsWith(p, f.controls[i]) {
      PrefixExactly(p, f.controls[i]);
      assert f.controls[i] in f.controls;
    }
  }

  /** The findings that carry the framework's tag are kept, in order and with every occurrence. */
  lemma {:induction false} MatchingInOrder(p: Pattern, fs: seq<Finding>)
    ensures Picks(fs, HasTag(p), Matching(p, fs))
  {
    if fs == [] {
      PicksNothing(HasTag(p), Same<Finding>);
    } else {
      var init, f := fs[..|fs| - 1], fs[|fs| - 1];
      assert fs == init + [f];
      MatchingInOrder(p, init);
      TaggedExactly(p, f);
      PicksGrow(init, HasTag(p), Same, Matching(p, init), f);
    }
  }

  /** The numbers are those of the report itself. */
  ghost predicate Recounted(r: Report) {
    r.summary == SummaryOf(r)
  }

  /** Every namespace and section stays, with the findings that carry the tag. */
  lemma ControlsExactly(p: Pattern, r: Report)
    ensures var kept := ControlsKept(p, r);
            && kept.clusterName == r.clusterName && kept.generatedAt == r.generatedAt && Recounted(kept)
            && |kept.namespaces| == |r.namespaces| && |kept.sections| == |r.sections|
            && (forall i | 0 <= i < |r.namespaces| ::
                  && kept.namespaces[i].name == r.namespaces[i].name && kept.namespaces[i].team == r.namespaces[i].team
                  && Picks(r.namespaces[i].findings, HasTag(p), kept.namespaces[i].findings))
            && (forall i | 0 <= i < |r.sections| ::
                  && kept.sections[i].id == r.sections[i].id && kept.sections[i].title == r.sections[i].title
                  && Picks(r.sections[i].findings, HasTag(p), kept.sections[i].findings))
  {
    var kept := ControlsKept(p, r);
    SummaryOfLists(kept, MatchingLists(p, r));
    forall i | 0 <= i < |r.namespaces|
      ensures Picks(r.namespaces[i].findings, HasTag(p), kept.namespaces[i].findings)
    {
      MatchingInOrder(p, r.namespaces[i].findings);
    }
    forall i | 0 <= i < |r.sections|
      ensures Picks(r.sections[i].findings, HasTag(p), kept.sections[i].findings)
    {
      MatchingInOrder(p, r.sections[i].findings);
    }
  }

  lemma SummaryOfLists(a: Report, b: Report)
    requires a.namespaces == b.namespaces && a.sections == b.sections
    ensures SummaryOf(a) == SummaryOf(b)
  {
  }

  function OwnedByTeam(team: string): NamespaceSection -> bool {
    (ns: NamespaceSection) => ns.team == team
  }

  lemma {:induction false} OwnedInOrder(team: string, nss: seq<NamespaceSection>)
    ensures Picks(nss, OwnedByTeam(team), OwnedBy(team, nss))
  {
    if nss == [] {
      PicksNothing(OwnedByTeam(team), Same<NamespaceSection>);
    } else {
      var init, ns := nss[..|nss| - 1], nss[|nss| - 1];
      assert nss == init + [ns];
      OwnedInOrder(team, init);
      PicksGrow(init, OwnedByTeam(team), Same, OwnedBy(team, init), ns);
    }
  }

  /** The team's namespaces stay whole and in order, and no section does. */
  lemma TeamExactly(team: string, r: Report)
    ensures var kept := TeamKept(team, r);
            && kept.clusterName == r.clusterName && kept.generatedAt == r.generatedAt && Recounted(kept)
            && kept.sections == [] && Picks(r.namespaces, OwnedByTeam(team), kept.namespaces)
  {
    OwnedInOrder(team, r.namespaces);
    SummaryOfLists(TeamKept(team, r), r.(namespaces := OwnedBy(team, r.namespaces), sections := []));
  }
}
