/** Narrowing a report to a compliance framework or to one team. */
module Filters {
  import opened Reports
  import opened Views

  /** A control prefix and the case table it is compared with; the statements below hold for any table. */
  datatype Pattern = Pattern(prefix: string, lower: char -> char)

  function Lower(p: Pattern, s: string): string {
    seq(|s|, i requires 0 <= i < |s| => p.lower(s[i]))
  }

  /** Some control starts with `prefix`, whatever the case of either. */
  ghost predicate Tagged(p: Pattern, f: Finding) {
    exists c :: c in f.controls && Lower(p, p.prefix) <= Lower(p, c)
  }

  ghost function Matching(p: Pattern, fs: seq<Finding>): seq<Finding> {
    if fs == [] then []
    else
      var kept, f := Matching(p, fs[..|fs| - 1]), fs[|fs| - 1];
      if Tagged(p, f) then kept + [f] else kept
  }

  ghost function MatchingNamespaces(p: Pattern, nss: seq<NamespaceSection>): seq<NamespaceSection> {
    seq(|nss|, i requires 0 <= i < |nss| => nss[i].(findings := Matching(p, nss[i].findings)))
  }

  ghost function MatchingSections(p: Pattern, secs: seq<Section>): seq<Section> {
    seq(|secs|, i requires 0 <= i < |secs| => secs[i].(findings := Matching(p, secs[i].findings)))
  }

  ghost function MatchingLists(p: Pattern, r: Report): Report {
    r.(namespaces := MatchingNamespaces(p, r.namespaces), sections := MatchingSections(p, r.sections))
  }

  function Finalized(r: Report): Report {
    r.(summary := SummaryOf(r))
  }

  ghost function ControlsKept(p: Pattern, r: Report): Report {
    Finalized(MatchingLists(p, r))
  }

  function OwnedBy(team: string, nss: seq<NamespaceSection>): seq<NamespaceSection> {
    if nss == [] then []
    else
      var kept, ns := OwnedBy(team, nss[..|nss| - 1]), nss[|nss| - 1];
      if ns.team == team then kept + [ns] else kept
  }

  function TeamKept(team: string, r: Report): Report {
    Finalized(r.(namespaces := OwnedBy(team, r.namespaces), sections := []))
  }

  method HasControl(p: Pattern, lowered: string, f: Finding) returns (found: bool)
    ensures found <==> exists c :: c in f.controls && lowered <= Lower(p, c)
  {
    for i := 0 to |f.controls|
      invariant forall c | c in f.controls[..i] :: !(lowered <= Lower(p, c))
    {
      if lowered <= Lower(p, f.controls[i]) {
        return true;
      }
    }
    assert f.controls[..|f.controls|] == f.controls;
    found := false;
  }

  method Match(p: Pattern, fs: seq<Finding>) returns (kept: seq<Finding>)
    ensures kept == Matching(p, fs)
  {
    kept := [];
    for i := 0 to |fs|
      invariant kept == Matching(p, fs[..i])
    {
      assert fs[..i + 1][..i] == fs[..i];
      var found := HasControl(p, Lower(p, p.prefix), fs[i]);
      if found {
        kept := kept + [fs[i]];
      }
    }
    assert fs[..|fs|] == fs;
  }

  method FilterControls(r: Report, p: Pattern) returns (kept: Report)
    ensures kept == ControlsKept(p, r)
  {
    var secs, nss := r.sections, r.namespaces;
    for i := 0 to |secs|
      invariant |secs| == |r.sections| && secs[i..] == r.sections[i..]
      invariant secs[..i] == MatchingSections(p, r.sections)[..i]
    {
      assert secs[i] == r.sections[i..][0];
      var fs := Match(p, secs[i].findings);
      secs := secs[i := secs[i].(findings := fs)];
    }
    assert secs[..|secs|] == secs == MatchingSections(p, r.sections);
    for i := 0 to |nss|
      invariant |nss| == |r.namespaces| && nss[i..] == r.namespaces[i..]
      invariant nss[..i] == MatchingNamespaces(p, r.namespaces)[..i]
    {
      assert nss[i] == r.namespaces[i..][0];
      var fs := Match(p, nss[i].findings);
      nss := nss[i := nss[i].(findings := fs)];
    }
    assert nss[..|nss|] == nss == MatchingNamespaces(p, r.namespaces);
    kept := Finalize(r.(namespaces := nss, sections := secs));
  }

  method FilterTeam(r: Report, team: string) returns (kept: Report)
    ensures kept == TeamKept(team, r)
  {
    var out := [];
    for i := 0 to |r.namespaces|
      invariant out == OwnedBy(team, r.namespaces[..i])
    {
      assert r.namespaces[..i + 1][..i] == r.namespaces[..i];
      if r.namespaces[i].team == team {
        out := out + [r.namespaces[i]];
      }
    }
    assert r.namespaces[..|r.namespaces|] == r.namespaces;
    kept := Finalize(r.(namespaces := out, sections := []));
  }

  // Algebra of the filters.

  /** Two frameworks narrow in either order. */
  lemma {:induction false} MatchingCommutes(p: Pattern, q: Pattern, fs: seq<Finding>)
    ensures Matching(p, Matching(q, fs)) == Matching(q, Matching(p, fs))
    ensures p == q ==> Matching(p, Matching(q, fs)) == Matching(p, fs)
  {
    if fs != [] {
      var init, f := fs[..|fs| - 1], fs[|fs| - 1];
      MatchingCommutes(p, q, init);
    }
  }

  lemma {:induction false} OwnedTwice(team: string, nss: seq<NamespaceSection>)
    ensures OwnedBy(team, OwnedBy(team, nss)) == OwnedBy(team, nss)
  {
    if nss != [] {
      OwnedTwice(team, nss[..|nss| - 1]);
    }
  }

  lemma MatchingSplits(p: Pattern, nss: seq<NamespaceSection>, ns: NamespaceSection)
    ensures MatchingNamespaces(p, nss + [ns])
         == MatchingNamespaces(p, nss) + [ns.(findings := Matching(p, ns.findings))]
  {
  }

  lemma {:induction false} OwnedMatches(p: Pattern, team: string, nss: seq<NamespaceSection>)
    ensures OwnedBy(team, MatchingNamespaces(p, nss)) == MatchingNamespaces(p, OwnedBy(team, nss))
  {
    if nss != [] {
      var init, ns := nss[..|nss| - 1], nss[|nss| - 1];
      assert init + [ns] == nss;
      OwnedMatches(p, team, init);
      MatchingSplits(p, init, ns);
      MatchingSplits(p, OwnedBy(team, init), ns);
    }
  }

  /** Filters commute with each other, summaries included. */
  lemma FiltersCommute(r: Report, p: Pattern, q: Pattern, team: string)
    ensures TeamKept(team, ControlsKept(p, r)) == ControlsKept(p, TeamKept(team, r))
    ensures ControlsKept(p, ControlsKept(q, r)) == ControlsKept(q, ControlsKept(p, r))
  {
    OwnedMatches(p, team, r.namespaces);
    assert MatchingSections(p, []) == [];
    ListsCommute(r, p, q);
  }

  lemma ListsCommute(r: Report, p: Pattern, q: Pattern)
    ensures MatchingLists(p, MatchingLists(q, r)) == MatchingLists(q, MatchingLists(p, r))
    ensures p == q ==> MatchingLists(p, MatchingLists(q, r)) == MatchingLists(p, r)
  {
    var nss, secs := r.namespaces, r.sections;
    forall i | 0 <= i < |nss|
      ensures Matching(p, Matching(q, nss[i].findings)) == Matching(q, Matching(p, nss[i].findings))
      ensures p == q ==> Matching(p, Matching(q, nss[i].findings)) == Matching(p, nss[i].findings)
    {
      MatchingCommutes(p, q, nss[i].findings);
    }
    forall i | 0 <= i < |secs|
      ensures Matching(p, Matching(q, secs[i].findings)) == Matching(q, Matching(p, secs[i].findings))
      ensures p == q ==> Matching(p, Matching(q, secs[i].findings)) == Matching(p, secs[i].findings)
    {
      MatchingCommutes(p, q, secs[i].findings);
    }
    assert MatchingNamespaces(p, MatchingNamespaces(q, nss)) == MatchingNamespaces(q, MatchingNamespaces(p, nss));
    assert MatchingSections(p, MatchingSections(q, secs)) == MatchingSections(q, MatchingSections(p, secs));
    assert p == q ==> MatchingNamespaces(p, MatchingNamespaces(q, nss)) == MatchingNamespaces(p, nss);
    assert p == q ==> MatchingSections(p, MatchingSections(q, secs)) == MatchingSections(p, secs);
  }

  /** Filtering twice changes nothing more. */
  lemma FiltersIdempotent(r: Report, p: Pattern, team: string)
    ensures ControlsKept(p, ControlsKept(p, r)) == ControlsKept(p, r)
    ensures TeamKept(team, TeamKept(team, r)) == TeamKept(team, r)
  {
    ListsCommute(r, p, p);
    OwnedTwice(team, r.namespaces);
  }

  // Filters and the score.

  lemma {:induction false} MatchingCounts(p: Pattern, fs: seq<Finding>, s: Severity)
    ensures Count(Matching(p, fs), s) <= Count(fs, s)
  {
    if fs != [] {
      var init, f := fs[..|fs| - 1], fs[|fs| - 1];
      MatchingCounts(p, init, s);
    }
  }

  /** The lists of `hs` hold no more findings of a severity than those of `gs`, list by list. */
  lemma {:induction false} NoMoreFindings(gs: seq<Group>, hs: seq<Group>, s: Severity)
    requires |gs| == |hs| && forall i | 0 <= i < |gs| :: Count(hs[i].findings, s) <= Count(gs[i].findings, s)
    ensures Count(Findings(hs), s) <= Count(Findings(gs), s)
  {
    if gs != [] {
      var n := |gs| - 1;
      NoMoreFindings(gs[..n], hs[..n], s);
      CountConcat(Findings(gs[..n]), gs[n].findings, s);
      CountConcat(Findings(hs[..n]), hs[n].findings, s);
    }
  }

  lemma ControlsCount(p: Pattern, r: Report, s: Severity)
    ensures Count(Findings(Groups(ControlsKept(p, r))), s) <= Count(Findings(Groups(r)), s)
  {
    var gs, hs := Groups(r), Groups(ControlsKept(p, r));
    forall i | 0 <= i < |gs|
      ensures Count(hs[i].findings, s) <= Count(gs[i].findings, s)
    {
      MatchingCounts(p, gs[i].findings, s);
    }
    NoMoreFindings(gs, hs, s);
  }

  lemma {:induction false} OwnedCount(team: string, nss: seq<NamespaceSection>, s: Severity)
    ensures Count(Findings(NamespaceGroups(OwnedBy(team, nss))), s) <= Count(Findings(NamespaceGroups(nss)), s)
  {
    if nss != [] {
      var init, ns := nss[..|nss| - 1], nss[|nss| - 1];
      OwnedCount(team, init, s);
      GroupsOneMore(init, ns, s);
      GroupsOneMore(OwnedBy(team, init), ns, s);
      assert init + [ns] == nss;
    }
  }

  lemma GroupsOneMore(nss: seq<NamespaceSection>, ns: NamespaceSection, s: Severity)
    ensures Count(Findings(NamespaceGroups(nss + [ns])), s)
         == Count(Findings(NamespaceGroups(nss)), s) + Count(ns.findings, s)
  {
    assert NamespaceGroups(nss + [ns])[..|nss|] == NamespaceGroups(nss);
    CountConcat(Findings(NamespaceGroups(nss)), ns.findings, s);
  }

  lemma TeamCount(team: string, r: Report, s: Severity)
    ensures Count(Findings(Groups(TeamKept(team, r))), s) <= Count(Findings(Groups(r)), s)
  {
    OwnedCount(team, r.namespaces, s);
    FindingsConcat(NamespaceGroups(r.namespaces), SectionGroups(r.sections));
    CountConcat(Findings(NamespaceGroups(r.namespaces)), Findings(SectionGroups(r.sections)), s);
    var kept := NamespaceGroups(OwnedBy(team, r.namespaces));
    assert SectionGroups([]) == [] && kept + [] == kept;
  }

  /** A filtered report never scores lower than the whole. */
  lemma FiltersNeverLowerScore(r: Report, p: Pattern, team: string)
    ensures ControlsKept(p, r).summary.score >= SummaryOf(r).score
    ensures TeamKept(team, r).summary.score >= SummaryOf(r).score
  {
    ControlsCount(p, r, Info);
    ControlsCount(p, r, Warning);
    ControlsCount(p, r, Critical);
    TeamCount(team, r, Info);
    TeamCount(team, r, Warning);
    TeamCount(team, r, Critical);
    assert Groups(ControlsKept(p, r)) == Groups(MatchingLists(p, r));
  }
}
