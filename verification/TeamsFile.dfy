/** The teams file: written by `MarshalYAML`, read by `ParseSpec` and by `Load`, both of which visit
    the teams in the arbitrary order of a Go map. */
module TeamsFile {
  import opened Ordering
  import opened Reports
  import opened Teams

  function TeamName(t: Team): string { t.name }

  function Tidied(t: Team): Team {
    t.(namespaces := Sort(t.namespaces))
  }

  function TidyAll(spec: Spec): Spec {
    seq(|spec|, i requires 0 <= i < |spec| => Tidied(spec[i]))
  }

  /** The spec with its teams and their namespaces sorted. */
  function Canonical(spec: Spec): Spec {
    SortBy(TeamName, TidyAll(spec))
  }

  function EntryOf(t: Team): Entry {
    Full(Sort(t.namespaces), t.notifyUrl)
  }

  /** The document of a spec: a map from team names, the last team of a name wins. */
  function FileOf(spec: Spec): Raw {
    if spec == [] then map[]
    else FileOf(spec[..|spec| - 1])[spec[|spec| - 1].name := EntryOf(spec[|spec| - 1])]
  }

  method MarshalYAML(spec: Spec) returns (raw: Raw)
    ensures raw == FileOf(spec)
  {
    raw := map[];
    for i := 0 to |spec|
      invariant raw == FileOf(spec[..i])
    {
      assert spec[..i + 1][..i] == spec[..i];
      raw := raw[spec[i].name := Full(Sort(spec[i].namespaces), spec[i].notifyUrl)];
    }
    assert spec[..|spec|] == spec;
  }

  function TeamOf(name: string, e: Entry): Team {
    match e
    case Terse(ns) => Team(name, Sort(ns), "")
    case Full(ns, url) => Team(name, Sort(ns), url)
    case Malformed => Team(name, [], "")
  }

  ghost predicate Readable(raw: Raw) {
    forall name | name in raw :: !raw[name].Malformed?
  }

  /** The spec a document stands for: its teams in the order of their names. */
  ghost function SpecOf(raw: Raw): Spec {
    var names := Listing(raw.Keys);
    seq(|names|, i requires 0 <= i < |names| =>
      if names[i] in raw then TeamOf(names[i], raw[names[i]]) else Team(names[i], [], ""))
  }

  /** `ParseSpec`: the same result for every iteration order, an error iff an entry is malformed. */
  method ParseSpec(raw: Raw) returns (spec: Option<Spec>)
    ensures spec == if Readable(raw) then Some(SpecOf(raw)) else None
  {
    var teams: Spec := [];
    var rest := raw.Keys;
    while rest != {}
      invariant rest <= raw.Keys && forall n | n in raw && n !in rest :: !raw[n].Malformed?
      invariant Lists(teams, raw, raw.Keys - rest)
      decreases rest
    {
      var name :| name in rest;
      if raw[name].Malformed? {
        return None;
      }
      assert raw.Keys - (rest - {name}) == raw.Keys - rest + {name};
      rest := rest - {name};
      teams := teams + [TeamOf(name, raw[name])];
    }
    assert raw.Keys - {} == raw.Keys;
    SortedListIsSpec(teams, raw);
    spec := Some(SortBy(TeamName, teams));
  }

  /** `teams` holds one team per name of `names`, each as the document has it. */
  ghost predicate Lists(teams: Spec, raw: Raw, names: set<string>) {
    && DistinctTeams(teams)
    && (forall t | t in teams :: t.name in names && t.name in raw && t == TeamOf(t.name, raw[t.name]))
    && (forall n | n in names :: exists t :: t in teams && t.name == n)
  }

  function NamesOf(spec: Spec): seq<string> {
    seq(|spec|, i requires 0 <= i < |spec| => spec[i].name)
  }

  lemma {:induction false} InsertNames(t: Team, spec: Spec)
    ensures NamesOf(Insert(TeamName, t, spec)) == Insert(Self, t.name, NamesOf(spec))
  {
    if spec != [] {
      InsertNames(t, spec[1..]);
      assert NamesOf(spec)[1..] == NamesOf(spec[1..]);
      assert NamesOf([spec[0]] + Insert(TeamName, t, spec[1..])) == [spec[0].name] + NamesOf(Insert(TeamName, t, spec[1..]));
    }
    assert NamesOf([t] + spec) == [t.name] + NamesOf(spec);
  }

  /** Sorting teams by name sorts their names. */
  lemma {:induction false} SortNames(spec: Spec)
    ensures NamesOf(SortBy(TeamName, spec)) == Sort(NamesOf(spec))
  {
    if spec != [] {
      SortNames(spec[1..]);
      InsertNames(spec[0], SortBy(TeamName, spec[1..]));
      assert NamesOf(spec)[1..] == NamesOf(spec[1..]);
    }
  }

  lemma ListedNames(teams: Spec, raw: Raw)
    requires Lists(teams, raw, raw.Keys)
    ensures Sort(NamesOf(teams)) == Listing(raw.Keys)
  {
    var names := NamesOf(teams);
    forall n
      ensures n in names <==> n in raw.Keys
    {
      if n in raw.Keys {
        var t :| t in teams && t.name == n;
        var i :| 0 <= i < |teams| && teams[i] == t;
        assert names[i] == n;
      }
      if n in names {
        var i :| 0 <= i < |names| && names[i] == n;
        assert teams[i] in teams;
      }
    }
    SortIsListing(names, raw.Keys);
    ListingUnique(Sort(names), Listing(raw.Keys), raw.Keys);
  }

  /** The team of a listed name is the one the document has. */
  lemma TeamAt(teams: Spec, raw: Raw, sorted: Spec, k: nat)
    requires Lists(teams, raw, raw.Keys) && multiset(sorted) == multiset(teams)
    requires NamesOf(sorted) == Listing(raw.Keys) && k < |sorted|
    ensures k < |SpecOf(raw)| && sorted[k] == SpecOf(raw)[k]
  {
    var t := sorted[k];
    assert NamesOf(sorted)[k] == t.name;
    assert t in multiset(teams);
    assert t in teams;
  }

  lemma SortedListIsSpec(teams: Spec, raw: Raw)
    requires Lists(teams, raw, raw.Keys)
    ensures SortBy(TeamName, teams) == SpecOf(raw)
  {
    var sorted, spec := SortBy(TeamName, teams), SpecOf(raw);
    SortBySorts(TeamName, teams);
    SortNames(teams);
    ListedNames(teams, raw);
    assert |sorted| == |NamesOf(sorted)| == |spec|;
    forall k | 0 <= k < |sorted|
      ensures sorted[k] == spec[k]
    {
      TeamAt(teams, raw, sorted, k);
    }
  }

  // Writing and reading back.

  ghost function TeamNames(spec: Spec): set<string> {
    set t | t in spec :: t.name
  }

  lemma {:induction false} FileKeys(spec: Spec)
    ensures FileOf(spec).Keys == TeamNames(spec)
  {
    if spec != [] {
      var init, t := spec[..|spec| - 1], spec[|spec| - 1];
      FileKeys(init);
      assert spec == init + [t];
      assert forall x :: x in spec <==> x in init || x == t;
      assert TeamNames(spec) == TeamNames(init) + {t.name};
    }
  }

  lemma {:induction false} FileHolds(spec: Spec)
    requires DistinctTeams(spec)
    ensures forall t | t in spec :: t.name in FileOf(spec) && FileOf(spec)[t.name] == EntryOf(t)
  {
    if spec != [] {
      var init, t := spec[..|spec| - 1], spec[|spec| - 1];
      FileHolds(init);
      FileKeys(spec);
      forall x | x in spec
        ensures x == t || (x in init && x.name != t.name)
      {
        var i :| 0 <= i < |spec| && spec[i] == x;
        if i < |init| {
          assert init[i] == x;
          assert spec[i].name != spec[|init|].name;
        }
      }
    }
  }

  lemma {:induction false} FileAlwaysReadable(spec: Spec)
    ensures Readable(FileOf(spec))
  {
    if spec != [] {
      FileAlwaysReadable(spec[..|spec| - 1]);
    }
  }

  lemma SortTwice(xs: seq<string>)
    ensures Sort(Sort(xs)) == Sort(xs)
  {
    SortBySorts(Self, xs);
    SortByOfSorted(Self, Sort(xs));
  }

  /** A spec with distinct team names comes back from the file sorted and otherwise unchanged. */
  lemma FileRoundTrip(spec: Spec)
    requires DistinctTeams(spec)
    ensures Readable(FileOf(spec)) && SpecOf(FileOf(spec)) == Canonical(spec)
    ensures multiset(Canonical(spec)) == multiset(TidyAll(spec))
  {
    FileAlwaysReadable(spec);
    TidyListed(spec);
    SortedListIsSpec(TidyAll(spec), FileOf(spec));
    SortBySorts(TeamName, TidyAll(spec));
  }

  lemma TidyListed(spec: Spec)
    requires DistinctTeams(spec)
    ensures Lists(TidyAll(spec), FileOf(spec), FileOf(spec).Keys)
  {
    var tidy, raw := TidyAll(spec), FileOf(spec);
    FileHolds(spec);
    FileKeys(spec);
    forall t | t in tidy
      ensures t.name in raw && t == TeamOf(t.name, raw[t.name])
    {
      var i :| 0 <= i < |tidy| && tidy[i] == t;
      assert spec[i] in spec;
      SortTwice(spec[i].namespaces);
    }
    forall n | n in raw.Keys
      ensures exists t :: t in tidy && t.name == n
    {
      var x :| x in spec && x.name == n;
      var i :| 0 <= i < |spec| && spec[i] == x;
      assert tidy[i] in tidy && tidy[i].name == n;
    }
  }

  lemma {:induction false} FileSize(spec: Spec)
    ensures |FileOf(spec)| <= |spec|
    ensures |FileOf(spec)| == |spec| ==> DistinctTeams(spec)
  {
    if spec != [] {
      var init, t := spec[..|spec| - 1], spec[|spec| - 1];
      FileSize(init);
      FileKeys(init);
      if t.name in FileOf(init) {
        assert FileOf(spec).Keys == FileOf(init).Keys;
      } else {
        assert FileOf(spec).Keys == FileOf(init).Keys + {t.name};
        assert spec == init + [t];
        if DistinctTeams(init) {
          DistinctOneMore(init, t);
        }
      }
    }
  }

  lemma DistinctOneMore(init: Spec, t: Team)
    requires DistinctTeams(init) && t.name !in TeamNames(init)
    ensures DistinctTeams(init + [t])
  {
    forall i | 0 <= i < |init|
      ensures init[i].name != t.name
    {
      assert init[i] in init;
    }
  }

  lemma {:induction false} ListingSize(names: seq<string>, all: set<string>)
    requires IsListing(names, all)
    ensures |names| == |all|
  {
    if names == [] {
      assert all == {};
    } else {
      ListingSize(names[1..], all - {names[0]});
      assert names[0] in all;
    }
  }

  /** The round trip works exactly for specs with distinct team names. */
  lemma RoundTripExactly(spec: Spec)
    ensures SpecOf(FileOf(spec)) == Canonical(spec) <==> DistinctTeams(spec)
  {
    if DistinctTeams(spec) {
      FileRoundTrip(spec);
    } else {
      FileSize(spec);
      SortBySorts(TeamName, TidyAll(spec));
      ListingSize(Listing(FileOf(spec).Keys), FileOf(spec).Keys);
    }
  }

  lemma ReadName(raw: Raw, i: nat)
    requires i < |SpecOf(raw)|
    ensures i < |Listing(raw.Keys)| && SpecOf(raw)[i].name == Listing(raw.Keys)[i]
  {
  }

  lemma ListedApart(names: set<string>, i: nat, j: nat)
    requires i < j < |Listing(names)|
    ensures Listing(names)[i] != Listing(names)[j]
  {
    assert Less(Listing(names)[i], Listing(names)[j]);
  }

  /** What is read from a file has distinct names and is already in canonical form. */
  lemma ReadIsDistinct(raw: Raw)
    ensures DistinctTeams(SpecOf(raw))
  {
    var spec := SpecOf(raw);
    forall i, j | 0 <= i < j < |spec|
      ensures spec[i].name != spec[j].name
    {
      ReadName(raw, i);
      ReadName(raw, j);
      ListedApart(raw.Keys, i, j);
    }
  }

  lemma ReadIsCanonical(raw: Raw)
    requires Readable(raw)
    ensures Canonical(SpecOf(raw)) == SpecOf(raw)
  {
    var names, spec := Listing(raw.Keys), SpecOf(raw);
    forall i | 0 <= i < |spec|
      ensures Tidied(spec[i]) == spec[i] && spec[i].name == names[i]
    {
      assert names[i] in raw.Keys;
      match raw[names[i]]
      case Terse(ns) => SortTwice(ns);
      case Full(ns, _) => SortTwice(ns);
    }
    assert TidyAll(spec) == spec;
    forall i, j | 0 <= i < j < |spec|
      ensures Leq(TeamName(spec[i]), TeamName(spec[j]))
    {
      assert Less(names[i], names[j]);
    }
    SortByOfSorted(TeamName, spec);
  }

  // Load.

  function NamespacesOf(e: Entry): seq<string> {
    match e
    case Terse(ns) => ns
    case Full(ns, _) => ns
    case Malformed => []
  }

  function UrlIn(e: Entry): string {
    if e.Full? then e.notifyUrl else ""
  }

  /** Team `team` of the document lists namespace `ns`. */
  ghost predicate Asks(raw: Raw, team: string, ns: string) {
    team in raw && ns in NamespacesOf(raw[team])
  }

  ghost predicate Unambiguous(raw: Raw) {
    forall a, b, ns | Asks(raw, a, ns) && Asks(raw, b, ns) :: a == b
  }

  /** The lookup of a document: each listed namespace to its team, each webhook to its team. */
  ghost predicate Resolves(cfg: Config, raw: Raw, names: set<string>) {
    && (forall team, ns | team in names && Asks(raw, team, ns) ::
          ns in cfg.namespaceTeam && cfg.namespaceTeam[ns] == team)
    && (forall ns | ns in cfg.namespaceTeam ::
          cfg.namespaceTeam[ns] in names && Asks(raw, cfg.namespaceTeam[ns], ns))
    && (forall team :: team in cfg.notifyURLs <==> team in names && team in raw && UrlIn(raw[team]) != "")
    && (forall team | team in cfg.notifyURLs :: cfg.notifyURLs[team] == UrlIn(raw[team]))
  }

  /** The problem really is one of the document. */
  ghost predicate ProblemIn(raw: Raw, p: Problem) {
    match p
    case BadEntry(team) => team in raw && raw[team].Malformed?
    case TwoOwners(ns, a, b) => a != b && Asks(raw, a, ns) && Asks(raw, b, ns)
    case _ => false
  }

  /** Fails exactly on a malformed entry or a namespace with two owners, in whatever order the
      teams are visited; otherwise resolves the whole document. */
  method Load(raw: Raw) returns (cfg: Config, problem: Option<Problem>)
    ensures problem.None? <==> Readable(raw) && Unambiguous(raw)
    ensures problem.None? ==> Resolves(cfg, raw, raw.Keys)
    ensures problem.Some? ==> ProblemIn(raw, problem.value)
  {
    cfg := Config(map[], map[]);
    var rest := raw.Keys;
    while rest != {}
      invariant rest <= raw.Keys && forall n | n in raw && n !in rest :: !raw[n].Malformed?
      invariant Resolves(cfg, raw, raw.Keys - rest)
      decreases rest
    {
      var team :| team in rest;
      if raw[team].Malformed? {
        return cfg, Some(BadEntry(team));
      }
      var next, conflict := LoadTeam(raw, team, raw.Keys - rest, cfg);
      if conflict.Some? {
        return cfg, conflict;
      }
      assert raw.Keys - (rest - {team}) == raw.Keys - rest + {team};
      rest := rest - {team};
      cfg := next;
    }
    assert raw.Keys - {} == raw.Keys;
    problem := None;
  }

  /** One iteration of `Load`. */
  method LoadTeam(raw: Raw, team: string, ghost done: set<string>, cfg: Config)
    returns (next: Config, conflict: Option<Problem>)
    requires Resolves(cfg, raw, done) && team in raw && team !in done && done <= raw.Keys
    ensures conflict.None? ==> Resolves(next, raw, done + {team})
    ensures conflict.Some? ==> !Unambiguous(raw) && ProblemIn(raw, conflict.value)
  {
    var list := NamespacesOf(raw[team]);
    var urls := if UrlIn(raw[team]) != "" then cfg.notifyURLs[team := UrlIn(raw[team])] else cfg.notifyURLs;
    var owners := cfg.namespaceTeam;
    for k := 0 to |list|
      invariant forall ns | ns in cfg.namespaceTeam :: ns in owners && owners[ns] == cfg.namespaceTeam[ns]
      invariant forall ns | ns in owners :: ns in cfg.namespaceTeam || (owners[ns] == team && ns in list)
      invariant forall i | 0 <= i < k :: list[i] in owners && owners[list[i]] == team
    {
      var ns := list[k];
      if ns in owners && owners[ns] != team {
        assert Asks(raw, owners[ns], ns) && Asks(raw, team, ns);
        return cfg, Some(TwoOwners(ns, owners[ns], team));
      }
      owners := owners[ns := team];
    }
    TeamLoaded(raw, team, done, cfg, owners);
    next, conflict := Config(owners, urls), None;
  }

  /** The lookup with the claims of one more team. */
  lemma TeamLoaded(raw: Raw, team: string, done: set<string>, cfg: Config, owners: map<string, string>)
    requires Resolves(cfg, raw, done) && team in raw && team !in done && done <= raw.Keys
    requires forall ns | ns in cfg.namespaceTeam :: ns in owners && owners[ns] == cfg.namespaceTeam[ns]
    requires forall ns | ns in owners :: ns in cfg.namespaceTeam || (owners[ns] == team && ns in NamespacesOf(raw[team]))
    requires forall ns | ns in NamespacesOf(raw[team]) :: ns in owners && owners[ns] == team
    ensures Resolves(Config(owners, if UrlIn(raw[team]) != "" then cfg.notifyURLs[team := UrlIn(raw[team])]
                                    else cfg.notifyURLs), raw, done + {team})
  {
  }

  /** The result does not depend on the order: a document resolves in only one way. */
  lemma ResolutionUnique(a: Config, b: Config, raw: Raw)
    requires Resolves(a, raw, raw.Keys) && Resolves(b, raw, raw.Keys)
    ensures a == b
  {
    forall ns
      ensures ns in a.namespaceTeam <==> ns in b.namespaceTeam
    {
    }
    assert a.namespaceTeam.Keys == b.namespaceTeam.Keys;
    forall ns | ns in a.namespaceTeam
      ensures a.namespaceTeam[ns] == b.namespaceTeam[ns]
    {
      assert Asks(raw, a.namespaceTeam[ns], ns);
    }
    assert a.notifyURLs.Keys == b.notifyURLs.Keys;
  }

  /** For distinct teams, loading the written file, in any order, fails exactly when the spec gives
      one namespace to two teams, and otherwise gives `Spec.Config`. */
  lemma LoadOfFile(spec: Spec)
    requires DistinctTeams(spec)
    ensures Readable(FileOf(spec))
    ensures Unambiguous(FileOf(spec)) <==> OneOwnerEach(Claims(spec))
    ensures OneOwnerEach(Claims(spec)) ==> Resolves(ConfigOf(spec), FileOf(spec), FileOf(spec).Keys)
  {
    FileAlwaysReadable(spec);
    var raw := FileOf(spec);
    if OneOwnerEach(Claims(spec)) {
      OwnersResolve(spec);
    }
    if Unambiguous(raw) {
      var claims := Claims(spec);
      forall i, j | 0 <= i < |claims| && 0 <= j < |claims| && claims[i].ns == claims[j].ns
        ensures claims[i].team == claims[j].team
      {
        ClaimIsAsked(spec, i);
        ClaimIsAsked(spec, j);
      }
    }
  }

  lemma OwnersResolve(spec: Spec)
    requires DistinctTeams(spec) && OneOwnerEach(Claims(spec))
    ensures Resolves(ConfigOf(spec), FileOf(spec), FileOf(spec).Keys)
  {
    var raw, owners := FileOf(spec), Owners(Claims(spec));
    UrlsOfDistinct(spec);
    forall team, ns | Asks(raw, team, ns)
      ensures ns in owners && owners[ns] == team
    {
      AskedIsOwned(spec, team, ns);
    }
    forall ns | ns in owners
      ensures Asks(raw, owners[ns], ns)
    {
      OwnedIsAsked(spec, ns);
    }
  }

  /** Loading the file of a validated spec never fails, in any order, and gives `Spec.Config`. */
  lemma LoadAgreesWithConfig(spec: Spec)
    requires ValidSpec(spec)
    ensures Readable(FileOf(spec)) && Unambiguous(FileOf(spec))
    ensures Resolves(ConfigOf(spec), FileOf(spec), FileOf(spec).Keys)
  {
    ValidIsDistinct(spec);
    ValidMeansOneOwner(spec);
    LoadOfFile(spec);
  }

  lemma AskedIsOwned(spec: Spec, team: string, ns: string)
    requires DistinctTeams(spec) && OneOwnerEach(Claims(spec)) && Asks(FileOf(spec), team, ns)
    ensures ns in Owners(Claims(spec)) && Owners(Claims(spec))[ns] == team
  {
    FileHolds(spec);
    FileKeys(spec);
    OwnersMap(Claims(spec));
    var x :| x in spec && x.name == team;
    var t :| 0 <= t < |spec| && spec[t] == x;
    SortBySorts(Self, spec[t].namespaces);
    var i := ClaimOfTeam(spec, t, ns);
  }

  lemma ClaimIsAsked(spec: Spec, i: nat)
    requires DistinctTeams(spec) && i < |Claims(spec)|
    ensures Asks(FileOf(spec), Claims(spec)[i].team, Claims(spec)[i].ns)
  {
    FileHolds(spec);
    var t := ClaimantOf(spec, i);
    assert spec[t] in spec;
    SortBySorts(Self, spec[t].namespaces);
  }

  lemma OwnedIsAsked(spec: Spec, ns: string)
    requires DistinctTeams(spec) && OneOwnerEach(Claims(spec)) && ns in Owners(Claims(spec))
    ensures Asks(FileOf(spec), Owners(Claims(spec))[ns], ns)
  {
    OwnersMap(Claims(spec));
    var i :| 0 <= i < |Claims(spec)| && Claims(spec)[i].ns == ns;
    ClaimIsAsked(spec, i);
  }

  lemma {:induction false} UrlsOfDistinct(spec: Spec)
    requires DistinctTeams(spec)
    ensures forall team :: team in Urls(spec) <==> team in FileOf(spec) && UrlIn(FileOf(spec)[team]) != ""
    ensures forall team | team in Urls(spec) :: Urls(spec)[team] == UrlIn(FileOf(spec)[team])
  {
    if spec != [] {
      var init, t := spec[..|spec| - 1], spec[|spec| - 1];
      UrlsOfDistinct(init);
      FileKeys(init);
      forall x | x in init
        ensures x.name != t.name
      {
        var i :| 0 <= i < |init| && init[i] == x;
        assert spec[i].name != spec[|init|].name;
      }
    }
  }

  lemma CanonicalMembers(spec: Spec)
    ensures forall x | x in spec :: Tidied(x) in Canonical(spec)
    ensures forall t | t in Canonical(spec) :: exists x :: x in spec && t == Tidied(x)
  {
    var tidy := TidyAll(spec);
    SortBySorts(TeamName, tidy);
    forall x | x in spec
      ensures Tidied(x) in Canonical(spec)
    {
      var i :| 0 <= i < |spec| && spec[i] == x;
      assert tidy[i] in tidy;
    }
    forall t | t in Canonical(spec)
      ensures exists x :: x in spec && t == Tidied(x)
    {
      var i :| 0 <= i < |tidy| && tidy[i] == t;
      assert spec[i] in spec;
    }
  }

  lemma EntryOfTidied(t: Team)
    ensures EntryOf(Tidied(t)) == EntryOf(t)
  {
    SortTwice(t.namespaces);
  }

  lemma CanonicalNames(spec: Spec)
    ensures TeamNames(Canonical(spec)) == TeamNames(spec)
  {
    CanonicalMembers(spec);
    forall n | n in TeamNames(spec)
      ensures n in TeamNames(Canonical(spec))
    {
      var x :| x in spec && x.name == n;
      assert Tidied(x).name == n;
    }
  }

  /** The file does not depend on the order in which teams and namespaces are listed. */
  lemma SameFile(spec: Spec)
    requires DistinctTeams(spec)
    ensures FileOf(Canonical(spec)) == FileOf(spec)
  {
    CanonicalDistinct(spec);
    FileKeys(spec);
    FileKeys(Canonical(spec));
    CanonicalNames(spec);
    forall n | n in FileOf(spec)
      ensures FileOf(Canonical(spec))[n] == FileOf(spec)[n]
    {
      var x :| x in spec && x.name == n;
      SameEntry(spec, x);
    }
  }

  lemma CanonicalDistinct(spec: Spec)
    requires DistinctTeams(spec)
    ensures DistinctTeams(Canonical(spec))
  {
    FileRoundTrip(spec);
    ReadIsDistinct(FileOf(spec));
  }

  lemma SameEntry(spec: Spec, t: Team)
    requires DistinctTeams(spec) && DistinctTeams(Canonical(spec)) && t in spec
    ensures t.name in FileOf(spec) && t.name in FileOf(Canonical(spec))
    ensures FileOf(Canonical(spec))[t.name] == FileOf(spec)[t.name]
  {
    FileHolds(spec);
    FileHolds(Canonical(spec));
    CanonicalMembers(spec);
    EntryOfTidied(t);
    assert Tidied(t) in Canonical(spec);
  }

  /** Both readers of the file of a validated spec give the lookup of the spec itself. */
  lemma BothReadersAgree(spec: Spec)
    requires ValidSpec(spec)
    ensures ConfigOf(SpecOf(FileOf(spec))) == ConfigOf(spec)
  {
    ValidIsDistinct(spec);
    ValidMeansOneOwner(spec);
    FileRoundTrip(spec);
    ReadIsDistinct(FileOf(spec));
    SameFile(spec);
    LoadOfFile(spec);
    LoadOfFile(Canonical(spec));
    ResolutionUnique(ConfigOf(spec), ConfigOf(Canonical(spec)), FileOf(spec));
  }
}
