/** What a teams document says, entry by entry, and that its two readers agree on it. */
module TeamsReading {
  import opened Ordering
  import opened Teams
  import opened TeamsFile
  import opened TeamsMeaning

  /** `ys` are the namespaces `xs` in order. */
  ghost predicate InOrderOf(xs: seq<string>, ys: seq<string>) {
    multiset(ys) == multiset(xs) && forall k, l | 0 <= k < l < |ys| :: Leq(ys[k], ys[l])
  }

  lemma SortedInOrder(xs: seq<string>)
    ensures InOrderOf(xs, Sort(xs))
  {
    SortBySorts(Self, xs);
  }

  // Reading.

  /** The team is what the document says of its name, in either form. */
  ghost predicate AsWritten(raw: Raw, t: Team) {
    t.name in raw &&
    match raw[t.name]
    case Terse(namespaces) => InOrderOf(namespaces, t.namespaces) && t.notifyUrl == ""
    case Full(namespaces, url) => InOrderOf(namespaces, t.namespaces) && t.notifyUrl == url
    case Malformed => false
  }

  lemma ReadAt(raw: Raw, i: nat)
    requires Readable(raw) && i < |SpecOf(raw)|
    ensures i < |Listing(raw.Keys)| && SpecOf(raw)[i].name == Listing(raw.Keys)[i]
    ensures AsWritten(raw, SpecOf(raw)[i])
  {
    var name := Listing(raw.Keys)[i];
    assert name in raw.Keys;
    SortedInOrder(raw[name].namespaces);
  }

  lemma ReadOfName(raw: Raw, name: string) returns (i: nat)
    requires name in raw
    ensures i < |SpecOf(raw)| && SpecOf(raw)[i].name == name
  {
    var names := Listing(raw.Keys);
    assert name in names;
    i :| i < |names| && names[i] == name;
  }

  /** One team per entry, in the order of the names, as the document has it. */
  lemma ReadExactly(raw: Raw)
    requires Readable(raw)
    ensures |SpecOf(raw)| == |raw|
    ensures forall i, j | 0 <= i < j < |SpecOf(raw)| :: Less(SpecOf(raw)[i].name, SpecOf(raw)[j].name)
    ensures forall i | 0 <= i < |SpecOf(raw)| :: AsWritten(raw, SpecOf(raw)[i])
    ensures forall name | name in raw :: exists i :: 0 <= i < |SpecOf(raw)| && SpecOf(raw)[i].name == name
  {
    ListingSize(Listing(raw.Keys), raw.Keys);
    assert |raw| == |raw.Keys|;
    forall i, j | 0 <= i < j < |SpecOf(raw)|
      ensures Less(SpecOf(raw)[i].name, SpecOf(raw)[j].name)
    {
      ReadAt(raw, i);
      ReadAt(raw, j);
    }
    forall i | 0 <= i < |SpecOf(raw)|
      ensures AsWritten(raw, SpecOf(raw)[i])
    {
      ReadAt(raw, i);
    }
    forall name | name in raw
      ensures exists i :: 0 <= i < |SpecOf(raw)| && SpecOf(raw)[i].name == name
    {
      var i := ReadOfName(raw, name);
    }
  }

  // Writing.

  /** No later team has the name of this one. */
  ghost predicate LastNamed(spec: Spec, i: nat) {
    i < |spec| && forall k | i < k < |spec| :: spec[k].name != spec[i].name
  }

  /** The entry says of the team what there is to say. */
  ghost predicate Records(t: Team, e: Entry) {
    e.Full? && InOrderOf(t.namespaces, e.namespaces) && e.notifyUrl == t.notifyUrl
  }

  /** The document's entry of a name is that of the last team called so. */
  lemma {:induction false} FileExactly(spec: Spec, i: nat)
    requires LastNamed(spec, i)
    ensures spec[i].name in FileOf(spec) && Records(spec[i], FileOf(spec)[spec[i].name])
  {
    var init, t := spec[..|spec| - 1], spec[|spec| - 1];
    if i < |init| {
      assert t.name != spec[i].name;
      FileExactly(init, i);
    } else {
      SortedInOrder(t.namespaces);
    }
  }

  lemma FileNames(spec: Spec, name: string)
    ensures name in FileOf(spec) <==> exists t :: t in spec && t.name == name
  {
    FileKeys(spec);
    assert name in FileOf(spec) <==> name in FileOf(spec).Keys;
  }

  // Looking up.

  lemma AsksExactly(raw: Raw, team: string, ns: string)
    requires Readable(raw)
    ensures Asks(raw, team, ns) <==> team in raw && ns in raw[team].namespaces
  {
  }

  /** No namespace is listed by two entries. */
  lemma AmbiguityExactly(raw: Raw)
    requires Readable(raw)
    ensures Unambiguous(raw) <==>
            forall a, b, ns | a in raw && b in raw && ns in raw[a].namespaces && ns in raw[b].namespaces :: a == b
  {
    forall a, ns
      ensures Asks(raw, a, ns) <==> a in raw && ns in raw[a].namespaces
    {
      AsksExactly(raw, a, ns);
    }
  }

  predicate ListsNamespace(raw: Raw, team: string, ns: string) {
    team in raw && (raw[team].Terse? || raw[team].Full?) && ns in raw[team].namespaces
  }

  /** A failing load names an entry in neither form, or two entries that list one namespace. */
  lemma RefusalExactly(raw: Raw, p: Problem)
    ensures ProblemIn(raw, p) <==>
            match p
            case BadEntry(team) => team in raw && raw[team] == Malformed
            case TwoOwners(ns, a, b) => a != b && ListsNamespace(raw, a, ns) && ListsNamespace(raw, b, ns)
            case _ => false
  {
  }

  ghost predicate Owns(cfg: Config, team: string, ns: string) {
    ns in cfg.namespaceTeam && cfg.namespaceTeam[ns] == team
  }

  /** The entry is in the structured form and has a webhook. */
  predicate HasUrl(raw: Raw, team: string) {
    team in raw && raw[team].Full? && raw[team].notifyUrl != ""
  }

  ghost predicate OwnsAsListed(cfg: Config, raw: Raw)
    requires Readable(raw)
  {
    forall ns, team :: Owns(cfg, team, ns) <==> team in raw && ns in raw[team].namespaces
  }

  ghost predicate NotifiesAsWritten(cfg: Config, raw: Raw) {
    forall team :: (team in cfg.notifyURLs <==> HasUrl(raw, team))
                   && (HasUrl(raw, team) && team in cfg.notifyURLs ==> cfg.notifyURLs[team] == raw[team].notifyUrl)
  }

  /** The lookup has exactly the listed namespaces and the written webhooks. */
  lemma LookupExactly(cfg: Config, raw: Raw)
    requires Readable(raw)
    ensures Resolves(cfg, raw, raw.Keys) <==> OwnsAsListed(cfg, raw) && NotifiesAsWritten(cfg, raw)
  {
    forall team, ns
      ensures Asks(raw, team, ns) <==> team in raw && ns in raw[team].namespaces
    {
      AsksExactly(raw, team, ns);
    }
    assert forall team | team in raw :: HasUrl(raw, team) <==> UrlIn(raw[team]) != "";
    if OwnsAsListed(cfg, raw) && NotifiesAsWritten(cfg, raw) {
      forall ns | ns in cfg.namespaceTeam
        ensures Asks(raw, cfg.namespaceTeam[ns], ns)
      {
        assert Owns(cfg, cfg.namespaceTeam[ns], ns);
      }
    }
  }

  /** The team that a document's only lister of a namespace is. */
  lemma ListerIsLast(raw: Raw, i: nat, ns: string)
    requires Readable(raw) && Unambiguous(raw) && i < |SpecOf(raw)| && ns in SpecOf(raw)[i].namespaces
    ensures LastToList(SpecOf(raw), ns, i)
    ensures SpecOf(raw)[i].name in raw && ns in raw[SpecOf(raw)[i].name].namespaces
  {
    var spec := SpecOf(raw);
    ReadExactly(raw);
    SameMembers(raw, spec[i], ns);
    forall k | i < k < |spec|
      ensures ns !in spec[k].namespaces
    {
      assert Less(spec[i].name, spec[k].name);
      SameMembers(raw, spec[k], ns);
      AsksExactly(raw, spec[k].name, ns);
      AsksExactly(raw, spec[i].name, ns);
    }
  }

  lemma SameMembers(raw: Raw, t: Team, ns: string)
    requires AsWritten(raw, t)
    ensures ns in t.namespaces <==> ns in raw[t.name].namespaces
  {
    assert ns in t.namespaces <==> ns in multiset(t.namespaces);
    assert ns in raw[t.name].namespaces <==> ns in multiset(raw[t.name].namespaces);
  }

  /** The team a document makes of a name. */
  lemma TeamCalled(raw: Raw, name: string) returns (i: nat)
    requires Readable(raw) && name in raw
    ensures i < |SpecOf(raw)| && SpecOf(raw)[i].name == name && AsWritten(raw, SpecOf(raw)[i])
    ensures forall k | i < k < |SpecOf(raw)| :: SpecOf(raw)[k].name != name
  {
    var spec := SpecOf(raw);
    ReadExactly(raw);
    i := ReadOfName(raw, name);
    forall k | i < k < |spec|
      ensures spec[k].name != name
    {
      assert Less(spec[i].name, spec[k].name);
    }
  }

  lemma OwnersAgree(raw: Raw, ns: string, team: string)
    requires Readable(raw) && Unambiguous(raw)
    ensures Owns(ConfigOf(SpecOf(raw)), team, ns) <==> team in raw && ns in raw[team].namespaces
  {
    var spec := SpecOf(raw);
    OwnerIsLastToList(spec, ns);
    if ns in ConfigOf(spec).namespaceTeam {
      var i: nat :| i < |spec| && ns in spec[i].namespaces;
      ListerIsLast(raw, i, ns);
    }
    if team in raw && ns in raw[team].namespaces {
      var i := TeamCalled(raw, team);
      SameMembers(raw, spec[i], ns);
      ListerIsLast(raw, i, ns);
    }
  }

  lemma WebhooksAgree(raw: Raw, team: string)
    requires Readable(raw)
    ensures var urls := ConfigOf(SpecOf(raw)).notifyURLs;
            (team in urls <==> HasUrl(raw, team)) && (team in urls ==> urls[team] == raw[team].notifyUrl)
  {
    var spec := SpecOf(raw);
    WebhookIsLast(spec, team);
    if HasWebhook(spec, team) {
      var k: nat :| k < |spec| && spec[k].name == team && spec[k].notifyUrl != "";
      ReadAt(raw, k);
    }
    if team in raw {
      var i := TeamCalled(raw, team);
      if HasWebhook(spec, team) {
        var k: nat :| k < |spec| && spec[k].name == team && spec[k].notifyUrl != "";
        NameOnce(raw, k, i);
      }
      if spec[i].notifyUrl != "" {
        assert LastWithWebhook(spec, team, i);
      }
    }
  }

  lemma NameOnce(raw: Raw, i: nat, j: nat)
    requires i < |SpecOf(raw)| && j < |SpecOf(raw)| && SpecOf(raw)[i].name == SpecOf(raw)[j].name
    ensures i == j
  {
    ReadIsDistinct(raw);
  }

  lemma AllOwnersAgree(raw: Raw, cfg: Config)
    requires Readable(raw) && Unambiguous(raw) && cfg == ConfigOf(SpecOf(raw))
    ensures OwnsAsListed(cfg, raw)
  {
    forall ns, team
      ensures Owns(cfg, team, ns) <==> team in raw && ns in raw[team].namespaces
    {
      OwnersAgree(raw, ns, team);
    }
  }

  lemma AllWebhooksAgree(raw: Raw, cfg: Config)
    requires Readable(raw) && cfg == ConfigOf(SpecOf(raw))
    ensures NotifiesAsWritten(cfg, raw)
  {
    forall team
      ensures team in cfg.notifyURLs <==> HasUrl(raw, team)
      ensures HasUrl(raw, team) && team in cfg.notifyURLs ==> cfg.notifyURLs[team] == raw[team].notifyUrl
    {
      WebhooksAgree(raw, team);
    }
  }

  /** On every document that `Load` accepts, the mapping that `ParseSpec` reads gives the same lookup. */
  lemma ReadersAgree(raw: Raw, cfg: Config)
    requires Readable(raw) && Unambiguous(raw) && cfg == ConfigOf(SpecOf(raw))
    ensures Resolves(cfg, raw, raw.Keys)
  {
    AllOwnersAgree(raw, cfg);
    AllWebhooksAgree(raw, cfg);
    LookupExactly(cfg, raw);
  }
}
