/** What is reported about certificates and where: thresholds, the first reference of each secret, and the
    reasons why a Certificate is not ready. */
module CertificateReports {
  import opened Picking
  import opened Reports
  import opened Certificates

  // Time left, in milliseconds.

  /** Expired and under 7 days are critical, under 30 days is a warning, and more is not reported. */
  lemma ExpiryExactly(left: int)
    ensures left <= 0 ==> Expiry(left) == Some(Expired)
    ensures 0 < left < 604800000 ==> Expiry(left) == Some(ExpiresThisWeek)
    ensures 604800000 <= left < 2592000000 ==> Expiry(left) == Some(ExpiresThisMonth)
    ensures left >= 2592000000 ==> Expiry(left) == None
    ensures SeverityOf(Expired) == SeverityOf(ExpiresThisWeek) == Critical
    ensures SeverityOf(ExpiresThisMonth) == SeverityOf(Missing) == Warning
  {
  }

  // What is known about a secret.

  predicate Called(s: Secret, key: string) {
    s.ns + "/" + s.name == key
  }

  ghost predicate IsListed(secrets: seq<Secret>, key: string) {
    exists i :: 0 <= i < |secrets| && Called(secrets[i], key)
  }

  /** Of the secrets with that key, the last with a certificate that parses is this one. */
  ghost predicate LastParsed(secrets: seq<Secret>, key: string, i: nat) {
    && i < |secrets| && Called(secrets[i], key) && secrets[i].notAfter.Some?
    && forall k | i < k < |secrets| && Called(secrets[k], key) :: secrets[k].notAfter.None?
  }

  ghost predicate AnyParsed(secrets: seq<Secret>, key: string) {
    exists i :: 0 <= i < |secrets| && Called(secrets[i], key) && secrets[i].notAfter.Some?
  }

  lemma {:induction false} LookupExactly(secrets: seq<Secret>, key: string)
    ensures Lookup(secrets, key).listed <==> IsListed(secrets, key)
    ensures Lookup(secrets, key).notAfter.Some? <==> AnyParsed(secrets, key)
    ensures forall i: nat | LastParsed(secrets, key, i) :: Lookup(secrets, key).notAfter == secrets[i].notAfter
  {
    if secrets != [] {
      var init, s := secrets[..|secrets| - 1], secrets[|secrets| - 1];
      assert init + [s] == secrets;
      SecretsGrow(init, s, key);
      LookupExactly(init, key);
      LookupNext(init, s, key);
    }
  }

  lemma SecretsGrow(init: seq<Secret>, s: Secret, key: string)
    ensures IsListed(init + [s], key) <==> IsListed(init, key) || Called(s, key)
    ensures AnyParsed(init + [s], key) <==> AnyParsed(init, key) || (Called(s, key) && s.notAfter.Some?)
    ensures forall i: nat | LastParsed(init + [s], key, i) ::
              if Called(s, key) && s.notAfter.Some? then i == |init| else LastParsed(init, key, i)
  {
    var all := init + [s];
    assert all[|init|] == s && forall i | 0 <= i < |init| :: init[i] == all[i];
  }

  lemma LookupNext(init: seq<Secret>, s: Secret, key: string)
    ensures Lookup(init + [s], key)
         == if !Called(s, key) then Lookup(init, key)
            else Known(true, if s.notAfter.Some? then s.notAfter else Lookup(init, key).notAfter)
  {
    assert (init + [s])[..|init|] == init;
  }

  // Where a secret is referenced.

  /** The certificate reference number `k` of ingress or gateway number `i`. */
  datatype Place = AtIngress(i: nat, k: nat) | AtGateway(i: nat, k: nat)

  predicate Earlier(p: Place, q: Place) {
    match (p, q)
    case (AtIngress(i, k), AtIngress(j, l)) => i < j || (i == j && k < l)
    case (AtGateway(i, k), AtGateway(j, l)) => i < j || (i == j && k < l)
    case (AtIngress(_, _), AtGateway(_, _)) => true
    case (AtGateway(_, _), AtIngress(_, _)) => false
  }

  /** An ingress or gateway of an analysed namespace refers there to that secret of its namespace. */
  predicate RefersAt(c: Cluster, namespaces: set<string>, p: Place, r: Ref) {
    match p
    case AtIngress(i, k) =>
      i < |c.ingresses| && k < |c.ingresses[i].tls| &&
      var ing := c.ingresses[i];
      ing.ns in namespaces && ing.tls[k] != "" && r == Ref(ing.ns + "/" + ing.tls[k], "ingress/" + ing.name)
    case AtGateway(i, k) =>
      i < |c.gateways| && k < |c.gateways[i].refs| &&
      var gw := c.gateways[i];
      gw.ns in namespaces && r == Ref(gw.ns + "/" + gw.refs[k], "gateway/" + gw.name)
  }

  /** References `refs` are those at `places`, which are in order. */
  ghost predicate Placed(c: Cluster, namespaces: set<string>, refs: seq<Ref>, places: seq<Place>) {
    && |refs| == |places|
    && (forall m | 0 <= m < |refs| :: RefersAt(c, namespaces, places[m], refs[m]))
    && (forall m, n | 0 <= m < n < |refs| :: Earlier(places[m], places[n]))
  }

  ghost predicate NoneLeftOut(c: Cluster, namespaces: set<string>, places: seq<Place>) {
    forall p: Place, r | RefersAt(c, namespaces, p, r) :: p in places
  }

  lemma PlacedTogether(c: Cluster, namespaces: set<string>, a: seq<Ref>, p: seq<Place>, b: seq<Ref>, q: seq<Place>)
    requires Placed(c, namespaces, a, p) && Placed(c, namespaces, b, q)
    requires forall m, n | 0 <= m < |p| && 0 <= n < |q| :: Earlier(p[m], q[n])
    ensures Placed(c, namespaces, a + b, p + q)
  {
  }

  /** The references of one ingress, up to number `n`. */
  lemma {:induction false} IngressPlaces(c: Cluster, namespaces: set<string>, i: nat, n: nat) returns (places: seq<Place>)
    requires i < |c.ingresses| && n <= |c.ingresses[i].tls| && c.ingresses[i].ns in namespaces
    ensures Placed(c, namespaces, IngressRefs(c.ingresses[i], c.ingresses[i].tls[..n]), places)
    ensures forall p | p in places :: p.AtIngress? && p.i == i && p.k < n
    ensures forall k: nat | k < n && c.ingresses[i].tls[k] != "" :: AtIngress(i, k) in places
  {
    var ing := c.ingresses[i];
    places := [];
    if n > 0 {
      assert ing.tls[..n][..n - 1] == ing.tls[..n - 1];
      places := IngressPlaces(c, namespaces, i, n - 1);
      var before := IngressRefs(ing, ing.tls[..n - 1]);
      if ing.tls[n - 1] != "" {
        var r := Ref(ing.ns + "/" + ing.tls[n - 1], "ingress/" + ing.name);
        PlacedTogether(c, namespaces, before, places, [r], [AtIngress(i, n - 1)]);
        places := places + [AtIngress(i, n - 1)];
      } else {
        assert before + [] == before;
      }
    }
  }

  lemma {:induction false} GatewayPlaces(c: Cluster, namespaces: set<string>, i: nat, n: nat) returns (places: seq<Place>)
    requires i < |c.gateways| && n <= |c.gateways[i].refs| && c.gateways[i].ns in namespaces
    ensures Placed(c, namespaces, GatewayRefs(c.gateways[i], c.gateways[i].refs[..n]), places)
    ensures forall p | p in places :: p.AtGateway? && p.i == i && p.k < n
    ensures forall k: nat | k < n :: AtGateway(i, k) in places
  {
    var gw := c.gateways[i];
    places := [];
    if n > 0 {
      assert gw.refs[..n][..n - 1] == gw.refs[..n - 1];
      places := GatewayPlaces(c, namespaces, i, n - 1);
      var r := Ref(gw.ns + "/" + gw.refs[n - 1], "gateway/" + gw.name);
      PlacedTogether(c, namespaces, GatewayRefs(gw, gw.refs[..n - 1]), places, [r], [AtGateway(i, n - 1)]);
      places := places + [AtGateway(i, n - 1)];
    }
  }

  /** Every reference of the first `n` ingresses. */
  lemma {:induction false} AllIngressPlaces(c: Cluster, namespaces: set<string>, n: nat) returns (places: seq<Place>)
    requires n <= |c.ingresses|
    ensures Placed(c, namespaces, AllIngressRefs(c.ingresses[..n], namespaces), places)
    ensures forall p | p in places :: p.AtIngress? && p.i < n
    ensures forall p: Place, r | p.AtIngress? && p.i < n && RefersAt(c, namespaces, p, r) :: p in places
  {
    places := [];
    if n > 0 {
      assert c.ingresses[..n][..n - 1] == c.ingresses[..n - 1];
      places := AllIngressPlaces(c, namespaces, n - 1);
      var ing, before := c.ingresses[n - 1], AllIngressRefs(c.ingresses[..n - 1], namespaces);
      if ing.ns in namespaces {
        var mine := IngressPlaces(c, namespaces, n - 1, |ing.tls|);
        assert ing.tls[..|ing.tls|] == ing.tls;
        PlacedTogether(c, namespaces, before, places, IngressRefs(ing, ing.tls), mine);
        places := places + mine;
      } else {
        assert before + [] == before;
      }
    }
  }

  lemma {:induction false} AllGatewayPlaces(c: Cluster, namespaces: set<string>, n: nat) returns (places: seq<Place>)
    requires n <= |c.gateways|
    ensures Placed(c, namespaces, AllGatewayRefs(c.gateways[..n], namespaces), places)
    ensures forall p | p in places :: p.AtGateway? && p.i < n
    ensures forall p: Place, r | p.AtGateway? && p.i < n && RefersAt(c, namespaces, p, r) :: p in places
  {
    places := [];
    if n > 0 {
      assert c.gateways[..n][..n - 1] == c.gateways[..n - 1];
      places := AllGatewayPlaces(c, namespaces, n - 1);
      var gw, before := c.gateways[n - 1], AllGatewayRefs(c.gateways[..n - 1], namespaces);
      if gw.ns in namespaces {
        var mine := GatewayPlaces(c, namespaces, n - 1, |gw.refs|);
        assert gw.refs[..|gw.refs|] == gw.refs;
        PlacedTogether(c, namespaces, before, places, GatewayRefs(gw, gw.refs), mine);
        places := places + mine;
      } else {
        assert before + [] == before;
      }
    }
  }

  /** The references in the order of the check: each has its place, and no place is left out. */
  lemma ReferencesInOrder(c: Cluster, namespaces: set<string>) returns (places: seq<Place>)
    ensures Placed(c, namespaces, References(c, namespaces), places)
    ensures NoneLeftOut(c, namespaces, places)
  {
    var first := AllIngressPlaces(c, namespaces, |c.ingresses|);
    var second := AllGatewayPlaces(c, namespaces, |c.gateways|);
    assert c.ingresses[..|c.ingresses|] == c.ingresses && c.gateways[..|c.gateways|] == c.gateways;
    PlacedTogether(c, namespaces, AllIngressRefs(c.ingresses, namespaces), first,
                   AllGatewayRefs(c.gateways, namespaces), second);
    places := first + second;
  }

  // Where a finding stands.

  /** The secret's own reference there is the first, and it is the one the finding names. */
  ghost predicate FirstAt(c: Cluster, namespaces: set<string>, p: Place, f: CertFinding) {
    && RefersAt(c, namespaces, p, Ref(f.key, f.owner))
    && forall q: Place, r | Earlier(q, p) && RefersAt(c, namespaces, q, r) :: r.key != f.key
  }

  /** What is wrong with the secret: not listed though secrets can be read, or too little time left. */
  ghost predicate Wrong(c: Cluster, f: CertFinding, now: int) {
    if !IsListed(c.secrets, f.key) then c.secretAccess && f.trouble == Missing
    else exists i: nat :: LastParsed(c.secrets, f.key, i)
                          && Expiry(c.secrets[i].notAfter.value - now) == Some(f.trouble)
  }

  lemma {:induction false} LastParsedExists(secrets: seq<Secret>, key: string) returns (i: nat)
    requires AnyParsed(secrets, key)
    ensures LastParsed(secrets, key, i)
  {
    var init, s := secrets[..|secrets| - 1], secrets[|secrets| - 1];
    assert secrets == init + [s];
    if Called(s, key) && s.notAfter.Some? {
      i := |init|;
    } else {
      SecretsGrow(init, s, key);
      i := LastParsedExists(init, key);
      assert forall k | 0 <= k < |init| :: init[k] == secrets[k];
    }
  }

  lemma TroubleIsWrong(c: Cluster, f: CertFinding, now: int)
    ensures TroubleWith(c, f.key, now) == Some(f.trouble) <==> Wrong(c, f, now)
  {
    LookupExactly(c.secrets, f.key);
    if AnyParsed(c.secrets, f.key) {
      var i := LastParsedExists(c.secrets, f.key);
    }
  }

  /** Findings stand at these places, in order, and say what is wrong. */
  ghost predicate FoundAt(c: Cluster, namespaces: set<string>, now: int, found: seq<CertFinding>, places: seq<Place>) {
    && |places| == |found|
    && (forall m | 0 <= m < |found| :: FirstAt(c, namespaces, places[m], found[m]) && Wrong(c, found[m], now))
    && (forall m, l | 0 <= m < l < |found| :: Earlier(places[m], places[l]))
  }

  lemma FoundOneMore(c: Cluster, namespaces: set<string>, now: int, found: seq<CertFinding>, places: seq<Place>,
                     f: CertFinding, p: Place)
    requires FoundAt(c, namespaces, now, found, places)
    requires FirstAt(c, namespaces, p, f) && Wrong(c, f, now) && forall q | q in places :: Earlier(q, p)
    ensures FoundAt(c, namespaces, now, found + [f], places + [p])
  {
  }

  /** Whatever refers to a secret before one of these places is among them. */
  ghost predicate GapFree(c: Cluster, namespaces: set<string>, places: seq<Place>) {
    forall p: Place, q, r | q in places && Earlier(p, q) && RefersAt(c, namespaces, p, r) :: p in places
  }

  lemma PlacedBefore(c: Cluster, namespaces: set<string>, init: seq<Ref>, r: Ref, places: seq<Place>, p: Place)
    requires Placed(c, namespaces, init + [r], places + [p]) && GapFree(c, namespaces, places + [p])
    ensures Placed(c, namespaces, init, places) && GapFree(c, namespaces, places)
    ensures RefersAt(c, namespaces, p, r) && forall q | q in places :: Earlier(q, p)
  {
    var refs, all := init + [r], places + [p];
    assert refs[|init|] == r && all[|init|] == p;
    assert forall m | 0 <= m < |init| :: refs[m] == init[m] && all[m] == places[m];
    forall q: Place, next, x | next in places && Earlier(q, next) && RefersAt(c, namespaces, q, x)
      ensures q in places
    {
      assert next in all && Earlier(next, p);
    }
  }

  lemma FirstOfKey(c: Cluster, namespaces: set<string>, init: seq<Ref>, places: seq<Place>, p: Place, f: CertFinding)
    requires Placed(c, namespaces, init, places) && GapFree(c, namespaces, places + [p])
    requires RefersAt(c, namespaces, p, Ref(f.key, f.owner)) && f.key !in KeysOf(init)
    ensures FirstAt(c, namespaces, p, f)
  {
    forall q: Place, r | Earlier(q, p) && RefersAt(c, namespaces, q, r)
      ensures r.key != f.key
    {
      assert p in places + [p];
      assert q in places;
      var m :| 0 <= m < |places| && places[m] == q;
      assert init[m] == r && init[m] in init;
    }
  }

  lemma {:induction false} FoundAmong(c: Cluster, namespaces: set<string>, now: int, refs: seq<Ref>, all: seq<Place>)
    returns (places: seq<Place>)
    requires Placed(c, namespaces, refs, all) && GapFree(c, namespaces, all)
    ensures FoundAt(c, namespaces, now, FindingsFor(c, refs, now), places)
    ensures forall p | p in places :: p in all
  {
    places := [];
    if refs != [] {
      var init, r, p := refs[..|refs| - 1], refs[|refs| - 1], all[|all| - 1];
      assert refs == init + [r] && all == all[..|all| - 1] + [p];
      PlacedBefore(c, namespaces, init, r, all[..|all| - 1], p);
      places := FoundAmong(c, namespaces, now, init, all[..|all| - 1]);
      places := FoundNext(c, namespaces, now, init, r, all[..|all| - 1], p, places);
    }
  }

  /** The next reference adds a finding, at its place, or nothing. */
  lemma FoundNext(c: Cluster, namespaces: set<string>, now: int, init: seq<Ref>, r: Ref, all: seq<Place>, p: Place,
                  before: seq<Place>)
    returns (places: seq<Place>)
    requires Placed(c, namespaces, init, all) && GapFree(c, namespaces, all + [p]) && RefersAt(c, namespaces, p, r)
    requires forall q | q in all :: Earlier(q, p)
    requires FoundAt(c, namespaces, now, FindingsFor(c, init, now), before) && forall q | q in before :: q in all
    ensures FoundAt(c, namespaces, now, FindingsFor(c, init + [r], now), places)
    ensures forall q | q in places :: q in all + [p]
  {
    var found := FindingsFor(c, init, now);
    assert (init + [r])[..|init|] == init;
    places := before;
    if r.key !in KeysOf(init) && TroubleWith(c, r.key, now).Some? {
      var f := CertFinding(r.key, TroubleWith(c, r.key, now).value, r.owner);
      TroubleIsWrong(c, f, now);
      FirstOfKey(c, namespaces, init, all, p, f);
      FoundOneMore(c, namespaces, now, found, before, f, p);
      places := before + [p];
    } else {
      assert found + [] == found;
    }
  }

  /** Findings come in the order of the first references of their secrets, name who refers to it first, and
      say what is wrong. */
  lemma FindingsInOrder(c: Cluster, namespaces: set<string>, now: int) returns (places: seq<Place>)
    ensures FoundAt(c, namespaces, now, FindingsFor(c, References(c, namespaces), now), places)
  {
    var all := ReferencesInOrder(c, namespaces);
    places := FoundAmong(c, namespaces, now, References(c, namespaces), all);
  }

  // cert-manager.

  ghost predicate FirstReady(conditions: seq<Condition>, i: nat) {
    i < |conditions| && conditions[i].kind == "Ready" && forall j | 0 <= j < i :: conditions[j].kind != "Ready"
  }

  lemma FirstReadyLater(first: Condition, rest: seq<Condition>, i: nat)
    requires first.kind != "Ready" && FirstReady([first] + rest, i)
    ensures i > 0 && FirstReady(rest, i - 1) && rest[i - 1] == ([first] + rest)[i]
  {
    assert forall j | 0 <= j < |rest| :: rest[j] == ([first] + rest)[j + 1];
  }

  /** The reason is the one the first Ready condition gives. */
  lemma {:induction false} ReasonExactly(conditions: seq<Condition>)
    ensures (forall j | 0 <= j < |conditions| :: conditions[j].kind != "Ready") ==>
              Unreadiness(conditions) == Some("no Ready condition")
    ensures forall i: nat | FirstReady(conditions, i) ::
              Unreadiness(conditions) == if conditions[i].status == "True" then None else Some(conditions[i].reason)
  {
    if conditions != [] && conditions[0].kind != "Ready" {
      var first, rest := conditions[0], conditions[1..];
      assert conditions == [first] + rest;
      ReasonExactly(rest);
      forall i: nat | FirstReady(conditions, i)
        ensures i > 0 && FirstReady(rest, i - 1) && rest[i - 1] == conditions[i]
      {
        FirstReadyLater(first, rest, i);
      }
    }
  }

  ghost predicate Ready(res: Resource) {
    res.conditions.Some? && exists i: nat :: FirstReady(res.conditions.value, i) && res.conditions.value[i].status == "True"
  }

  function Analysed(namespaces: set<string>): Resource -> bool {
    (res: Resource) => res.ns in namespaces && (res.conditions.None? || Unreadiness(res.conditions.value).Some?)
  }

  function Complaint(res: Resource): NotReady {
    NotReady(res.ns, res.name,
             if res.conditions.None? then "no status reported"
             else if Unreadiness(res.conditions.value).Some? then Unreadiness(res.conditions.value).value else "")
  }

  lemma UnreadyExactly(namespaces: set<string>, res: Resource)
    ensures Analysed(namespaces)(res) <==> res.ns in namespaces && !Ready(res)
  {
    if res.conditions.Some? {
      ReadyExactly(res.conditions.value);
      ReasonExactly(res.conditions.value);
    }
  }

  /** The resources of analysed namespaces that are not ready are listed in order, each with its reason. */
  lemma {:induction false} UnreadyInOrder(resources: seq<Resource>, namespaces: set<string>)
    ensures PicksAs(resources, Analysed(namespaces), Complaint, UnreadyOf(resources, namespaces))
  {
    if resources == [] {
      PicksNothing(Analysed(namespaces), Complaint);
    } else {
      var init, res := resources[..|resources| - 1], resources[|resources| - 1];
      assert resources == init + [res];
      UnreadyInOrder(init, namespaces);
      PicksGrow(init, Analysed(namespaces), Complaint, UnreadyOf(init, namespaces), res);
    }
  }
}
