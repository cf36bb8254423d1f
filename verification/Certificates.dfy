/** TLS certificate findings: however often a secret is referenced, it is reported once. */
module Certificates {
  import opened Ordering
  import opened Reports

  /** A secret; `notAfter` is the expiry of its leaf certificate, None when none parses. */
  datatype Secret = Secret(ns: string, name: string, notAfter: Option<int>)

  datatype Ingress = Ingress(ns: string, name: string, tls: seq<string>)

  /** A gateway with the secret names of its listeners' certificate references. */
  datatype Gateway = Gateway(ns: string, name: string, refs: seq<string>)

  datatype Condition = Condition(kind: string, status: string, reason: string)

  /** A cert-manager Certificate; `conditions` is None when it reports no status. */
  datatype Resource = Resource(ns: string, name: string, conditions: Option<seq<Condition>>)

  datatype Cluster = Cluster(secrets: seq<Secret>, ingresses: seq<Ingress>, gateways: seq<Gateway>,
                             resources: seq<Resource>, secretAccess: bool)

  /** "Certificate is not Ready", with the reason given. */
  datatype NotReady = NotReady(ns: string, name: string, reason: string)

  datatype Trouble = Missing | Expired | ExpiresThisWeek | ExpiresThisMonth

  datatype CertFinding = CertFinding(key: string, trouble: Trouble, owner: string)

  const DAY: int := 86400000

  function Key(ns: string, secret: string): string {
    ns + ['/'] + secret
  }

  /** `expiryFinding` by the time left in milliseconds. */
  function Expiry(left: int): Option<Trouble> {
    if left <= 0 then Some(Expired)
    else if left < 7 * DAY then Some(ExpiresThisWeek)
    else if left < 30 * DAY then Some(ExpiresThisMonth)
    else None
  }

  function SeverityOf(t: Trouble): Severity {
    match t
    case Missing => Warning
    case Expired => Critical
    case ExpiresThisWeek => Critical
    case ExpiresThisMonth => Warning
  }

  /** What is known about a secret: whether it is listed, and its last parsed expiry. */
  datatype Known = Known(listed: bool, notAfter: Option<int>)

  function Lookup(secrets: seq<Secret>, key: string): Known {
    if secrets == [] then Known(false, None)
    else
      var s, rest := secrets[|secrets| - 1], Lookup(secrets[..|secrets| - 1], key);
      if Key(s.ns, s.name) != key then rest
      else Known(true, if s.notAfter.Some? then s.notAfter else rest.notAfter)
  }

  /** The trouble with a referenced secret, None when there is nothing to report. */
  function TroubleWith(c: Cluster, key: string, now: int): Option<Trouble> {
    var k := Lookup(c.secrets, key);
    if !k.listed then (if c.secretAccess then Some(Missing) else None)
    else if k.notAfter.None? then None
    else Expiry(k.notAfter.value - now)
  }

  /** Secrets the program remembers as dealt with. */
  predicate Settled(c: Cluster, key: string) {
    var k := Lookup(c.secrets, key);
    if k.listed then k.notAfter.Some? else c.secretAccess
  }

  datatype Ref = Ref(key: string, owner: string)

  function IngressRefs(ing: Ingress, tls: seq<string>): seq<Ref> {
    if tls == [] then []
    else
      var secret := tls[|tls| - 1];
      IngressRefs(ing, tls[..|tls| - 1]) +
      if secret == "" then [] else [Ref(Key(ing.ns, secret), "ingress/" + ing.name)]
  }

  function GatewayRefs(gw: Gateway, refs: seq<string>): seq<Ref> {
    if refs == [] then []
    else GatewayRefs(gw, refs[..|refs| - 1]) + [Ref(Key(gw.ns, refs[|refs| - 1]), "gateway/" + gw.name)]
  }

  function AllIngressRefs(ings: seq<Ingress>, namespaces: set<string>): seq<Ref> {
    if ings == [] then []
    else
      var ing := ings[|ings| - 1];
      AllIngressRefs(ings[..|ings| - 1], namespaces) + if ing.ns in namespaces then IngressRefs(ing, ing.tls) else []
  }

  function AllGatewayRefs(gws: seq<Gateway>, namespaces: set<string>): seq<Ref> {
    if gws == [] then []
    else
      var gw := gws[|gws| - 1];
      AllGatewayRefs(gws[..|gws| - 1], namespaces) + if gw.ns in namespaces then GatewayRefs(gw, gw.refs) else []
  }

  /** Every reference from the analysed namespaces, ingresses first. */
  function References(c: Cluster, namespaces: set<string>): seq<Ref> {
    AllIngressRefs(c.ingresses, namespaces) + AllGatewayRefs(c.gateways, namespaces)
  }

  ghost function KeysOf(refs: seq<Ref>): set<string> {
    set r | r in refs :: r.key
  }

  /** One finding per troubled secret, at its first reference. */
  ghost function FindingsFor(c: Cluster, refs: seq<Ref>, now: int): seq<CertFinding> {
    if refs == [] then []
    else
      var init, r := refs[..|refs| - 1], refs[|refs| - 1];
      FindingsFor(c, init, now) +
      if r.key !in KeysOf(init) && TroubleWith(c, r.key, now).Some?
      then [CertFinding(r.key, TroubleWith(c, r.key, now).value, r.owner)] else []
  }

  /** Exactly the settled keys among those already seen. */
  ghost predicate Remembers(reported: set<string>, c: Cluster, refs: seq<Ref>) {
    forall k :: k in reported <==> k in KeysOf(refs) && Settled(c, k)
  }

  /** The listed secrets and the leaf certificates, by key. */
  datatype Index = Index(listed: set<string>, leaves: map<string, int>)

  ghost predicate Indexed(secrets: seq<Secret>, index: Index) {
    forall key :: KnownIn(index, key) == Lookup(secrets, key)
  }

  function KnownIn(index: Index, key: string): Known {
    Known(key in index.listed, if key in index.leaves then Some(index.leaves[key]) else None)
  }

  method IndexSecrets(secrets: seq<Secret>) returns (index: Index)
    ensures Indexed(secrets, index)
  {
    index := Index({}, map[]);
    for i := 0 to |secrets|
      invariant index.leaves.Keys <= index.listed
      invariant Indexed(secrets[..i], index)
    {
      assert secrets[..i + 1][..i] == secrets[..i];
      var s := secrets[i];
      var key := Key(s.ns, s.name);
      ghost var before := index;
      index := index.(listed := index.listed + {key});
      if s.notAfter.Some? {
        index := index.(leaves := index.leaves[key := s.notAfter.value]);
      }
      forall k ensures KnownIn(index, k) == Lookup(secrets[..i + 1], k) {
        assert KnownIn(before, k) == Lookup(secrets[..i], k);
      }
    }
    assert secrets[..|secrets|] == secrets;
  }

  /** The loop body shared by ingresses and gateways. */
  method Visit(c: Cluster, index: Index, r: Ref, now: int, ghost seen: seq<Ref>,
               reported: set<string>, findings: seq<CertFinding>)
    returns (reported': set<string>, findings': seq<CertFinding>)
    requires Indexed(c.secrets, index)
    requires Remembers(reported, c, seen) && findings == FindingsFor(c, seen, now)
    ensures Remembers(reported', c, seen + [r]) && findings' == FindingsFor(c, seen + [r], now)
  {
    reported', findings' := reported, findings;
    assert KnownIn(index, r.key) == Lookup(c.secrets, r.key);
    if r.key in reported {
    } else if r.key !in index.listed {
      if c.secretAccess {
        reported' := reported + {r.key};
        findings' := findings + [CertFinding(r.key, Missing, r.owner)];
      }
    } else if r.key in index.leaves {
      reported' := reported + {r.key};
      var t := Expiry(index.leaves[r.key] - now);
      if t.Some? {
        findings' := findings + [CertFinding(r.key, t.value, r.owner)];
      }
    }
  }

  lemma GatewaysGrow(first: seq<Ref>, gws: seq<Gateway>, i: nat, namespaces: set<string>)
    requires i < |gws|
    ensures first + AllGatewayRefs(gws[..i + 1], namespaces)
         == first + AllGatewayRefs(gws[..i], namespaces)
            + if gws[i].ns in namespaces then GatewayRefs(gws[i], gws[i].refs) else []
  {
    assert gws[..i + 1][..i] == gws[..i];
  }

  /** `certificates`: the findings about secrets, and after them those about cert-manager resources. */
  method Check(c: Cluster, namespaces: set<string>, now: int)
    returns (findings: seq<CertFinding>, unready: seq<NotReady>)
    ensures findings == FindingsFor(c, References(c, namespaces), now)
    ensures unready == UnreadyOf(c.resources, namespaces)
  {
    findings := CheckSecrets(c, namespaces, now);
    unready := [];
    for i := 0 to |c.resources|
      invariant unready == UnreadyOf(c.resources[..i], namespaces)
    {
      assert c.resources[..i + 1][..i] == c.resources[..i];
      var res := c.resources[i];
      if res.ns in namespaces {
        var trouble := CheckReady(res);
        if trouble.Some? {
          unready := unready + [NotReady(res.ns, res.name, trouble.value)];
        }
      }
    }
    assert c.resources[..|c.resources|] == c.resources;
  }

  /** Why a Certificate is not ready, None when it is: the first Ready condition decides. */
  function Unreadiness(conditions: seq<Condition>): Option<string> {
    if conditions == [] then Some("no Ready condition")
    else if conditions[0].kind != "Ready" then Unreadiness(conditions[1..])
    else if conditions[0].status == "True" then None
    else Some(conditions[0].reason)
  }

  function TroubleOf(res: Resource): Option<string> {
    if res.conditions.None? then Some("no status reported") else Unreadiness(res.conditions.value)
  }

  function UnreadyOf(resources: seq<Resource>, namespaces: set<string>): seq<NotReady> {
    if resources == [] then []
    else
      var rest, res := UnreadyOf(resources[..|resources| - 1], namespaces), resources[|resources| - 1];
      if res.ns in namespaces && TroubleOf(res).Some?
      then rest + [NotReady(res.ns, res.name, TroubleOf(res).value)] else rest
  }

  /** `certManagerReady` */
  method CheckReady(res: Resource) returns (trouble: Option<string>)
    ensures trouble == TroubleOf(res)
  {
    if res.conditions.None? {
      return Some("no status reported");
    }
    var conditions := res.conditions.value;
    for i := 0 to |conditions|
      invariant Unreadiness(conditions) == Unreadiness(conditions[i..])
    {
      assert conditions[i..][1..] == conditions[i + 1..];
      if conditions[i].kind == "Ready" {
        return if conditions[i].status == "True" then None else Some(conditions[i].reason);
      }
    }
    trouble := Some("no Ready condition");
  }

  /** A Certificate is ready exactly when its first Ready condition is true. */
  lemma {:induction false} ReadyExactly(conditions: seq<Condition>)
    ensures Unreadiness(conditions) == None <==>
            exists i :: 0 <= i < |conditions| && conditions[i].kind == "Ready" && conditions[i].status == "True"
                        && forall j | 0 <= j < i :: conditions[j].kind != "Ready"
  {
    if conditions != [] && conditions[0].kind != "Ready" {
      var rest := conditions[1..];
      ReadyExactly(rest);
      assert forall j | 0 <= j < |rest| :: rest[j] == conditions[j + 1];
      if i :| 0 <= i < |conditions| && conditions[i].kind == "Ready" && conditions[i].status == "True"
              && forall j | 0 <= j < i :: conditions[j].kind != "Ready" {
        assert rest[i - 1].kind == "Ready" && forall j | 0 <= j < i - 1 :: rest[j].kind != "Ready";
      }
      if i :| 0 <= i < |rest| && rest[i].kind == "Ready" && rest[i].status == "True"
              && forall j | 0 <= j < i :: rest[j].kind != "Ready" {
        assert conditions[i + 1].kind == "Ready" && forall j | 0 <= j < i + 1 :: conditions[j].kind != "Ready";
      }
    }
  }

  /** The ingress and gateway part. */
  method CheckSecrets(c: Cluster, namespaces: set<string>, now: int) returns (findings: seq<CertFinding>)
    ensures findings == FindingsFor(c, References(c, namespaces), now)
  {
    var reported: set<string>;
    var index := IndexSecrets(c.secrets);
    reported, findings := CheckIngresses(c, index, namespaces, now);
    ghost var first := AllIngressRefs(c.ingresses, namespaces);
    assert first + [] == first;
    for i := 0 to |c.gateways|
      invariant Remembers(reported, c, first + AllGatewayRefs(c.gateways[..i], namespaces))
      invariant findings == FindingsFor(c, first + AllGatewayRefs(c.gateways[..i], namespaces), now)
    {
      GatewaysGrow(first, c.gateways, i, namespaces);
      ghost var before := first + AllGatewayRefs(c.gateways[..i], namespaces);
      if c.gateways[i].ns in namespaces {
        reported, findings := VisitGateway(c, index, c.gateways[i], now, before, reported, findings);
      } else {
        assert before + [] == before;
      }
    }
    assert c.gateways[..|c.gateways|] == c.gateways;
  }

  method CheckIngresses(c: Cluster, index: Index, namespaces: set<string>, now: int)
    returns (reported: set<string>, findings: seq<CertFinding>)
    requires Indexed(c.secrets, index)
    ensures Remembers(reported, c, AllIngressRefs(c.ingresses, namespaces))
    ensures findings == FindingsFor(c, AllIngressRefs(c.ingresses, namespaces), now)
  {
    reported, findings := {}, [];
    for i := 0 to |c.ingresses|
      invariant Remembers(reported, c, AllIngressRefs(c.ingresses[..i], namespaces))
      invariant findings == FindingsFor(c, AllIngressRefs(c.ingresses[..i], namespaces), now)
    {
      assert c.ingresses[..i + 1][..i] == c.ingresses[..i];
      ghost var before := AllIngressRefs(c.ingresses[..i], namespaces);
      if c.ingresses[i].ns in namespaces {
        reported, findings := VisitIngress(c, index, c.ingresses[i], now, before, reported, findings);
      } else {
        assert before + [] == before;
      }
    }
    assert c.ingresses[..|c.ingresses|] == c.ingresses;
  }

  lemma OneMoreSecret(seen: seq<Ref>, ing: Ingress, k: nat)
    requires k < |ing.tls|
    ensures seen + IngressRefs(ing, ing.tls[..k + 1])
         == if ing.tls[k] == "" then seen + IngressRefs(ing, ing.tls[..k])
            else seen + IngressRefs(ing, ing.tls[..k]) + [Ref(Key(ing.ns, ing.tls[k]), "ingress/" + ing.name)]
  {
    assert ing.tls[..k + 1][..k] == ing.tls[..k];
    assert IngressRefs(ing, ing.tls[..k]) + [] == IngressRefs(ing, ing.tls[..k]);
  }

  method VisitIngress(c: Cluster, index: Index, ing: Ingress, now: int, ghost seen: seq<Ref>,
                      reported0: set<string>, findings0: seq<CertFinding>)
    returns (reported: set<string>, findings: seq<CertFinding>)
    requires Indexed(c.secrets, index)
    requires Remembers(reported0, c, seen) && findings0 == FindingsFor(c, seen, now)
    ensures Remembers(reported, c, seen + IngressRefs(ing, ing.tls))
    ensures findings == FindingsFor(c, seen + IngressRefs(ing, ing.tls), now)
  {
    reported, findings := reported0, findings0;
    assert seen + [] == seen;
    for k := 0 to |ing.tls|
      invariant Remembers(reported, c, seen + IngressRefs(ing, ing.tls[..k]))
      invariant findings == FindingsFor(c, seen + IngressRefs(ing, ing.tls[..k]), now)
    {
      ghost var refs := seen + IngressRefs(ing, ing.tls[..k]);
      OneMoreSecret(seen, ing, k);
      if ing.tls[k] != "" {
        var r := Ref(Key(ing.ns, ing.tls[k]), "ingress/" + ing.name);
        reported, findings := Visit(c, index, r, now, refs, reported, findings);
      }
    }
    assert ing.tls[..|ing.tls|] == ing.tls;
  }

  method VisitGateway(c: Cluster, index: Index, gw: Gateway, now: int, ghost seen: seq<Ref>,
                      reported0: set<string>, findings0: seq<CertFinding>)
    returns (reported: set<string>, findings: seq<CertFinding>)
    requires Indexed(c.secrets, index)
    requires Remembers(reported0, c, seen) && findings0 == FindingsFor(c, seen, now)
    ensures Remembers(reported, c, seen + GatewayRefs(gw, gw.refs))
    ensures findings == FindingsFor(c, seen + GatewayRefs(gw, gw.refs), now)
  {
    reported, findings := reported0, findings0;
    assert seen + [] == seen;
    for k := 0 to |gw.refs|
      invariant Remembers(reported, c, seen + GatewayRefs(gw, gw.refs[..k]))
      invariant findings == FindingsFor(c, seen + GatewayRefs(gw, gw.refs[..k]), now)
    {
      assert gw.refs[..k + 1][..k] == gw.refs[..k];
      ghost var refs := seen + GatewayRefs(gw, gw.refs[..k]);
      var r := Ref(Key(gw.ns, gw.refs[k]), "gateway/" + gw.name);
      reported, findings := Visit(c, index, r, now, refs, reported, findings);
      assert seen + GatewayRefs(gw, gw.refs[..k + 1]) == refs + [r];
    }
    assert gw.refs[..|gw.refs|] == gw.refs;
  }

  function FindingsAbout(findings: seq<CertFinding>, key: string): seq<Trouble> {
    if findings == [] then []
    else
      var f := findings[|findings| - 1];
      FindingsAbout(findings[..|findings| - 1], key) + if f.key == key then [f.trouble] else []
  }

  /** However often and in whatever order secrets are referenced: a referenced secret with a trouble
      has exactly one finding, which states that trouble, and every other secret has none. */
  lemma {:induction false} ReportedExactlyOnce(c: Cluster, refs: seq<Ref>, now: int, key: string)
    ensures FindingsAbout(FindingsFor(c, refs, now), key)
         == if key in KeysOf(refs) && TroubleWith(c, key, now).Some? then [TroubleWith(c, key, now).value] else []
  {
    if refs != [] {
      var init, r := refs[..|refs| - 1], refs[|refs| - 1];
      assert init + [r] == refs;
      ReportedExactlyOnce(c, init, now, key);
      AboutStep(c, init, r, now, key);
    }
  }

  lemma AboutStep(c: Cluster, init: seq<Ref>, r: Ref, now: int, key: string)
    ensures FindingsAbout(FindingsFor(c, init + [r], now), key)
         == FindingsAbout(FindingsFor(c, init, now), key)
            + if r.key == key && key !in KeysOf(init) && TroubleWith(c, key, now).Some?
              then [TroubleWith(c, key, now).value] else []
  {
    var before, t := FindingsFor(c, init, now), TroubleWith(c, r.key, now);
    if r.key !in KeysOf(init) && t.Some? {
    } else {
      assert before + [] == before;
    }
  }

  // Which secrets are referenced.

  ghost predicate IngressNames(ing: Ingress, key: string) {
    exists k | 0 <= k < |ing.tls| :: ing.tls[k] != "" && key == Key(ing.ns, ing.tls[k])
  }

  ghost predicate GatewayNames(gw: Gateway, key: string) {
    exists k | 0 <= k < |gw.refs| :: key == Key(gw.ns, gw.refs[k])
  }

  /** Some analysed ingress or gateway names the secret. */
  ghost predicate Referenced(c: Cluster, namespaces: set<string>, key: string) {
    || (exists ing | ing in c.ingresses :: ing.ns in namespaces && IngressNames(ing, key))
    || (exists gw | gw in c.gateways :: gw.ns in namespaces && GatewayNames(gw, key))
  }

  lemma {:induction false} IngressKeys(ing: Ingress, n: nat, key: string)
    requires n <= |ing.tls|
    ensures key in KeysOf(IngressRefs(ing, ing.tls[..n])) <==>
            exists k | 0 <= k < n :: ing.tls[k] != "" && key == Key(ing.ns, ing.tls[k])
  {
    if n > 0 {
      assert ing.tls[..n][..n - 1] == ing.tls[..n - 1];
      IngressKeys(ing, n - 1, key);
      var r := Ref(Key(ing.ns, ing.tls[n - 1]), "ingress/" + ing.name);
    }
  }

  lemma {:induction false} GatewayKeys(gw: Gateway, n: nat, key: string)
    requires n <= |gw.refs|
    ensures key in KeysOf(GatewayRefs(gw, gw.refs[..n])) <==>
            exists k | 0 <= k < n :: key == Key(gw.ns, gw.refs[k])
  {
    if n > 0 {
      assert gw.refs[..n][..n - 1] == gw.refs[..n - 1];
      GatewayKeys(gw, n - 1, key);
      var r := Ref(Key(gw.ns, gw.refs[n - 1]), "gateway/" + gw.name);
    }
  }

  lemma {:induction false} AllIngressKeys(ings: seq<Ingress>, namespaces: set<string>, key: string)
    ensures key in KeysOf(AllIngressRefs(ings, namespaces)) <==>
            exists ing | ing in ings :: ing.ns in namespaces && IngressNames(ing, key)
  {
    if ings != [] {
      var init, ing := ings[..|ings| - 1], ings[|ings| - 1];
      assert forall x :: x in ings <==> x in init || x == ing by { assert ings == init + [ing]; }
      AllIngressKeys(init, namespaces, key);
      IngressKeys(ing, |ing.tls|, key);
      assert ing.tls[..|ing.tls|] == ing.tls;
    }
  }

  lemma {:induction false} AllGatewayKeys(gws: seq<Gateway>, namespaces: set<string>, key: string)
    ensures key in KeysOf(AllGatewayRefs(gws, namespaces)) <==>
            exists gw | gw in gws :: gw.ns in namespaces && GatewayNames(gw, key)
  {
    if gws != [] {
      var init, gw := gws[..|gws| - 1], gws[|gws| - 1];
      assert forall x :: x in gws <==> x in init || x == gw by { assert gws == init + [gw]; }
      AllGatewayKeys(init, namespaces, key);
      GatewayKeys(gw, |gw.refs|, key);
      assert gw.refs[..|gw.refs|] == gw.refs;
    }
  }

  /** What `Check` returns: one finding for a secret exactly when something analysed names it and it
      is missing (where secrets can be read) or its certificate has under 30 days left. */
  lemma CheckedExactlyOnce(c: Cluster, namespaces: set<string>, now: int, key: string)
    ensures var known := Lookup(c.secrets, key);
            var found := FindingsAbout(FindingsFor(c, References(c, namespaces), now), key);
            && |found| <= 1
            && (|found| == 1 <==>
                  && Referenced(c, namespaces, key)
                  && if known.listed then known.notAfter.Some? && known.notAfter.value - now < 30 * DAY
                     else c.secretAccess)
  {
    ReportedExactlyOnce(c, References(c, namespaces), now, key);
    AllIngressKeys(c.ingresses, namespaces, key);
    AllGatewayKeys(c.gateways, namespaces, key);
    TroubleWhen(c, key, now);
  }

  lemma TroubleWhen(c: Cluster, key: string, now: int)
    ensures var known := Lookup(c.secrets, key);
            TroubleWith(c, key, now).Some? <==>
            if known.listed then known.notAfter.Some? && known.notAfter.value - now < 30 * DAY else c.secretAccess
  {
  }

  /** Namespace names hold no '/', so a key stands for one secret of one namespace. */
  lemma KeyIsOneSecret(ns1: string, name1: string, ns2: string, name2: string)
    requires '/' !in ns1 && '/' !in ns2
    ensures Key(ns1, name1) == Key(ns2, name2) <==> ns1 == ns2 && name1 == name2
  {
    if Key(ns1, name1) == Key(ns2, name2) {
      SeparatorSplits('/', ns1, ns2, name1, name2);
    }
  }

  /** Less time left is never less severe, and only certificates with 30 days or more are silent. */
  lemma ExpiryEscalates(soon: int, late: int)
    requires soon <= late
    ensures Expiry(late).Some? ==>
              Expiry(soon).Some? && Rank(SeverityOf(Expiry(soon).value)) >= Rank(SeverityOf(Expiry(late).value))
    ensures Expiry(late).None? <==> late >= 30 * DAY
  {
  }
}
