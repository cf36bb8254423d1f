/** Team ownership mappings: validation, webhook redaction, the file format and its two readers. */
module Teams {
  import opened Reports

  datatype Team = Team(name: string, namespaces: seq<string>, notifyUrl: string)

  type Spec = seq<Team>

  datatype Config = Config(namespaceTeam: map<string, string>, notifyURLs: map<string, string>)

  /** One team of a decoded teams file: a namespace list, the structured form, or neither. */
  datatype Entry = Terse(namespaces: seq<string>) | Full(namespaces: seq<string>, notifyUrl: string) | Malformed

  type Raw = map<string, Entry>

  datatype Problem = NoName | ListedTwice(team: string) | EmptyNamespace(team: string)
                   | TwoOwners(ns: string, first: string, second: string) | BadEntry(team: string)

  // Trimming.

  predicate IsSpace(c: char) {
    || '\t' <= c <= '\r' || c == ' ' || c == '\U{85}' || c == '\U{A0}' || c == '\U{1680}'
    || '\U{2000}' <= c <= '\U{200A}' || c == '\U{2028}' || c == '\U{2029}' || c == '\U{202F}'
    || c == '\U{205F}' || c == '\U{3000}'
  }

  function TrimLeft(s: string): string {
    if s != [] && IsSpace(s[0]) then TrimLeft(s[1..]) else s
  }

  function TrimRight(s: string): string {
    if s != [] && IsSpace(s[|s| - 1]) then TrimRight(s[..|s| - 1]) else s
  }

  function TrimSpace(s: string): string {
    TrimRight(TrimLeft(s))
  }

  // Claims: which team asks for which namespace.

  datatype Claim = Claim(ns: string, team: string)

  function ClaimsBy(team: string, namespaces: seq<string>): seq<Claim> {
    seq(|namespaces|, i requires 0 <= i < |namespaces| => Claim(namespaces[i], team))
  }

  function Claims(spec: Spec): seq<Claim> {
    if spec == [] then []
    else
      var t := spec[|spec| - 1];
      Claims(spec[..|spec| - 1]) + ClaimsBy(t.name, t.namespaces)
  }

  /** No namespace is claimed by two teams. */
  ghost predicate OneOwnerEach(claims: seq<Claim>) {
    forall i, j | 0 <= i < |claims| && 0 <= j < |claims| && claims[i].ns == claims[j].ns ::
      claims[i].team == claims[j].team
  }

  /** `owners` maps exactly the claimed namespaces, each to a team that claims it. */
  ghost predicate Maps(owners: map<string, string>, claims: seq<Claim>) {
    && (forall i | 0 <= i < |claims| :: claims[i].ns in owners && owners[claims[i].ns] == claims[i].team)
    && (forall ns | ns in owners :: exists i :: 0 <= i < |claims| && claims[i].ns == ns)
  }

  /** Such a map is unique. */
  lemma MapsUnique(a: map<string, string>, b: map<string, string>, claims: seq<Claim>)
    requires Maps(a, claims) && Maps(b, claims)
    ensures a == b
  {
    forall ns
      ensures ns in a <==> ns in b
    {
    }
    assert a.Keys == b.Keys;
  }

  lemma MapsGrow(owners: map<string, string>, claims: seq<Claim>, c: Claim)
    requires Maps(owners, claims)
    requires c.ns in owners ==> owners[c.ns] == c.team
    ensures Maps(owners[c.ns := c.team], claims + [c])
  {
    var all := claims + [c];
    assert all[|claims|] == c;
    forall ns | ns in owners
      ensures exists i :: 0 <= i < |all| && all[i].ns == ns
    {
      var i :| 0 <= i < |claims| && claims[i].ns == ns;
      assert all[i] == claims[i];
    }
  }

  /** A claim against the map is a second owner. */
  lemma ConflictFound(owners: map<string, string>, claims: seq<Claim>, c: Claim, all: seq<Claim>)
    requires Maps(owners, claims) && claims + [c] <= all
    requires c.ns in owners && owners[c.ns] != c.team
    ensures !OneOwnerEach(all)
  {
    var i :| 0 <= i < |claims| && claims[i].ns == c.ns;
    assert all[i] == claims[i] && all[|claims|] == c;
  }

  ghost predicate NamesUsable(spec: Spec) {
    && (forall i | 0 <= i < |spec| :: spec[i].name != "")
    && (forall i, j | 0 <= i < j < |spec| :: spec[i].name != spec[j].name)
  }

  ghost predicate NamespacesUsable(claims: seq<Claim>) {
    forall i | 0 <= i < |claims| :: claims[i].ns != ""
  }

  /** Every name present and unique, no empty namespace, one owner each. */
  ghost predicate Sound(spec: Spec) {
    NamesUsable(spec) && NamespacesUsable(Claims(spec)) && OneOwnerEach(Claims(spec))
  }

  function TrimEach(xs: seq<string>): seq<string> {
    seq(|xs|, i requires 0 <= i < |xs| => TrimSpace(xs[i]))
  }

  function TrimTeam(t: Team): Team {
    Team(TrimSpace(t.name), TrimEach(t.namespaces), t.notifyUrl)
  }

  function TrimAll(spec: Spec): Spec {
    seq(|spec|, i requires 0 <= i < |spec| => TrimTeam(spec[i]))
  }

  /** What `Validate` accepts: names and namespaces are compared without surrounding space. */
  ghost predicate ValidSpec(spec: Spec) {
    Sound(TrimAll(spec))
  }

  lemma {:induction false} ClaimsPrefix(spec: Spec, i: nat)
    requires i <= |spec|
    ensures Claims(spec[..i]) <= Claims(spec)
    ensures i < |spec| ==> Claims(spec[..i + 1]) == Claims(spec[..i]) + ClaimsBy(spec[i].name, spec[i].namespaces)
    decreases |spec|
  {
    if i == |spec| {
      assert spec[..i] == spec;
    } else {
      ClaimsPrefix(spec[..|spec| - 1], i);
      assert spec[..|spec| - 1][..i] == spec[..i];
      assert spec[..i + 1][..i] == spec[..i];
    }
  }

  ghost function NamesTo(spec: Spec, i: nat): set<string>
    requires i <= |spec|
  {
    set k | 0 <= k < i :: spec[k].name
  }

  lemma NextName(spec: Spec, i: nat)
    requires i < |spec| && NamesUsable(spec[..i])
    ensures NamesUsable(spec[..i + 1]) <==> spec[i].name != "" && spec[i].name !in NamesTo(spec, i)
    ensures NamesTo(spec, i + 1) == NamesTo(spec, i) + {spec[i].name}
    ensures NamesUsable(spec) ==> NamesUsable(spec[..i + 1])
  {
    var now := spec[..i + 1];
    assert forall k | 0 <= k < i :: now[k] == spec[..i][k];
    assert now[i] == spec[i];
    if spec[i].name in NamesTo(spec, i) {
      var k :| 0 <= k < i && spec[k].name == spec[i].name;
      assert now[k].name == now[i].name;
    }
  }

  /** The problem really is one of the spec. */
  ghost predicate ProblemOf(spec: Spec, p: Problem) {
    match p
    case NoName => exists t :: t in spec && t.name == ""
    case ListedTwice(name) => exists i, j :: 0 <= i < j < |spec| && spec[i].name == spec[j].name == name
    case EmptyNamespace(team) => Claim("", team) in Claims(spec)
    case TwoOwners(ns, a, b) => a != b && Claim(ns, a) in Claims(spec) && Claim(ns, b) in Claims(spec)
    case BadEntry(_) => false
  }

  /** Accepts exactly the valid specs, and otherwise names a problem the spec has. */
  method Validate(spec: Spec) returns (p: Option<Problem>)
    ensures p.None? <==> ValidSpec(spec)
    ensures p.Some? ==> ProblemOf(TrimAll(spec), p.value)
  {
    var owner: map<string, string> := map[];
    var seen: set<string> := {};
    ghost var trimmed := TrimAll(spec);
    for i := 0 to |spec|
      invariant seen == NamesTo(trimmed, i) && NamesUsable(trimmed[..i])
      invariant NamespacesUsable(Claims(trimmed[..i])) && Maps(owner, Claims(trimmed[..i]))
    {
      var name := TrimSpace(spec[i].name);
      NextName(trimmed, i);
      if name == "" {
        assert trimmed[i] in trimmed;
        return Some(NoName);
      }
      if name in seen {
        assert exists j :: 0 <= j < i && trimmed[j].name == trimmed[i].name == name;
        return Some(ListedTwice(name));
      }
      seen := seen + {name};
      ClaimsPrefix(trimmed, i);
      ClaimsPrefix(trimmed, i + 1);
      var problem;
      problem, owner := ValidateNamespaces(spec[i], name, owner, Claims(trimmed[..i]), Claims(trimmed));
      if problem.Some? {
        return problem;
      }
    }
    assert trimmed[..|spec|] == trimmed;
    p := None;
  }

  ghost predicate ClaimProblem(claims: seq<Claim>, p: Problem) {
    match p
    case EmptyNamespace(team) => Claim("", team) in claims
    case TwoOwners(ns, a, b) => a != b && Claim(ns, a) in claims && Claim(ns, b) in claims
    case _ => false
  }

  lemma ClaimInPrefix(part: seq<Claim>, all: seq<Claim>, c: Claim)
    requires part <= all && c in part
    ensures c in all
  {
    var i :| 0 <= i < |part| && part[i] == c;
    assert all[i] == c;
  }

  /** The namespace loop for one team. */
  method ValidateNamespaces(t: Team, name: string, owner0: map<string, string>,
                            ghost before: seq<Claim>, ghost all: seq<Claim>)
    returns (p: Option<Problem>, owner: map<string, string>)
    requires Maps(owner0, before) && NamespacesUsable(before)
    requires before + ClaimsBy(name, TrimEach(t.namespaces)) <= all
    ensures p.None? ==> Maps(owner, before + ClaimsBy(name, TrimEach(t.namespaces)))
                        && NamespacesUsable(before + ClaimsBy(name, TrimEach(t.namespaces)))
    ensures p.Some? ==> (!NamespacesUsable(all) || !OneOwnerEach(all)) && ClaimProblem(all, p.value)
  {
    owner := owner0;
    ghost var mine := ClaimsBy(name, TrimEach(t.namespaces));
    assert before + mine[..0] == before;
    for k := 0 to |t.namespaces|
      invariant Maps(owner, before + mine[..k]) && NamespacesUsable(before + mine[..k])
    {
      var ns := TrimSpace(t.namespaces[k]);
      ghost var c := Claim(ns, name);
      NextClaim(before, mine, all, k);
      assert mine[k] == c;
      ClaimInPrefix(before + mine[..k + 1], all, c);
      if ns == "" {
        return Some(EmptyNamespace(name)), owner;
      }
      if ns in owner && owner[ns] != name {
        ConflictFound(owner, before + mine[..k], c, all);
        ClaimInPrefix(before + mine[..k], all, Claim(ns, owner[ns]));
        return Some(TwoOwners(ns, owner[ns], name)), owner;
      }
      MapsGrow(owner, before + mine[..k], c);
      owner := owner[ns := name];
    }
    assert mine[..|t.namespaces|] == mine;
    p := None;
  }

  lemma NextClaim(before: seq<Claim>, mine: seq<Claim>, all: seq<Claim>, k: nat)
    requires k < |mine| && before + mine <= all
    ensures before + mine[..k + 1] == before + mine[..k] + [mine[k]]
    ensures before + mine[..k] + [mine[k]] <= all
    ensures all[|before| + k] == mine[k]
  {
    assert all[|before| + k] == (before + mine)[|before| + k];
  }

  // Webhooks.

  const REDACTED: string := "***"

  function Hidden(t: Team): Team {
    if t.notifyUrl != "" then t.(notifyUrl := REDACTED) else t
  }

  function Redacted(spec: Spec): Spec {
    seq(|spec|, i requires 0 <= i < |spec| => Hidden(spec[i]))
  }

  /** The webhook the last team of that name has, "" when there is none. */
  function UrlOf(spec: Spec, name: string): string {
    if spec == [] then ""
    else if spec[|spec| - 1].name == name then spec[|spec| - 1].notifyUrl
    else UrlOf(spec[..|spec| - 1], name)
  }

  function Restored(t: Team, prev: Spec): Team {
    if t.notifyUrl == REDACTED then t.(notifyUrl := UrlOf(prev, t.name)) else t
  }

  function Merged(spec: Spec, prev: Spec): Spec {
    seq(|spec|, i requires 0 <= i < |spec| => Restored(spec[i], prev))
  }

  /** `MergeSecrets` */
  method MergeSecrets(spec: Spec, prev: Spec) returns (out: Spec)
    ensures out == Merged(spec, prev)
  {
    var was: map<string, string> := map[];
    for i := 0 to |prev|
      invariant forall n :: UrlOf(prev[..i], n) == if n in was then was[n] else ""
    {
      assert prev[..i + 1][..i] == prev[..i];
      was := was[prev[i].name := prev[i].notifyUrl];
    }
    assert prev[..|prev|] == prev;
    out := [];
    for i := 0 to |spec|
      invariant out == Merged(spec, prev)[..i]
    {
      var t := spec[i];
      if t.notifyUrl == REDACTED {
        t := t.(notifyUrl := if t.name in was then was[t.name] else "");
      }
      out := out + [t];
    }
  }

  ghost predicate DistinctTeams(spec: Spec) {
    forall i, j | 0 <= i < j < |spec| :: spec[i].name != spec[j].name
  }

  lemma ValidIsDistinct(spec: Spec)
    requires ValidSpec(spec)
    ensures DistinctTeams(spec)
  {
    forall i, j | 0 <= i < j < |spec|
      ensures spec[i].name != spec[j].name
    {
      SameTrimmedSameTeam(spec, i, j);
    }
  }

  lemma {:induction false} UrlOfDistinct(spec: Spec, i: nat)
    requires DistinctTeams(spec) && i < |spec|
    ensures UrlOf(spec, spec[i].name) == spec[i].notifyUrl
  {
    if i < |spec| - 1 {
      UrlOfDistinct(spec[..|spec| - 1], i);
    }
  }

  /** Sending a redacted spec back restores it exactly when teams sharing a name share a webhook. */
  lemma RedactionUndone(spec: Spec)
    ensures Merged(Redacted(spec), spec) == spec <==>
            forall i | 0 <= i < |spec| && spec[i].notifyUrl != "" :: UrlOf(spec, spec[i].name) == spec[i].notifyUrl
  {
    var back := Merged(Redacted(spec), spec);
    assert |back| == |spec|;
    forall i | 0 <= i < |spec|
      ensures back[i] == spec[i] <==> spec[i].notifyUrl == "" || UrlOf(spec, spec[i].name) == spec[i].notifyUrl
    {
      assert back[i] == Restored(Hidden(spec[i]), spec);
    }
    if back == spec {
      forall i | 0 <= i < |spec| && spec[i].notifyUrl != ""
        ensures UrlOf(spec, spec[i].name) == spec[i].notifyUrl
      {
        assert back[i] == spec[i];
      }
    }
  }

  lemma ValidRedactionUndone(spec: Spec)
    requires DistinctTeams(spec)
    ensures Merged(Redacted(spec), spec) == spec
  {
    forall i | 0 <= i < |spec|
      ensures UrlOf(spec, spec[i].name) == spec[i].notifyUrl
    {
      UrlOfDistinct(spec, i);
    }
    RedactionUndone(spec);
  }

  lemma {:induction false} UrlOfStranger(spec: Spec, name: string)
    requires forall t | t in spec :: t.name != name
    ensures UrlOf(spec, name) == ""
  {
    if spec != [] {
      assert spec[|spec| - 1] in spec;
      assert forall t | t in spec[..|spec| - 1] :: t in spec;
      UrlOfStranger(spec[..|spec| - 1], name);
    }
  }

  /** Renaming a team in a redacted spec drops its webhook: the restored value is looked up by name. */
  lemma RenameDropsWebhook(spec: Spec, i: nat, name: string)
    requires i < |spec| && spec[i].notifyUrl != "" && forall t | t in spec :: t.name != name
    ensures Merged(Redacted(spec)[i := Redacted(spec)[i].(name := name)], spec)[i].notifyUrl == ""
  {
    UrlOfStranger(spec, name);
  }

  /** The last team of that name, which is the one restoring looks at, has this webhook. */
  ghost predicate LastNamedHas(spec: Spec, name: string, url: string) {
    exists j :: 0 <= j < |spec| && spec[j].name == name && spec[j].notifyUrl == url
                && forall k | j < k < |spec| :: spec[k].name != name
  }

  lemma {:induction false} UrlOfLastNamed(spec: Spec, name: string, url: string)
    requires url != ""
    ensures UrlOf(spec, name) == url <==> LastNamedHas(spec, name, url)
  {
    if spec != [] {
      var init, t := spec[..|spec| - 1], spec[|spec| - 1];
      if t.name == name {
      } else {
        UrlOfLastNamed(init, name, url);
      }
    }
  }

  /** A renamed redacted team keeps its webhook exactly when the last team called by the new name has the
      same one; with distinct names that is the team itself or one that shares the webhook. */
  lemma RenameKeepsWebhook(spec: Spec, i: nat, name: string)
    requires i < |spec| && spec[i].notifyUrl != ""
    ensures Merged(Redacted(spec)[i := Redacted(spec)[i].(name := name)], spec)[i].notifyUrl == spec[i].notifyUrl
       <==> LastNamedHas(spec, name, spec[i].notifyUrl)
  {
    UrlOfLastNamed(spec, name, spec[i].notifyUrl);
  }

  /** With distinct names any team of that name will do. */
  lemma DistinctRenameKeepsWebhook(spec: Spec, i: nat, name: string)
    requires i < |spec| && spec[i].notifyUrl != "" && DistinctTeams(spec)
    ensures Merged(Redacted(spec)[i := Redacted(spec)[i].(name := name)], spec)[i].notifyUrl == spec[i].notifyUrl
       <==> exists j :: 0 <= j < |spec| && spec[j].name == name && spec[j].notifyUrl == spec[i].notifyUrl
  {
    RenameKeepsWebhook(spec, i, name);
    if j: nat :| j < |spec| && spec[j].name == name && spec[j].notifyUrl == spec[i].notifyUrl {
      assert forall k | j < k < |spec| :: spec[k].name != name;
    }
  }

  // The lookup the analyzer uses.

  function Urls(spec: Spec): map<string, string> {
    if spec == [] then map[]
    else
      var t := spec[|spec| - 1];
      var urls := Urls(spec[..|spec| - 1]);
      if t.notifyUrl != "" then urls[t.name := t.notifyUrl] else urls
  }

  /** Later claims win. */
  function Owners(claims: seq<Claim>): map<string, string> {
    if claims == [] then map[]
    else
      var c := claims[|claims| - 1];
      Owners(claims[..|claims| - 1])[c.ns := c.team]
  }

  function ConfigOf(spec: Spec): Config {
    Config(Owners(Claims(spec)), Urls(spec))
  }

  /** `Spec.Config` */
  method ToConfig(spec: Spec) returns (cfg: Config)
    ensures cfg == ConfigOf(spec)
  {
    var owners, urls := map[], map[];
    for i := 0 to |spec|
      invariant owners == Owners(Claims(spec[..i])) && urls == Urls(spec[..i])
    {
      var t := spec[i];
      assert spec[..i + 1][..i] == spec[..i];
      ghost var before := Claims(spec[..i]);
      OwnersOfNone(before, t);
      for k := 0 to |t.namespaces|
        invariant owners == Owners(before + ClaimsBy(t.name, t.namespaces)[..k])
      {
        OwnersOneMore(before, t, k);
        owners := owners[t.namespaces[k] := t.name];
      }
      assert ClaimsBy(t.name, t.namespaces)[..|t.namespaces|] == ClaimsBy(t.name, t.namespaces);
      if t.notifyUrl != "" {
        urls := urls[t.name := t.notifyUrl];
      }
    }
    assert spec[..|spec|] == spec;
    cfg := Config(owners, urls);
  }

  lemma OwnersOfNone(before: seq<Claim>, t: Team)
    ensures before + ClaimsBy(t.name, t.namespaces)[..0] == before
  {
  }

  lemma {:induction false} OwnersOneMore(before: seq<Claim>, t: Team, k: nat)
    requires k < |t.namespaces|
    ensures Owners(before + ClaimsBy(t.name, t.namespaces)[..k + 1])
         == Owners(before + ClaimsBy(t.name, t.namespaces)[..k])[t.namespaces[k] := t.name]
  {
    var next := before + ClaimsBy(t.name, t.namespaces)[..k + 1];
    assert next[..|next| - 1] == before + ClaimsBy(t.name, t.namespaces)[..k];
  }

  lemma {:induction false} OwnersMap(claims: seq<Claim>)
    requires OneOwnerEach(claims)
    ensures Maps(Owners(claims), claims)
  {
    if claims != [] {
      var init, c := claims[..|claims| - 1], claims[|claims| - 1];
      assert forall i | 0 <= i < |init| :: init[i] == claims[i];
      OwnersMap(init);
      MapsGrow(Owners(init), init, c);
      assert init + [c] == claims;
    }
  }

  lemma {:induction false} ClaimsTrimmed(spec: Spec)
    ensures |Claims(TrimAll(spec))| == |Claims(spec)|
    ensures forall i | 0 <= i < |Claims(spec)| ::
              Claims(TrimAll(spec))[i] == Claim(TrimSpace(Claims(spec)[i].ns), TrimSpace(Claims(spec)[i].team))
  {
    if spec != [] {
      var init, t := spec[..|spec| - 1], spec[|spec| - 1];
      ClaimsTrimmed(init);
      assert TrimAll(spec)[..|spec| - 1] == TrimAll(init);
      var past := |Claims(init)|;
      forall i | 0 <= i < |Claims(spec)|
        ensures Claims(TrimAll(spec))[i] == Claim(TrimSpace(Claims(spec)[i].ns), TrimSpace(Claims(spec)[i].team))
      {
        if i < past {
          assert Claims(spec)[i] == Claims(init)[i] && Claims(TrimAll(spec))[i] == Claims(TrimAll(init))[i];
        } else {
          assert Claims(spec)[i] == Claim(t.namespaces[i - past], t.name);
        }
      }
    }
  }

  /** `Validate` compares trimmed names, the readers raw ones; what it accepts is unambiguous for both. */
  lemma ValidMeansOneOwner(spec: Spec)
    requires ValidSpec(spec)
    ensures OneOwnerEach(Claims(spec))
  {
    var claims, trimmed := Claims(spec), Claims(TrimAll(spec));
    ClaimsTrimmed(spec);
    forall i, j | 0 <= i < |claims| && 0 <= j < |claims| && claims[i].ns == claims[j].ns
      ensures claims[i].team == claims[j].team
    {
      assert trimmed[i].ns == trimmed[j].ns && trimmed[i].team == trimmed[j].team;
      var s := ClaimantOf(spec, i);
      var t := ClaimantOf(spec, j);
      SameTrimmedSameTeam(spec, s, t);
    }
  }

  lemma SameTrimmedSameTeam(spec: Spec, s: nat, t: nat)
    requires ValidSpec(spec) && s < |spec| && t < |spec|
    ensures TrimSpace(spec[s].name) == TrimSpace(spec[t].name) ==> s == t
  {
    var trimmed := TrimAll(spec);
    assert trimmed[s].name == TrimSpace(spec[s].name) && trimmed[t].name == TrimSpace(spec[t].name);
    if s < t {
      assert trimmed[s].name != trimmed[t].name;
    } else if t < s {
      assert trimmed[t].name != trimmed[s].name;
    }
  }

  lemma {:induction false} ClaimantOf(spec: Spec, i: nat) returns (t: nat)
    requires i < |Claims(spec)|
    ensures t < |spec| && Claims(spec)[i].team == spec[t].name && Claims(spec)[i].ns in spec[t].namespaces
  {
    var before := Claims(spec[..|spec| - 1]);
    if i < |before| {
      t := ClaimantOf(spec[..|spec| - 1], i);
    } else {
      t := |spec| - 1;
      assert Claims(spec)[i] == ClaimsBy(spec[t].name, spec[t].namespaces)[i - |before|];
    }
  }

  lemma {:induction false} ClaimOfTeam(spec: Spec, t: nat, ns: string) returns (i: nat)
    requires t < |spec| && ns in spec[t].namespaces
    ensures i < |Claims(spec)| && Claims(spec)[i] == Claim(ns, spec[t].name)
  {
    if t < |spec| - 1 {
      i := ClaimOfTeam(spec[..|spec| - 1], t, ns);
    } else {
      var k :| 0 <= k < |spec[t].namespaces| && spec[t].namespaces[k] == ns;
      i := |Claims(spec[..t])| + k;
      assert Claims(spec)[i] == ClaimsBy(spec[t].name, spec[t].namespaces)[k];
    }
  }
}
