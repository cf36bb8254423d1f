/** What validation, redaction, merging and the lookup of a team mapping come to, team by team and
    namespace by namespace. */
module TeamsMeaning {
  import opened Teams

  // Trimming.

  lemma SpaceExactly(c: char)
    ensures IsSpace(c) <==>
            || c in ['\t', '\n', '\U{B}', '\U{C}', '\r', ' ', '\U{85}', '\U{A0}', '\U{1680}', '\U{2028}', '\U{2029}',
                     '\U{202F}', '\U{205F}', '\U{3000}']
            || 0x2000 <= c as int <= 0x200A
  {
    var text := ['\t', '\n', '\U{B}', '\U{C}', '\r', ' ', '\U{85}', '\U{A0}', '\U{1680}', '\U{2028}', '\U{2029}',
                 '\U{202F}', '\U{205F}', '\U{3000}'];
    if IsSpace(c) && !(0x2000 <= c as int <= 0x200A) {
      var n := c as int;
      assert 9 <= n <= 13 || n in {0x20, 0x85, 0xA0, 0x1680, 0x2028, 0x2029, 0x202F, 0x205F, 0x3000};
      assert text[0] == '\t' && text[1] == '\n' && text[2] == '\U{B}' && text[3] == '\U{C}' && text[4] == '\r';
      assert text[5] == ' ' && text[6] == '\U{85}' && text[7] == '\U{A0}' && text[8] == '\U{1680}';
      assert text[9] == '\U{2028}' && text[10] == '\U{2029}' && text[11] == '\U{202F}';
      assert text[12] == '\U{205F}' && text[13] == '\U{3000}';
    }
  }

  /** `t` is the part of `s` from `i` up to `j`, and around it is nothing but space. */
  ghost predicate Within(s: string, i: nat, j: nat, t: string) {
    && i <= j <= |s| && t == s[i..j]
    && (forall k: nat | k < i || j <= k < |s| :: IsSpace(s[k]))
  }

  lemma {:induction false} LeftTrimmed(s: string) returns (i: nat)
    ensures i <= |s| && TrimLeft(s) == s[i..] && forall k | 0 <= k < i :: IsSpace(s[k])
    ensures i < |s| ==> !IsSpace(s[i])
  {
    i := 0;
    if s != [] && IsSpace(s[0]) {
      var rest := LeftTrimmed(s[1..]);
      i := rest + 1;
      assert s[1..][rest..] == s[i..];
      forall k | 0 <= k < i
        ensures IsSpace(s[k])
      {
        assert k > 0 ==> s[k] == s[1..][k - 1];
      }
    }
  }

  lemma {:induction false} RightTrimmed(s: string) returns (j: nat)
    ensures j <= |s| && TrimRight(s) == s[..j] && forall k | j <= k < |s| :: IsSpace(s[k])
    ensures j > 0 ==> !IsSpace(s[j - 1])
  {
    j := |s|;
    if s != [] && IsSpace(s[|s| - 1]) {
      j := RightTrimmed(s[..|s| - 1]);
    }
  }

  /** Trimming takes away exactly the space on both sides. */
  lemma TrimExactly(s: string)
    ensures exists i, j :: Within(s, i, j, TrimSpace(s))
    ensures var t := TrimSpace(s); t != "" ==> !IsSpace(t[0]) && !IsSpace(t[|t| - 1])
  {
    var i := LeftTrimmed(s);
    var rest := TrimLeft(s);
    var j := RightTrimmed(rest);
    forall k: nat | i + j <= k < |s|
      ensures IsSpace(s[k])
    {
      assert s[k] == rest[k - i];
    }
    assert rest[..j] == s[i..i + j];
    assert Within(s, i, i + j, TrimSpace(s));
    if j > 0 {
      assert rest[0] == s[i];
    }
  }

  // Validation.

  function TrimmedName(spec: Spec, i: nat): string
    requires i < |spec|
  {
    TrimSpace(spec[i].name)
  }

  function TrimmedNamespace(spec: Spec, i: nat, k: nat): string
    requires i < |spec| && k < |spec[i].namespaces|
  {
    TrimSpace(spec[i].namespaces[k])
  }

  /** Names and namespaces are not blank, no two teams have one name, and no two list one namespace. */
  ghost predicate Acceptable(spec: Spec) {
    && (forall i: nat | i < |spec| :: TrimmedName(spec, i) != "")
    && (forall i: nat, j: nat | i < j < |spec| :: TrimmedName(spec, i) != TrimmedName(spec, j))
    && (forall i: nat, k: nat | i < |spec| && k < |spec[i].namespaces| :: TrimmedNamespace(spec, i, k) != "")
    && (forall i: nat, j: nat, k: nat, l: nat | i < j < |spec| && k < |spec[i].namespaces| && l < |spec[j].namespaces| ::
          TrimmedNamespace(spec, i, k) != TrimmedNamespace(spec, j, l))
  }

  /** The claim that namespace `k` of team `i` gives rise to. */
  lemma TrimmedClaim(spec: Spec, i: nat, k: nat) returns (c: nat)
    requires i < |spec| && k < |spec[i].namespaces|
    ensures c < |Claims(TrimAll(spec))|
    ensures Claims(TrimAll(spec))[c] == Claim(TrimmedNamespace(spec, i, k), TrimmedName(spec, i))
  {
    var t := TrimAll(spec)[i];
    assert t.namespaces[k] == TrimmedNamespace(spec, i, k) && t.namespaces[k] in t.namespaces;
    c := ClaimOfTeam(TrimAll(spec), i, t.namespaces[k]);
  }

  lemma TrimmedClaimant(spec: Spec, c: nat) returns (i: nat, k: nat)
    requires c < |Claims(TrimAll(spec))|
    ensures i < |spec| && k < |spec[i].namespaces|
    ensures Claims(TrimAll(spec))[c] == Claim(TrimmedNamespace(spec, i, k), TrimmedName(spec, i))
  {
    i := ClaimantOf(TrimAll(spec), c);
    var claim, t := Claims(TrimAll(spec))[c], TrimAll(spec)[i];
    k :| k < |t.namespaces| && t.namespaces[k] == claim.ns;
  }

  lemma ValidIsAcceptable(spec: Spec)
    requires ValidSpec(spec)
    ensures Acceptable(spec)
  {
    var trimmed := TrimAll(spec);
    forall i: nat | i < |spec|
      ensures TrimmedName(spec, i) != ""
    {
      assert trimmed[i].name == TrimmedName(spec, i);
    }
    forall i: nat, j: nat | i < j < |spec|
      ensures TrimmedName(spec, i) != TrimmedName(spec, j)
    {
      SameTrimmedSameTeam(spec, i, j);
    }
    forall i: nat, k: nat | i < |spec| && k < |spec[i].namespaces|
      ensures TrimmedNamespace(spec, i, k) != ""
    {
      var c := TrimmedClaim(spec, i, k);
    }
    forall i: nat, j: nat, k: nat, l: nat | i < j < |spec| && k < |spec[i].namespaces| && l < |spec[j].namespaces|
      ensures TrimmedNamespace(spec, i, k) != TrimmedNamespace(spec, j, l)
    {
      var c := TrimmedClaim(spec, i, k);
      var d := TrimmedClaim(spec, j, l);
      SameTrimmedSameTeam(spec, i, j);
    }
  }

  lemma AcceptableIsValid(spec: Spec)
    requires Acceptable(spec)
    ensures ValidSpec(spec)
  {
    var trimmed, claims := TrimAll(spec), Claims(TrimAll(spec));
    assert forall i: nat | i < |spec| :: trimmed[i].name == TrimmedName(spec, i);
    forall c | 0 <= c < |claims|
      ensures claims[c].ns != ""
    {
      var i, k := TrimmedClaimant(spec, c);
    }
    forall c, d | 0 <= c < |claims| && 0 <= d < |claims| && claims[c].ns == claims[d].ns
      ensures claims[c].team == claims[d].team
    {
      var i, k := TrimmedClaimant(spec, c);
      var j, l := TrimmedClaimant(spec, d);
      assert i == j;
    }
  }

  lemma ValidExactly(spec: Spec)
    ensures ValidSpec(spec) <==> Acceptable(spec)
  {
    if ValidSpec(spec) {
      ValidIsAcceptable(spec);
    }
    if Acceptable(spec) {
      AcceptableIsValid(spec);
    }
  }

  ghost predicate ListsTrimmed(spec: Spec, team: string, ns: string) {
    exists i: nat, k: nat :: i < |spec| && k < |spec[i].namespaces| && TrimmedName(spec, i) == team
                             && TrimmedNamespace(spec, i, k) == ns
  }

  lemma ClaimedExactly(spec: Spec, team: string, ns: string)
    ensures Claim(ns, team) in Claims(TrimAll(spec)) <==> ListsTrimmed(spec, team, ns)
  {
    var claims := Claims(TrimAll(spec));
    if Claim(ns, team) in claims {
      var c :| 0 <= c < |claims| && claims[c] == Claim(ns, team);
      var i, k := TrimmedClaimant(spec, c);
    }
    if i: nat, k: nat :| i < |spec| && k < |spec[i].namespaces| && TrimmedName(spec, i) == team
                         && TrimmedNamespace(spec, i, k) == ns {
      var c := TrimmedClaim(spec, i, k);
    }
  }

  /** What a refusal says is so. */
  lemma ProblemExactly(spec: Spec, p: Problem)
    ensures ProblemOf(TrimAll(spec), p) <==>
            match p
            case NoName => exists i: nat :: i < |spec| && TrimmedName(spec, i) == ""
            case ListedTwice(name) =>
              exists i: nat, j: nat :: i < j < |spec| && TrimmedName(spec, i) == name && TrimmedName(spec, j) == name
            case EmptyNamespace(team) => ListsTrimmed(spec, team, "")
            case TwoOwners(ns, a, b) => a != b && ListsTrimmed(spec, a, ns) && ListsTrimmed(spec, b, ns)
            case BadEntry(_) => false
  {
    var trimmed := TrimAll(spec);
    assert forall i: nat | i < |spec| :: trimmed[i].name == TrimmedName(spec, i) && trimmed[i] in trimmed;
    match p
    case NoName =>
      if t :| t in trimmed && t.name == "" {
        var i: nat :| i < |trimmed| && trimmed[i] == t;
        assert TrimmedName(spec, i) == "";
      }
    case ListedTwice(name) =>
      if i: nat, j: nat :| i < j < |spec| && TrimmedName(spec, i) == name && TrimmedName(spec, j) == name {
        assert trimmed[i].name == trimmed[j].name == name;
      }
      if i, j :| 0 <= i < j < |trimmed| && trimmed[i].name == trimmed[j].name == name {
        assert TrimmedName(spec, i) == name && TrimmedName(spec, j) == name;
      }
    case EmptyNamespace(team) =>
      ClaimedExactly(spec, team, "");
    case TwoOwners(ns, a, b) =>
      ClaimedExactly(spec, a, ns);
      ClaimedExactly(spec, b, ns);
    case BadEntry(_) =>
  }

  // The lookup.

  /** The last team that lists the namespace is this one. */
  ghost predicate LastToList(spec: Spec, ns: string, i: nat) {
    i < |spec| && ns in spec[i].namespaces && forall k | i < k < |spec| :: ns !in spec[k].namespaces
  }

  /** The last team of that name with a webhook is this one. */
  ghost predicate LastWithWebhook(spec: Spec, team: string, i: nat) {
    && i < |spec| && spec[i].name == team && spec[i].notifyUrl != ""
    && forall k | i < k < |spec| && spec[k].name == team :: spec[k].notifyUrl == ""
  }

  lemma {:induction false} OwnersByOne(before: seq<Claim>, team: string, namespaces: seq<string>, ns: string)
    ensures var all := Owners(before + ClaimsBy(team, namespaces));
            && (ns in namespaces ==> ns in all && all[ns] == team)
            && (ns !in namespaces ==> (ns in all <==> ns in Owners(before)))
            && (ns !in namespaces && ns in all ==> all[ns] == Owners(before)[ns])
  {
    if namespaces == [] {
      assert before + ClaimsBy(team, namespaces) == before;
    } else {
      var init, last := namespaces[..|namespaces| - 1], namespaces[|namespaces| - 1];
      OwnersByOne(before, team, init, ns);
      assert namespaces == init + [last];
      var all := before + ClaimsBy(team, namespaces);
      assert all[..|all| - 1] == before + ClaimsBy(team, init) && all[|all| - 1] == Claim(last, team);
    }
  }

  /** A namespace is owned by the last team that lists it, and by none when none does. */
  lemma {:induction false} OwnerIsLastToList(spec: Spec, ns: string)
    ensures var owners := ConfigOf(spec).namespaceTeam;
            && (ns in owners <==> exists i: nat :: i < |spec| && ns in spec[i].namespaces)
            && (forall i: nat | LastToList(spec, ns, i) :: ns in owners && owners[ns] == spec[i].name)
  {
    if spec != [] {
      var init, t := spec[..|spec| - 1], spec[|spec| - 1];
      OwnerIsLastToList(init, ns);
      OwnersByOne(Claims(init), t.name, t.namespaces, ns);
      assert forall i: nat | i < |init| :: init[i] == spec[i];
      forall i: nat | LastToList(spec, ns, i)
        ensures ns in ConfigOf(spec).namespaceTeam && ConfigOf(spec).namespaceTeam[ns] == spec[i].name
      {
        if i < |init| {
          assert LastToList(init, ns, i);
        }
      }
    }
  }

  ghost predicate HasWebhook(spec: Spec, team: string) {
    exists i: nat :: i < |spec| && spec[i].name == team && spec[i].notifyUrl != ""
  }

  lemma WebhookGrows(init: Spec, t: Team, team: string)
    ensures HasWebhook(init + [t], team) <==> HasWebhook(init, team) || (t.name == team && t.notifyUrl != "")
    ensures forall i: nat | LastWithWebhook(init + [t], team, i) ::
              (i == |init| && t.name == team && t.notifyUrl != "")
              || (LastWithWebhook(init, team, i) && (t.name != team || t.notifyUrl == ""))
  {
    var spec := init + [t];
    assert spec[|init|] == t && forall i: nat | i < |init| :: init[i] == spec[i];
  }

  /** A team's webhook is the one of the last team of its name that has one. */
  lemma {:induction false} WebhookIsLast(spec: Spec, team: string)
    ensures var urls := ConfigOf(spec).notifyURLs;
            && (team in urls <==> HasWebhook(spec, team))
            && (forall i: nat | LastWithWebhook(spec, team, i) :: team in urls && urls[team] == spec[i].notifyUrl)
  {
    if spec != [] {
      var init, t := spec[..|spec| - 1], spec[|spec| - 1];
      assert spec == init + [t];
      WebhookIsLast(init, team);
      WebhookGrows(init, t, team);
    }
  }

  // Webhooks.

  /** A reply has the same teams, "***" for a webhook and "" for none. */
  lemma RedactedExactly(spec: Spec)
    ensures |Redacted(spec)| == |spec|
    ensures forall i | 0 <= i < |spec| ::
              Redacted(spec)[i] == Team(spec[i].name, spec[i].namespaces, if spec[i].notifyUrl == "" then "" else "***")
  {
  }

  lemma {:induction false} UrlOfLast(spec: Spec, name: string)
    ensures (forall j | 0 <= j < |spec| :: spec[j].name != name) ==> UrlOf(spec, name) == ""
    ensures (exists j | 0 <= j < |spec| :: spec[j].name == name) ==> LastNamedHas(spec, name, UrlOf(spec, name))
  {
    if spec != [] && spec[|spec| - 1].name != name {
      UrlOfLast(spec[..|spec| - 1], name);
      assert forall j | 0 <= j < |spec| - 1 :: spec[..|spec| - 1][j] == spec[j];
    }
  }

  /** What is stored is what was sent, except that "***" stands for the webhook of the last stored team of
      that name, or for none. */
  lemma MergedExactly(spec: Spec, prev: Spec)
    ensures |Merged(spec, prev)| == |spec|
    ensures forall i | 0 <= i < |spec| ::
              var t := Merged(spec, prev)[i];
              && t.name == spec[i].name && t.namespaces == spec[i].namespaces
              && (spec[i].notifyUrl != "***" ==> t.notifyUrl == spec[i].notifyUrl)
              && (spec[i].notifyUrl == "***" && (forall j | 0 <= j < |prev| :: prev[j].name != t.name) ==> t.notifyUrl == "")
              && (spec[i].notifyUrl == "***" && (exists j | 0 <= j < |prev| :: prev[j].name == t.name) ==>
                    LastNamedHas(prev, t.name, t.notifyUrl))
  {
    forall i | 0 <= i < |spec|
      ensures Merged(spec, prev)[i] == Restored(spec[i], prev)
    {
      UrlOfLast(prev, spec[i].name);
    }
    forall i | 0 <= i < |spec|
      ensures var n := spec[i].name;
              && ((forall j | 0 <= j < |prev| :: prev[j].name != n) ==> UrlOf(prev, n) == "")
              && ((exists j | 0 <= j < |prev| :: prev[j].name == n) ==> LastNamedHas(prev, n, UrlOf(prev, n)))
    {
      UrlOfLast(prev, spec[i].name);
    }
  }
}
