/** The ownership mapping in its ConfigMap, and the API handlers that read and replace it. */
module TeamsStore {
  import opened Reports
  import opened Teams
  import opened TeamsFile
  import ReportCache

  /** A value of the ConfigMap: a decoded teams document, or text that is not one. */
  datatype Value = Doc(raw: Raw) | Opaque(text: string)

  type Data = map<string, Value>

  /** The mapping a ConfigMap holds; None when its document does not parse. */
  ghost function StoredSpec(cm: Option<Data>, key: string): Option<Spec> {
    if cm.None? || key !in cm.value then Some([])
    else
      match cm.value[key]
      case Opaque(_) => None
      case Doc(raw) => if Readable(raw) then Some(SpecOf(raw)) else None
  }

  function Stored(cm: Option<Data>, key: string, spec: Spec): Option<Data> {
    Some((if cm.Some? then cm.value else map[])[key := Doc(FileOf(spec))])
  }

  datatype Reply = Fine(spec: Spec) | BadRequest | BadGateway

  /** The API server answers (`up`) or not, and accepts the write or not. */
  datatype Cluster = Cluster(up: bool, writable: bool)

  class Store {
    const key: string
    var cm: Option<Data>

    constructor (key: string, cm: Option<Data>)
      ensures this.key == key && this.cm == cm
    {
      this.key, this.cm := key, cm;
    }

    method Get(up: bool) returns (spec: Option<Spec>)
      ensures spec == if up then StoredSpec(cm, key) else None
      ensures spec == None <==>
              !up || (cm.Some? && key in cm.value && (cm.value[key].Opaque? || !Readable(cm.value[key].raw)))
      ensures up && (cm.None? || key !in cm.value) ==> spec == Some([])
      ensures up && cm.Some? && key in cm.value && spec.Some? ==> spec.value == SpecOf(cm.value[key].raw)
    {
      if !up {
        return None;
      }
      if cm.None? || key !in cm.value {
        return Some([]);
      }
      match cm.value[key]
      case Opaque(_) => spec := None;
      case Doc(raw) => spec := ParseSpec(raw);
    }

    /** Writes a valid spec, keeping every other key; changes nothing otherwise. */
    method Put(spec: Spec, c: Cluster) returns (ok: bool)
      modifies this
      ensures ok <==> ValidSpec(spec) && c.up && c.writable
      ensures cm == if ok then Stored(old(cm), key, spec) else old(cm)
    {
      var problem := Validate(spec);
      if problem.Some? {
        return false;
      }
      var raw := MarshalYAML(spec);
      if !c.up || !c.writable {
        return false;
      }
      cm := Some((if cm.Some? then cm.value else map[])[key := Doc(raw)]);
      ok := true;
    }

    /** GET: webhooks never leave unredacted. */
    method HandleGet(up: bool) returns (r: Reply)
      ensures r == match (if up then StoredSpec(cm, key) else None)
                   case None => BadGateway
                   case Some(spec) => Fine(Redacted(spec))
    {
      var spec := Get(up);
      match spec
      case None => r := BadGateway;
      case Some(s) => r := Fine(Redacted(s));
    }

    /** PUT: redacted webhooks are restored from the stored mapping before the new one is written, and the
        server then uses the new one, if it can be read back. `body` is None when it is not a mapping. */
    method HandlePut(body: Option<Spec>, c: Cluster, server: ReportCache.Server, rereads: bool) returns (r: Reply)
      modifies this, server
      ensures body.None? ==> r.BadRequest? && cm == old(cm)
      ensures body.Some? ==>
                var prev := if c.up then StoredSpec(old(cm), key) else None;
                && (r.BadGateway? <==> prev.None? || (ValidSpec(Merged(body.value, prev.value)) && !c.writable))
                && (r.BadRequest? <==> prev.Some? && !ValidSpec(Merged(body.value, prev.value)))
                && (r.Fine? ==> r.spec == Redacted(Merged(body.value, prev.value)))
                && cm == if r.Fine? then Stored(old(cm), key, Merged(body.value, prev.value)) else old(cm)
      ensures server.View()
           == if r.Fine? && rereads
              then ReportCache.Step(server.options, old(server.View()), ReportCache.Update(Some(
                     ConfigOf(Merged(body.value, StoredSpec(old(cm), key).value)).namespaceTeam)))
              else old(server.View())
    {
      if body.None? {
        return BadRequest;
      }
      var prev := Get(c.up);
      if prev.None? {
        return BadGateway;
      }
      var merged := MergeSecrets(body.value, prev.value);
      var problem := Validate(merged);
      if problem.Some? {
        return BadRequest;
      }
      var ok := Put(merged, c);
      if !ok {
        return BadGateway;
      }
      RefreshServer(server, rereads, merged);
      r := Fine(Redacted(merged));
    }

    /** Reads the mapping back and installs it; after a write of `spec` that is the lookup of `spec`. */
    method RefreshServer(server: ReportCache.Server, rereads: bool, ghost spec: Spec)
      requires ValidSpec(spec) && exists before: Option<Data> :: cm == Stored(before, key, spec)
      modifies server
      ensures server.View()
           == if rereads
              then ReportCache.Step(server.options, old(server.View()),
                                    ReportCache.Update(Some(ConfigOf(spec).namespaceTeam)))
              else old(server.View())
    {
      var current := Get(rereads);
      ReadBackLookup(cm, key, spec);
      var mapping := None;
      if current.Some? {
        var cfg := ToConfig(current.value);
        mapping := Some(cfg.namespaceTeam);
      }
      var handed := server.RefreshTeams(mapping);
    }
  }

  /** What is read back after a write gives the lookup of what was written. */
  lemma ReadBackLookup(cm: Option<Data>, key: string, spec: Spec)
    requires ValidSpec(spec) && exists before: Option<Data> :: cm == Stored(before, key, spec)
    ensures StoredSpec(cm, key).Some? && ConfigOf(StoredSpec(cm, key).value) == ConfigOf(spec)
  {
    var before: Option<Data> :| cm == Stored(before, key, spec);
    WriteThenRead(before, key, spec);
    ValidIsDistinct(spec);
    FileRoundTrip(spec);
    BothReadersAgree(spec);
  }

  /** Whatever is written is what the next read returns, sorted; every other key is untouched. */
  lemma WriteThenRead(cm: Option<Data>, key: string, spec: Spec)
    requires ValidSpec(spec)
    ensures StoredSpec(Stored(cm, key, spec), key) == Some(Canonical(spec))
    ensures forall k | k != key ::
              (k in Stored(cm, key, spec).value <==> cm.Some? && k in cm.value)
              && (cm.Some? && k in cm.value ==> Stored(cm, key, spec).value[k] == cm.value[k])
  {
    ValidIsDistinct(spec);
    FileRoundTrip(spec);
  }

  /** PUT of exactly what GET returned changes nothing a reader can see: same teams, same webhooks,
      same lookup, same other keys. It is refused, and changes nothing, exactly when the stored
      mapping is one `Validate` rejects. */
  lemma PutOfGet(cm: Option<Data>, key: string)
    requires StoredSpec(cm, key).Some?
    ensures var spec := StoredSpec(cm, key).value;
            var merged := Merged(Redacted(spec), spec);
            && merged == spec
            && (ValidSpec(merged) ==>
                  && StoredSpec(Stored(cm, key, merged), key) == Some(spec)
                  && forall k | k != key && cm.Some? && k in cm.value :: Stored(cm, key, merged).value[k] == cm.value[k])
  {
    var spec := StoredSpec(cm, key).value;
    ValidRedactionUndone(spec);
    assert Merged(Redacted(spec), spec) == spec;
    if ValidSpec(spec) {
      StoredIsCanonical(cm, key);
      StoredAgain(cm, key, spec);
    }
  }

  lemma StoredAgain(cm: Option<Data>, key: string, spec: Spec)
    requires ValidSpec(spec) && Canonical(spec) == spec
    ensures StoredSpec(Stored(cm, key, spec), key) == Some(spec)
    ensures forall k | k != key && cm.Some? && k in cm.value :: Stored(cm, key, spec).value[k] == cm.value[k]
  {
    WriteThenRead(cm, key, spec);
  }

  lemma StoredIsCanonical(cm: Option<Data>, key: string)
    requires StoredSpec(cm, key).Some?
    ensures Canonical(StoredSpec(cm, key).value) == StoredSpec(cm, key).value
  {
    if cm.Some? && key in cm.value {
      ReadIsCanonical(cm.value[key].raw);
    } else {
      assert TidyAll([]) == [];
    }
  }

  /** A redacted reply shows which teams have a webhook and never which. */
  lemma RedactionHides(spec: Spec)
    ensures |Redacted(spec)| == |spec|
    ensures forall i | 0 <= i < |spec| ::
              && Redacted(spec)[i].notifyUrl in {"", REDACTED}
              && (Redacted(spec)[i].notifyUrl == "" <==> spec[i].notifyUrl == "")
              && Redacted(spec)[i].name == spec[i].name && Redacted(spec)[i].namespaces == spec[i].namespaces
  {
  }
}
