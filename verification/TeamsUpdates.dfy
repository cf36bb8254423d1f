/** Updates of the stored mapping that overlap: a PUT reads the mapping, restores the redacted webhooks
    from what it read, and writes the result, without a lock around the three. */
module TeamsUpdates {
  import opened Teams
  import opened TeamsFile

  /** A handler reads the stored mapping, and later saves its body merged with what it read. */
  datatype Event = Read(handler: nat) | Save(handler: nat)

  /** `stored` is the mapping as a reader sees it, `prev` what each handler has read. */
  datatype World = World(stored: Spec, prev: map<nat, Spec>)

  predicate Enabled(bodies: map<nat, Spec>, w: World, e: Event) {
    e.handler in bodies && (e.Save? ==> e.handler in w.prev)
  }

  /** A merged body that does not validate is refused. */
  ghost function Step(bodies: map<nat, Spec>, w: World, e: Event): World
    requires Enabled(bodies, w, e)
  {
    match e
    case Read(h) => w.(prev := w.prev[h := w.stored])
    case Save(h) =>
      var merged := Merged(bodies[h], w.prev[h]);
      if ValidSpec(merged) then w.(stored := Canonical(merged)) else w
  }

  ghost function After(bodies: map<nat, Spec>, spec: Spec, trace: seq<Event>): World {
    if trace == [] then World(spec, map[])
    else
      var w := After(bodies, spec, trace[..|trace| - 1]);
      if Enabled(bodies, w, trace[|trace| - 1]) then Step(bodies, w, trace[|trace| - 1]) else w
  }

  /** If nothing was saved since the handler read, what it read is what is stored. */
  lemma {:induction false} QuietReadIsStored(bodies: map<nat, Spec>, spec: Spec, trace: seq<Event>, i: nat, h: nat)
    requires i < |trace| && trace[i] == Read(h) && h in bodies
    requires forall k | i < k < |trace| :: !trace[k].Save?
    ensures h in After(bodies, spec, trace).prev
    ensures After(bodies, spec, trace).prev[h] == After(bodies, spec, trace).stored
  {
    var init := trace[..|trace| - 1];
    if i < |init| {
      assert forall k | i < k < |init| :: init[k] == trace[k];
      QuietReadIsStored(bodies, spec, init, i, h);
    }
  }

  /** Then a save gives every redacted team the webhook that was stored under its name just before. */
  lemma QuietSaveKeepsWebhooks(bodies: map<nat, Spec>, spec: Spec, trace: seq<Event>, i: nat, h: nat)
    requires i < |trace| && trace[i] == Read(h) && h in bodies
    requires forall k | i < k < |trace| :: !trace[k].Save?
    ensures var w := After(bodies, spec, trace);
            var merged := Merged(bodies[h], w.stored);
            && Enabled(bodies, w, Save(h))
            && Step(bodies, w, Save(h)).stored == (if ValidSpec(merged) then Canonical(merged) else w.stored)
            && forall k | 0 <= k < |merged| && bodies[h][k].notifyUrl == REDACTED ::
                 merged[k].notifyUrl == UrlOf(w.stored, merged[k].name)
  {
    QuietReadIsStored(bodies, spec, trace, i, h);
  }

  // Exactly when what a handler read is still what is stored, as seen through any observation `f`.

  /** The position of a handler's last read, -1 when it has none. */
  function LastRead(trace: seq<Event>, h: nat): (i: int)
    ensures -1 <= i < |trace|
    ensures i >= 0 ==> trace[i] == Read(h)
  {
    if trace == [] then -1
    else if trace[|trace| - 1] == Read(h) then |trace| - 1
    else LastRead(trace[..|trace| - 1], h)
  }

  lemma {:induction false} PrevIsAsRead(bodies: map<nat, Spec>, spec: Spec, trace: seq<Event>, h: nat)
    requires h in bodies
    ensures LastRead(trace, h) >= 0 <==> h in After(bodies, spec, trace).prev
    ensures LastRead(trace, h) >= 0 ==>
              After(bodies, spec, trace).prev[h] == After(bodies, spec, trace[..LastRead(trace, h)]).stored
  {
    if trace != [] {
      var init := trace[..|trace| - 1];
      PrevIsAsRead(bodies, spec, init, h);
      if LastRead(init, h) >= 0 {
        assert trace[..LastRead(init, h)] == init[..LastRead(init, h)];
      }
    }
  }

  /** What is observed of the stored mapping before event `i`. */
  ghost function Seen<T>(bodies: map<nat, Spec>, spec: Spec, f: Spec -> T, trace: seq<Event>, i: nat): T
    requires i <= |trace|
  {
    f(After(bodies, spec, trace[..i]).stored)
  }

  ghost predicate ChangesAt<T>(bodies: map<nat, Spec>, spec: Spec, f: Spec -> T, trace: seq<Event>, k: nat)
    requires k < |trace|
  {
    Seen(bodies, spec, f, trace, k + 1) != Seen(bodies, spec, f, trace, k)
  }

  /** A change never brings back what was observed before it. */
  ghost predicate NeverReturns<T>(bodies: map<nat, Spec>, spec: Spec, f: Spec -> T, trace: seq<Event>) {
    forall i: nat, k: nat | i <= k < |trace| && ChangesAt(bodies, spec, f, trace, k) ::
      Seen(bodies, spec, f, trace, k + 1) != Seen(bodies, spec, f, trace, i)
  }

  /** Only a save changes anything. */
  lemma ChangesAreSaves<T>(bodies: map<nat, Spec>, spec: Spec, f: Spec -> T, trace: seq<Event>, k: nat)
    requires k < |trace| && ChangesAt(bodies, spec, f, trace, k)
    ensures trace[k].Save?
  {
    assert trace[..k + 1][..k] == trace[..k];
  }

  /** The last change in a stretch of the run, -1 when there is none. */
  lemma {:induction false} LastChange<T>(bodies: map<nat, Spec>, spec: Spec, f: Spec -> T, trace: seq<Event>,
                                         lo: nat, hi: nat) returns (k: int)
    requires lo <= hi <= |trace|
    ensures k == -1 || (lo <= k < hi && ChangesAt(bodies, spec, f, trace, k)
                        && Seen(bodies, spec, f, trace, hi) == Seen(bodies, spec, f, trace, k + 1))
    ensures k == -1 ==>
              && Seen(bodies, spec, f, trace, hi) == Seen(bodies, spec, f, trace, lo)
              && forall i | lo <= i < hi :: !ChangesAt(bodies, spec, f, trace, i)
    decreases hi
  {
    k := -1;
    if lo < hi {
      if ChangesAt(bodies, spec, f, trace, hi - 1) {
        k := hi - 1;
      } else {
        k := LastChange(bodies, spec, f, trace, lo, hi - 1);
      }
    }
  }

  /** What a handler read agrees with what is stored exactly when no save since its last read changed
      that: for the whole mapping, for the webhook of one team, or for anything else one may look at. */
  lemma ReadIsCurrentExactly<T>(bodies: map<nat, Spec>, spec: Spec, f: Spec -> T, trace: seq<Event>, h: nat)
    requires h in bodies && LastRead(trace, h) >= 0 && NeverReturns(bodies, spec, f, trace)
    ensures h in After(bodies, spec, trace).prev
    ensures var w := After(bodies, spec, trace);
            f(w.prev[h]) == f(w.stored) <==>
            forall k | LastRead(trace, h) < k < |trace| :: !ChangesAt(bodies, spec, f, trace, k)
  {
    var r := LastRead(trace, h);
    PrevIsAsRead(bodies, spec, trace, h);
    assert trace[..|trace|] == trace;
    var k := LastChange(bodies, spec, f, trace, r, |trace|);
    if ChangesAt(bodies, spec, f, trace, r) {
      ChangesAreSaves(bodies, spec, f, trace, r);
    }
  }

  /** Whatever is read or stored is sorted. */
  lemma {:induction false} AlwaysCanonical(bodies: map<nat, Spec>, spec: Spec, trace: seq<Event>)
    requires Canonical(spec) == spec
    ensures var w := After(bodies, spec, trace);
            Canonical(w.stored) == w.stored && forall h | h in w.prev :: Canonical(w.prev[h]) == w.prev[h]
  {
    if trace != [] {
      var init, e := trace[..|trace| - 1], trace[|trace| - 1];
      AlwaysCanonical(bodies, spec, init);
      var w := After(bodies, spec, init);
      if Enabled(bodies, w, e) && e.Save? && ValidSpec(Merged(bodies[e.handler], w.prev[e.handler])) {
        CanonicalTwice(Merged(bodies[e.handler], w.prev[e.handler]));
      }
    }
  }

  lemma CanonicalTwice(spec: Spec)
    requires ValidSpec(spec)
    ensures Canonical(Canonical(spec)) == Canonical(spec)
  {
    ValidIsDistinct(spec);
    FileRoundTrip(spec);
    ReadIsCanonical(FileOf(spec));
  }

  /** In any run, a handler that only sends back what it was shown puts that mapping back, webhooks
      included, whatever was saved in between. */
  lemma EchoRestoresRead(bodies: map<nat, Spec>, spec: Spec, trace: seq<Event>, h: nat)
    requires Canonical(spec) == spec && h in bodies
    requires var w := After(bodies, spec, trace);
             h in w.prev && bodies[h] == Redacted(w.prev[h]) && ValidSpec(w.prev[h])
    ensures var w := After(bodies, spec, trace);
            Step(bodies, w, Save(h)).stored == w.prev[h]
  {
    AlwaysCanonical(bodies, spec, trace);
    ValidIsDistinct(After(bodies, spec, trace).prev[h]);
    ValidRedactionUndone(After(bodies, spec, trace).prev[h]);
  }

  /** So it undoes an update exactly when some save since its last read changed the mapping. */
  lemma EchoUndoesExactly(bodies: map<nat, Spec>, spec: Spec, trace: seq<Event>, h: nat)
    requires Canonical(spec) == spec && h in bodies && LastRead(trace, h) >= 0
    requires NeverReturns(bodies, spec, Whole, trace)
    ensures var w := After(bodies, spec, trace);
            h in w.prev && (bodies[h] == Redacted(w.prev[h]) && ValidSpec(w.prev[h]) ==>
              (Step(bodies, w, Save(h)).stored == w.stored <==>
               forall k | LastRead(trace, h) < k < |trace| :: !ChangesAt(bodies, spec, Whole, trace, k)))
  {
    ReadIsCurrentExactly(bodies, spec, Whole, trace, h);
    var w := After(bodies, spec, trace);
    if bodies[h] == Redacted(w.prev[h]) && ValidSpec(w.prev[h]) {
      EchoRestoresRead(bodies, spec, trace, h);
    }
  }

  function Whole(spec: Spec): Spec { spec }

  function UrlUnder(name: string): Spec -> string {
    (s: Spec) => UrlOf(s, name)
  }

  /** And any body gives a redacted team the webhook stored under its name just before exactly when no save
      since its last read changed that webhook. */
  lemma WebhookKeptExactly(bodies: map<nat, Spec>, spec: Spec, trace: seq<Event>, h: nat, i: nat)
    requires h in bodies && LastRead(trace, h) >= 0 && i < |bodies[h]| && bodies[h][i].notifyUrl == REDACTED
    requires NeverReturns(bodies, spec, UrlUnder(bodies[h][i].name), trace)
    ensures var w := After(bodies, spec, trace);
            h in w.prev && (Merged(bodies[h], w.prev[h])[i].notifyUrl == UrlOf(w.stored, bodies[h][i].name) <==>
            forall k | LastRead(trace, h) < k < |trace| :: !ChangesAt(bodies, spec, UrlUnder(bodies[h][i].name), trace, k))
  {
    ReadIsCurrentExactly(bodies, spec, UrlUnder(bodies[h][i].name), trace, h);
  }

  // One overlapping run.

  /** A handler that only sends back what it was shown undoes any update saved after it read: the mapping,
      webhooks included, ends as it was. */
  lemma OverlapUndoesUpdate(spec: Spec, body: Spec)
    requires ValidSpec(spec) && Canonical(spec) == spec && ValidSpec(Merged(body, spec))
    ensures var bodies := map[0 := Redacted(spec), 1 := body];
            var saved := [Read(0), Read(1)] + [Save(1)];
            && After(bodies, spec, saved).stored == Canonical(Merged(body, spec))
            && After(bodies, spec, saved + [Save(0)]).stored == spec
  {
    var bodies := map[0 := Redacted(spec), 1 := body];
    var both := [Read(0), Read(1)];
    BothRead(bodies, spec);
    assert (both + [Save(1)])[..2] == both;
    assert (both + [Save(1)] + [Save(0)])[..3] == both + [Save(1)];
    ValidIsDistinct(spec);
    ValidRedactionUndone(spec);
  }

  lemma BothRead(bodies: map<nat, Spec>, spec: Spec)
    requires 0 in bodies && 1 in bodies
    ensures After(bodies, spec, [Read(0), Read(1)]) == World(spec, map[0 := spec, 1 := spec])
  {
    var both := [Read(0), Read(1)];
    assert both[..1] == [Read(0)] && both[..1][..0] == [];
    assert After(bodies, spec, both[..1][..0]) == World(spec, map[]);
  }

  /** One after the other, the same two bodies keep the update: the redacted webhooks are the new ones. */
  lemma SequentialKeepsUpdate(spec: Spec, body: Spec)
    requires ValidSpec(Merged(body, spec)) && ValidSpec(Merged(Redacted(spec), Canonical(Merged(body, spec))))
    ensures var bodies := map[0 := Redacted(spec), 1 := body];
            var trace := [Read(1)] + [Save(1)] + [Read(0)] + [Save(0)];
            After(bodies, spec, trace).stored == Canonical(Merged(Redacted(spec), Canonical(Merged(body, spec))))
  {
    var bodies := map[0 := Redacted(spec), 1 := body];
    var t1, t2, t3 := [Read(1)], [Read(1)] + [Save(1)], [Read(1)] + [Save(1)] + [Read(0)];
    assert t1[..0] == [] && t2[..1] == t1 && t3[..2] == t2 && (t3 + [Save(0)])[..3] == t3;
    assert After(bodies, spec, t1[..0]) == World(spec, map[]);
    assert After(bodies, spec, t1) == World(spec, map[1 := spec]);
    assert After(bodies, spec, t2).stored == Canonical(Merged(body, spec));
    assert After(bodies, spec, t3).prev[0] == Canonical(Merged(body, spec));
  }
}
