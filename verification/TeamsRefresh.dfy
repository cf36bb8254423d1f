/** How the mappings in use follow the stored one when ownership updates overlap: every update writes,
    then reads the mapping back outside any lock, then installs what it read in the server and, under
    another mutex, in the fleet. */
module TeamsRefresh {
  type Mapping = map<string, string>

  datatype Copy = OfServer | OfFleet

  /** `Write` and `Fetch` reach the ConfigMap, `Install` takes the mutex of one copy. */
  datatype Event = Write(stored: Mapping) | Fetch(handler: nat) | Install(handler: nat, copy: Copy)

  datatype World = World(stored: Mapping, fetched: map<nat, Mapping>, inServer: Mapping, inFleet: Mapping)

  function InUse(w: World, c: Copy): Mapping {
    match c
    case OfServer => w.inServer
    case OfFleet => w.inFleet
  }

  predicate Enabled(w: World, e: Event) {
    e.Install? ==> e.handler in w.fetched
  }

  function Step(w: World, e: Event): World
    requires Enabled(w, e)
  {
    match e
    case Write(m) => w.(stored := m)
    case Fetch(h) => w.(fetched := w.fetched[h := w.stored])
    case Install(h, OfServer) => w.(inServer := w.fetched[h])
    case Install(h, OfFleet) => w.(inFleet := w.fetched[h])
  }

  /** Initially the stored mapping is in use. */
  function After(m: Mapping, trace: seq<Event>): World {
    if trace == [] then World(m, map[], m, m)
    else
      var w := After(m, trace[..|trace| - 1]);
      if Enabled(w, trace[|trace| - 1]) then Step(w, trace[|trace| - 1]) else w
  }

  predicate Legal(m: Mapping, trace: seq<Event>) {
    trace == [] || (Legal(m, trace[..|trace| - 1]) && Enabled(After(m, trace[..|trace| - 1]), trace[|trace| - 1]))
  }

  /** The position of the last fetch of a handler, -1 when it has none. */
  function LastFetch(trace: seq<Event>, h: nat): (i: int)
    ensures -1 <= i < |trace|
    ensures i >= 0 ==> trace[i] == Fetch(h)
  {
    if trace == [] then -1
    else if trace[|trace| - 1] == Fetch(h) then |trace| - 1
    else LastFetch(trace[..|trace| - 1], h)
  }

  /** The fetch behind the copy in use, -1 when nothing was ever installed there. */
  function Source(trace: seq<Event>, c: Copy): (i: int)
    ensures -1 <= i < |trace|
    ensures i >= 0 ==> trace[i].Fetch?
  {
    if trace == [] then -1
    else
      var init, e := trace[..|trace| - 1], trace[|trace| - 1];
      if e.Install? && e.copy == c then LastFetch(init, e.handler) else Source(init, c)
  }

  lemma {:induction false} FetchedIsAsRead(m: Mapping, trace: seq<Event>, h: nat)
    ensures LastFetch(trace, h) >= 0 <==> h in After(m, trace).fetched
    ensures LastFetch(trace, h) >= 0 ==>
              After(m, trace).fetched[h] == After(m, trace[..LastFetch(trace, h)]).stored
  {
    if trace != [] {
      var init := trace[..|trace| - 1];
      FetchedIsAsRead(m, init, h);
      if LastFetch(init, h) >= 0 {
        assert trace[..LastFetch(init, h)] == init[..LastFetch(init, h)];
      }
    }
  }

  /** A copy in use is the mapping that was stored when its last installer read it, or the initial one. */
  lemma {:induction false} InUseIsAsRead(m: Mapping, trace: seq<Event>, c: Copy)
    requires Legal(m, trace)
    ensures InUse(After(m, trace), c)
         == if Source(trace, c) >= 0 then After(m, trace[..Source(trace, c)]).stored else m
  {
    if trace != [] {
      var init, e := trace[..|trace| - 1], trace[|trace| - 1];
      InUseIsAsRead(m, init, c);
      if e.Install? {
        FetchedIsAsRead(m, init, e.handler);
      }
      if Source(trace, c) >= 0 {
        assert trace[..Source(trace, c)] == init[..Source(trace, c)];
      }
    }
  }

  // When the copy in use is the stored mapping.

  function LastWrite(trace: seq<Event>): (i: int)
    ensures -1 <= i < |trace|
    ensures i >= 0 ==> trace[i].Write?
    ensures forall k | i < k < |trace| :: !trace[k].Write?
  {
    if trace == [] then -1
    else if trace[|trace| - 1].Write? then |trace| - 1
    else LastWrite(trace[..|trace| - 1])
  }

  lemma {:induction false} StoredIsLastWrite(m: Mapping, trace: seq<Event>)
    ensures After(m, trace).stored == if LastWrite(trace) >= 0 then trace[LastWrite(trace)].stored else m
  {
    if trace != [] {
      StoredIsLastWrite(m, trace[..|trace| - 1]);
    }
  }

  /** No mapping is written twice, nor the initial one again. */
  predicate FreshWrites(m: Mapping, trace: seq<Event>) {
    && (forall i | 0 <= i < |trace| && trace[i].Write? :: trace[i].stored != m)
    && (forall i, j | 0 <= i < j < |trace| && trace[i].Write? && trace[j].Write? :: trace[i].stored != trace[j].stored)
  }

  /** Without anything written after the last installer's read, the stored mapping is in use. */
  lemma QuietReadIsCurrent(m: Mapping, trace: seq<Event>, c: Copy)
    requires Legal(m, trace) && forall k | Source(trace, c) < k < |trace| :: !trace[k].Write?
    ensures InUse(After(m, trace), c) == After(m, trace).stored
  {
    var s := Source(trace, c);
    InUseIsAsRead(m, trace, c);
    StoredIsLastWrite(m, trace);
    if s >= 0 {
      StoredIsLastWrite(m, trace[..s]);
      assert forall k | 0 <= k < s :: trace[..s][k] == trace[k];
    }
  }

  /** With mappings that never recur that is also the only way: a copy is current exactly when nothing
      was written after its last installer's read, or at all when nothing was installed. */
  lemma CurrentExactly(m: Mapping, trace: seq<Event>, c: Copy)
    requires Legal(m, trace) && FreshWrites(m, trace)
    ensures InUse(After(m, trace), c) == After(m, trace).stored <==>
            forall k | Source(trace, c) < k < |trace| :: !trace[k].Write?
  {
    var s := Source(trace, c);
    InUseIsAsRead(m, trace, c);
    StoredIsLastWrite(m, trace);
    if forall k | s < k < |trace| :: !trace[k].Write? {
      QuietReadIsCurrent(m, trace, c);
    } else if s >= 0 {
      StoredIsLastWrite(m, trace[..s]);
      assert forall k | 0 <= k < s :: trace[..s][k] == trace[k];
      assert LastWrite(trace[..s]) >= 0 ==> trace[..s][LastWrite(trace[..s])] == trace[LastWrite(trace[..s])];
    }
  }

  /** The mapping a copy was taken from is that of the last write before its source. */
  lemma CopyIsOfWrite(m: Mapping, trace: seq<Event>, c: Copy) returns (k: int)
    requires Legal(m, trace)
    ensures -1 <= k < |trace| && k <= Source(trace, c)
    ensures k >= 0 ==> trace[k].Write?
    ensures forall i | k < i < Source(trace, c) :: !trace[i].Write?
    ensures InUse(After(m, trace), c) == if k >= 0 then trace[k].stored else m
  {
    var s := Source(trace, c);
    InUseIsAsRead(m, trace, c);
    k := -1;
    if s >= 0 {
      StoredIsLastWrite(m, trace[..s]);
      k := LastWrite(trace[..s]);
      assert k >= 0 ==> trace[..s][k] == trace[k];
      assert forall i | k < i < s :: trace[..s][i] == trace[i];
    }
  }

  /** The server and the fleet use the same mapping exactly when nothing was written between the reads
      of their last installers. */
  lemma CopiesAgreeExactly(m: Mapping, trace: seq<Event>)
    requires Legal(m, trace) && FreshWrites(m, trace)
    ensures var a, b := Source(trace, OfServer), Source(trace, OfFleet);
            After(m, trace).inServer == After(m, trace).inFleet <==>
            forall k | 0 <= k < |trace| && (a < k < b || b < k < a) :: !trace[k].Write?
  {
    var i := CopyIsOfWrite(m, trace, OfServer);
    var j := CopyIsOfWrite(m, trace, OfFleet);
    assert InUse(After(m, trace), OfServer) == After(m, trace).inServer;
    assert InUse(After(m, trace), OfFleet) == After(m, trace).inFleet;
    SourcesApart(m, trace, i, j);
    BetweenExactly(trace, Source(trace, OfServer), Source(trace, OfFleet), i, j);
  }

  /** Two positions have one last write before them exactly when no write lies between them. */
  lemma BetweenExactly(trace: seq<Event>, a: int, b: int, i: int, j: int)
    requires -1 <= i <= a < |trace| && -1 <= j <= b < |trace|
    requires a >= 0 ==> trace[a].Fetch?
    requires b >= 0 ==> trace[b].Fetch?
    requires i >= 0 ==> trace[i].Write?
    requires j >= 0 ==> trace[j].Write?
    requires forall k | i < k < a :: !trace[k].Write?
    requires forall k | j < k < b :: !trace[k].Write?
    ensures i == j <==> forall k | 0 <= k < |trace| && (a < k < b || b < k < a) :: !trace[k].Write?
  {
  }

  lemma SourcesApart(m: Mapping, trace: seq<Event>, i: int, j: int)
    requires FreshWrites(m, trace) && -1 <= i < |trace| && -1 <= j < |trace|
    requires (i >= 0 ==> trace[i].Write?) && (j >= 0 ==> trace[j].Write?)
    ensures (if i >= 0 then trace[i].stored else m) == (if j >= 0 then trace[j].stored else m) <==> i == j
  {
  }

  // Overlapping updates.

  lemma RunExtends(m: Mapping, trace: seq<Event>, e: Event)
    requires Legal(m, trace) && Enabled(After(m, trace), e)
    ensures Legal(m, trace + [e]) && After(m, trace + [e]) == Step(After(m, trace), e)
  {
    assert (trace + [e])[..|trace|] == trace;
  }

  lemma BothFetched(m: Mapping, a: Mapping, b: Mapping)
    ensures var trace := [Write(a), Fetch(0), Write(b), Fetch(1)];
            Legal(m, trace) && After(m, trace) == World(b, map[0 := a, 1 := b], m, m)
  {
    RunExtends(m, [], Write(a));
    assert [] + [Write(a)] == [Write(a)];
    RunExtends(m, [Write(a)], Fetch(0));
    assert [Write(a)] + [Fetch(0)] == [Write(a), Fetch(0)];
    RunExtends(m, [Write(a), Fetch(0)], Write(b));
    assert [Write(a), Fetch(0)] + [Write(b)] == [Write(a), Fetch(0), Write(b)];
    RunExtends(m, [Write(a), Fetch(0), Write(b)], Fetch(1));
    assert [Write(a), Fetch(0), Write(b)] + [Fetch(1)] == [Write(a), Fetch(0), Write(b), Fetch(1)];
  }

  /** Two overlapping updates can leave the older mapping in use although both completed. */
  lemma OverlapInstallsStale(m: Mapping, a: Mapping, b: Mapping, c: Copy)
    ensures var trace := [Write(a), Fetch(0), Write(b), Fetch(1)] + [Install(1, c)] + [Install(0, c)];
            Legal(m, trace) && After(m, trace).stored == b && InUse(After(m, trace), c) == a
  {
    var fetched := [Write(a), Fetch(0), Write(b), Fetch(1)];
    BothFetched(m, a, b);
    RunExtends(m, fetched, Install(1, c));
    RunExtends(m, fetched + [Install(1, c)], Install(0, c));
  }

  /** They can also leave the server and the fleet with different mappings. */
  lemma OverlapSplitsCopies(m: Mapping, a: Mapping, b: Mapping)
    ensures var trace := [Write(a), Fetch(0), Write(b), Fetch(1)] + [Install(0, OfServer)] + [Install(1, OfServer)]
                         + [Install(1, OfFleet)] + [Install(0, OfFleet)];
            Legal(m, trace) && After(m, trace).inServer == b && After(m, trace).inFleet == a
  {
    var fetched := [Write(a), Fetch(0), Write(b), Fetch(1)];
    BothFetched(m, a, b);
    RunExtends(m, fetched, Install(0, OfServer));
    RunExtends(m, fetched + [Install(0, OfServer)], Install(1, OfServer));
    RunExtends(m, fetched + [Install(0, OfServer)] + [Install(1, OfServer)], Install(1, OfFleet));
    RunExtends(m, fetched + [Install(0, OfServer)] + [Install(1, OfServer)] + [Install(1, OfFleet)], Install(0, OfFleet));
  }
}
