/** Building a snapshot from manifests: however `List` documents nest, only the order of their leaves matters. */
module Manifest {
  import opened Ordering
  import opened Reports

  /** The kinds the loader knows; it skips every other. */
  datatype Kind =
    | Namespace | Pod | Deployment | StatefulSet | DaemonSet | Job | CronJob | HorizontalPodAutoscaler
    | PodDisruptionBudget | Service | Ingress | NetworkPolicy | ConfigMap | Secret | PersistentVolumeClaim
    | ServiceAccount | ClusterRole | ClusterRoleBinding | Gateway | HTTPRoute | Other(name: string)

  /** How the loader's switch treats a kind. */
  datatype Treatment = AsNamespace | Typed | AsRole | AsGatewayApi | Skipped

  function TreatmentOf(kind: Kind): Treatment {
    match kind
    case Namespace => AsNamespace
    case ClusterRole => AsRole
    case ClusterRoleBinding => AsRole
    case Gateway => AsGatewayApi
    case HTTPRoute => AsGatewayApi
    case Other(_) => Skipped
    case _ => Typed
  }

  /** A parsed object; `decodes` says whether it fits its kind's type. */
  datatype Object = Object(kind: Kind, ns: string, name: string, apiVersion: string, decodes: bool, template: string)

  /** One JSON document; `Blank` has no kind, `Malformed` is no JSON object, and `Fault` stands where
      reading fails instead of yielding a document. */
  datatype Doc = Malformed | Blank | Leaf(obj: Object) | List(items: seq<Doc>) | Fault(error: Error)

  datatype Error = NotAnObject | Undecodable(kind: Kind, name: string) | Unreadable | Undecoded

  /** A file or standard input: its documents, and whether decoding breaks off after them. */
  datatype Source = Unopened | Text(docs: seq<Doc>, breaks: bool)

  /** What a directory walk meets: something it cannot enter, or a file. */
  datatype Entry = Blocked | File(name: string, source: Source)

  /** A command-line path; `Gone` cannot be examined. */
  datatype Path = Gone | Single(source: Source) | Folder(entries: seq<Entry>)

  const GATEWAY_GROUP: string := "gateway.networking.k8s.io/"

  predicate IsGatewayApi(o: Object) {
    TreatmentOf(o.kind) == AsGatewayApi && GATEWAY_GROUP <= o.apiVersion
  }

  /** Stored under a namespace, its own or the default one. */
  predicate Namespaced(o: Object) {
    TreatmentOf(o.kind) == Typed || IsGatewayApi(o)
  }

  function PlacedIn(o: Object): string {
    if o.ns == "" then "default" else o.ns
  }

  predicate Kept(o: Object) {
    Namespaced(o) || TreatmentOf(o.kind) in {AsRole, AsNamespace}
  }

  function StoredForm(o: Object): Object {
    if Namespaced(o) then o.(ns := PlacedIn(o)) else o
  }

  /** The namespace an object makes known. */
  function NamespaceOf(o: Object): Option<string> {
    if TreatmentOf(o.kind) == AsNamespace then Some(o.name)
    else if Namespaced(o) then Some(PlacedIn(o))
    else None
  }

  predicate Fails(o: Object) {
    !o.decodes && TreatmentOf(o.kind) in {Typed, AsRole, AsNamespace}
  }

  /** The documents below any nesting of lists, in order; a malformed one counts as a leaf. */
  function Leaves(doc: Doc): seq<Doc>
    decreases doc
  {
    match doc
    case List(items) => LeavesOf(items)
    case _ => [doc]
  }

  function LeavesOf(docs: seq<Doc>): seq<Doc>
    decreases docs
  {
    if docs == [] then [] else LeavesOf(docs[..|docs| - 1]) + Leaves(docs[|docs| - 1])
  }

  function ErrorOf(leaf: Doc): Option<Error> {
    match leaf
    case Malformed => Some(NotAnObject)
    case Leaf(o) => if Fails(o) then Some(Undecodable(o.kind, o.name)) else None
    case Fault(e) => Some(e)
    case _ => None
  }

  /** The first error among leaves taken in order. */
  function FirstError(leaves: seq<Doc>): Option<Error> {
    if leaves == [] then None
    else
      var before := FirstError(leaves[..|leaves| - 1]);
      if before.Some? then before else ErrorOf(leaves[|leaves| - 1])
  }

  function KeptBy(leaf: Doc): seq<Object> {
    if leaf.Leaf? && Kept(leaf.obj) then [StoredForm(leaf.obj)] else []
  }

  /** The objects kept from the leaves, in order. */
  function KeptFrom(leaves: seq<Doc>): seq<Object> {
    if leaves == [] then [] else KeptFrom(leaves[..|leaves| - 1]) + KeptBy(leaves[|leaves| - 1])
  }

  function NamespacesBy(leaf: Doc): set<string> {
    if leaf.Leaf? && NamespaceOf(leaf.obj).Some? then {NamespaceOf(leaf.obj).value} else {}
  }

  function NamespacesFrom(leaves: seq<Doc>): set<string> {
    if leaves == [] then {} else NamespacesFrom(leaves[..|leaves| - 1]) + NamespacesBy(leaves[|leaves| - 1])
  }

  /** One of the snapshot's lists: the stored objects of a kind. */
  function OfKind(objs: seq<Object>, kind: Kind): seq<Object> {
    if objs == [] then []
    else
      var rest, o := OfKind(objs[..|objs| - 1], kind), objs[|objs| - 1];
      if o.kind == kind then rest + [o] else rest
  }

  lemma LastOfConcat(a: seq<Doc>, b: seq<Doc>)
    requires b != []
    ensures (a + b)[..|a + b| - 1] == a + b[..|b| - 1] && (a + b)[|a + b| - 1] == b[|b| - 1]
  {
  }

  lemma {:induction false} ErrorConcat(a: seq<Doc>, b: seq<Doc>)
    ensures FirstError(a + b) == if FirstError(a).Some? then FirstError(a) else FirstError(b)
    ensures NamespacesFrom(a + b) == NamespacesFrom(a) + NamespacesFrom(b)
  {
    if b == [] {
      assert a + b == a;
    } else {
      ErrorConcat(a, b[..|b| - 1]);
      LastOfConcat(a, b);
    }
  }

  lemma {:induction false} KeptConcat(a: seq<Doc>, b: seq<Doc>)
    ensures KeptFrom(a + b) == KeptFrom(a) + KeptFrom(b)
  {
    if b == [] {
      assert a + b == a;
    } else {
      KeptConcat(a, b[..|b| - 1]);
      LastOfConcat(a, b);
      Regroup(KeptFrom(a), KeptFrom(b[..|b| - 1]), KeptBy(b[|b| - 1]));
    }
  }

  /** The loader's state after loading `leaves` without error. */
  ghost predicate Gained(stored0: seq<Object>, namespaces0: set<string>, stored: seq<Object>, namespaces: set<string>,
                         leaves: seq<Doc>)
  {
    stored == stored0 + KeptFrom(leaves) && namespaces == namespaces0 + NamespacesFrom(leaves)
  }

  lemma GainedMore(s0: seq<Object>, n0: set<string>, s1: seq<Object>, n1: set<string>, s2: seq<Object>, n2: set<string>,
                   past: seq<Doc>, next: seq<Doc>)
    requires Gained(s0, n0, s1, n1, past) && Gained(s1, n1, s2, n2, next)
    ensures Gained(s0, n0, s2, n2, past + next)
  {
    ErrorConcat(past, next);
    KeptConcat(past, next);
    Regroup(s0, KeptFrom(past), KeptFrom(next));
  }

  class Loader {
    /** The snapshot's lists, one per kind; a kind without objects has no entry. */
    var lists: map<Kind, seq<Object>>
    var namespaces: set<string>
    var hasGatewayApi: bool
    /** Everything stored so far, in order of storing. */
    ghost var stored: seq<Object>

    ghost predicate Valid()
      reads this
    {
      && ListsOf(lists, stored)
      && (hasGatewayApi <==> exists o :: o in stored && (o.kind == Gateway || o.kind == HTTPRoute))
    }

    constructor ()
      ensures Valid() && stored == [] && namespaces == {}
    {
      lists, namespaces, hasGatewayApi, stored := map[], {}, false, [];
    }

    method Store(o: Object)
      requires Valid()
      modifies this
      ensures Valid() && stored == old(stored) + [o] && namespaces == old(namespaces)
    {
      ListsGrow(lists, stored, o);
      lists := lists[o.kind := ListIn(lists, o.kind) + [o]];
      hasGatewayApi := hasGatewayApi || o.kind == Gateway || o.kind == HTTPRoute;
      stored := stored + [o];
      assert stored[|stored| - 1] == o;
    }

    /** `add`: in any nesting of lists the same as adding the leaves one after the other. */
    method Add(doc: Doc) returns (err: Option<Error>)
      requires Valid()
      modifies this
      ensures Valid() && err == FirstError(Leaves(doc))
      ensures err.None? ==> Gained(old(stored), old(namespaces), stored, namespaces, Leaves(doc))
      decreases doc
    {
      match doc
      case Malformed =>
        err := Some(NotAnObject);
      case Blank =>
        err := None;
      case Fault(e) =>
        err := Some(e);
      case List(items) =>
        err := AddItems(items);
      case Leaf(o) =>
        err := AddObject(o);
    }

    method AddItems(items: seq<Doc>) returns (err: Option<Error>)
      requires Valid()
      modifies this
      ensures Valid() && err == FirstError(LeavesOf(items))
      ensures err.None? ==> Gained(old(stored), old(namespaces), stored, namespaces, LeavesOf(items))
      decreases items
    {
      for i := 0 to |items|
        invariant Valid() && FirstError(LeavesOf(items[..i])) == None
        invariant Gained(old(stored), old(namespaces), stored, namespaces, LeavesOf(items[..i]))
      {
        ItemsOneMore(items, i);
        ghost var s, n := stored, namespaces;
        err := Add(items[i]);
        if err.Some? {
          FirstErrorStays(items, i + 1);
          return;
        }
        GainedMore(old(stored), old(namespaces), s, n, stored, namespaces, LeavesOf(items[..i]), Leaves(items[i]));
      }
      assert items[..|items|] == items;
      err := None;
    }

    /** The switch over kinds. */
    method AddObject(o: Object) returns (err: Option<Error>)
      requires Valid()
      modifies this
      ensures Valid() && err == ErrorOf(Leaf(o))
      ensures err.None? ==> stored == old(stored) + KeptBy(Leaf(o))
      ensures err.None? ==> namespaces == old(namespaces) + NamespacesBy(Leaf(o))
    {
      var ns := PlacedIn(o);
      err := None;
      match TreatmentOf(o.kind)
      case AsNamespace =>
        Store(o);
        namespaces := namespaces + {o.name};
        err := if o.decodes then None else Some(Undecodable(o.kind, o.name));
      case Typed =>
        if !o.decodes {
          return Some(Undecodable(o.kind, o.name));
        }
        namespaces := namespaces + {ns};
        Store(o.(ns := ns));
      case AsRole =>
        Store(o);
        err := if o.decodes then None else Some(Undecodable(o.kind, o.name));
      case AsGatewayApi =>
        if GATEWAY_GROUP <= o.apiVersion {
          namespaces := namespaces + {ns};
          Store(o.(ns := ns));
        }
      case Skipped =>
    }

    /** `synthesizePods` */
    method SynthesizePods()
      requires Valid()
      modifies this
      ensures Valid() && namespaces == old(namespaces)
      ensures stored == WithPods(old(stored))
    {
      ghost var before := stored;
      for i := 0 to |WORKLOADS|
        invariant Valid() && namespaces == old(namespaces)
        invariant stored == before + Synthesized(before, WORKLOADS[..i])
      {
        OnlyPods(before, WORKLOADS[..i]);
        OfKindWithPods(before, Synthesized(before, WORKLOADS[..i]), WORKLOADS[i]);
        SynthesizedOneMore(before, i);
        Regroup(before, Synthesized(before, WORKLOADS[..i]), PodsFor(OfKind(before, WORKLOADS[i])));
        AddTemplates(WORKLOADS[i]);
      }
      assert WORKLOADS[..|WORKLOADS|] == WORKLOADS;
    }

    method AddTemplates(kind: Kind)
      requires Valid() && kind != Pod
      modifies this
      ensures Valid() && namespaces == old(namespaces)
      ensures stored == old(stored) + PodsFor(OfKind(old(stored), kind))
    {
      var workloads := ListIn(lists, kind);
      for k := 0 to |workloads|
        invariant Valid() && namespaces == old(namespaces)
        invariant stored == old(stored) + PodsFor(workloads)[..k]
      {
        Store(PodFor(workloads[k]));
      }
      assert PodsFor(workloads)[..|workloads|] == PodsFor(workloads);
    }
  }

  /** The workload kinds, in the order their templates become pods. */
  const WORKLOADS: seq<Kind> := [Deployment, StatefulSet, DaemonSet, Job, CronJob]

  function PodFor(o: Object): Object {
    Object(Pod, o.ns, o.name + "-template", "", true, o.template)
  }

  function PodsFor(workloads: seq<Object>): seq<Object> {
    seq(|workloads|, i requires 0 <= i < |workloads| => PodFor(workloads[i]))
  }

  /** The pods standing in for the stored workloads of the given kinds. */
  function Synthesized(stored: seq<Object>, kinds: seq<Kind>): seq<Object> {
    if kinds == [] then []
    else Synthesized(stored, kinds[..|kinds| - 1]) + PodsFor(OfKind(stored, kinds[|kinds| - 1]))
  }

  function WithPods(stored: seq<Object>): seq<Object> {
    stored + Synthesized(stored, WORKLOADS)
  }

  lemma SynthesizedOneMore(stored: seq<Object>, i: nat)
    requires i < |WORKLOADS|
    ensures Synthesized(stored, WORKLOADS[..i + 1])
         == Synthesized(stored, WORKLOADS[..i]) + PodsFor(OfKind(stored, WORKLOADS[i]))
  {
    assert WORKLOADS[..i + 1][..i] == WORKLOADS[..i];
  }

  lemma {:induction false} OnlyPods(stored: seq<Object>, kinds: seq<Kind>)
    ensures forall p | p in Synthesized(stored, kinds) :: p.kind == Pod
  {
    if kinds != [] {
      OnlyPods(stored, kinds[..|kinds| - 1]);
    }
  }

  lemma {:induction false} OfKindWithPods(stored: seq<Object>, pods: seq<Object>, kind: Kind)
    requires kind != Pod && forall p | p in pods :: p.kind == Pod
    ensures OfKind(stored + pods, kind) == OfKind(stored, kind)
  {
    if pods == [] {
      assert stored + pods == stored;
    } else {
      var init := pods[..|pods| - 1];
      OfKindWithPods(stored, init, kind);
      assert stored + pods == stored + init + [pods[|pods| - 1]];
    }
  }

  function ListIn(lists: map<Kind, seq<Object>>, kind: Kind): seq<Object> {
    if kind in lists then lists[kind] else []
  }

  /** Each list holds the stored objects of its kind, in order. */
  ghost predicate ListsOf(lists: map<Kind, seq<Object>>, stored: seq<Object>) {
    forall kind :: ListIn(lists, kind) == OfKind(stored, kind)
  }

  lemma ListsGrow(lists: map<Kind, seq<Object>>, stored: seq<Object>, o: Object)
    requires ListsOf(lists, stored)
    ensures ListsOf(lists[o.kind := ListIn(lists, o.kind) + [o]], stored + [o])
  {
    forall kind
      ensures ListIn(lists[o.kind := ListIn(lists, o.kind) + [o]], kind) == OfKind(stored + [o], kind)
    {
    }
  }

  lemma ItemsOneMore(items: seq<Doc>, i: nat)
    requires i < |items|
    ensures var past, next, now := LeavesOf(items[..i]), Leaves(items[i]), LeavesOf(items[..i + 1]);
            && now == past + next
            && FirstError(now) == (if FirstError(past).Some? then FirstError(past) else FirstError(next))
  {
    assert items[..i + 1][..i] == items[..i];
    ErrorConcat(LeavesOf(items[..i]), Leaves(items[i]));
  }

  lemma {:induction false} FirstErrorStays(items: seq<Doc>, n: nat)
    requires n <= |items| && FirstError(LeavesOf(items[..n])).Some?
    ensures FirstError(LeavesOf(items)) == FirstError(LeavesOf(items[..n]))
    decreases |items| - n
  {
    if n == |items| {
      assert items[..n] == items;
    } else {
      ItemsOneMore(items, n);
      FirstErrorStays(items, n + 1);
    }
  }

  // What loading guarantees.

  lemma {:induction false} LeavesOfConcat(a: seq<Doc>, b: seq<Doc>)
    ensures LeavesOf(a + b) == LeavesOf(a) + LeavesOf(b)
  {
    if b == [] {
      assert a + b == a;
    } else {
      LeavesOfConcat(a, b[..|b| - 1]);
      LastOfConcat(a, b);
      Regroup(LeavesOf(a), LeavesOf(b[..|b| - 1]), Leaves(b[|b| - 1]));
    }
  }

  /** A list anywhere among documents can be replaced by its items. */
  lemma ListsFlatten(before: seq<Doc>, items: seq<Doc>, after: seq<Doc>)
    ensures LeavesOf(before + [List(items)] + after) == LeavesOf(before + items + after)
  {
    LeavesOfConcat(before + [List(items)], after);
    LeavesOfConcat(before, [List(items)]);
    LeavesOfConcat(before + items, after);
    LeavesOfConcat(before, items);
    assert [List(items)][..0] == [];
    assert LeavesOf([List(items)]) == LeavesOf([List(items)][..0]) + Leaves(List(items));
  }

  /** Nothing is analyzed outside the returned namespaces, and each of them is used or declared. */
  lemma {:induction false} NamespacesCovered(leaves: seq<Doc>)
    ensures forall o | o in KeptFrom(leaves) && Namespaced(o) :: o.ns != "" && o.ns in NamespacesFrom(leaves)
    ensures forall ns :: ns in NamespacesFrom(leaves) <==>
                         exists o :: o in KeptFrom(leaves) && NamespaceOf(o) == Some(ns)
  {
    if leaves != [] {
      var init, leaf := leaves[..|leaves| - 1], leaves[|leaves| - 1];
      NamespacesCovered(init);
      assert forall o :: o in KeptFrom(leaves) <==> o in KeptFrom(init) || o in KeptBy(leaf);
    }
  }

  function Workloads(objs: seq<Object>): nat {
    if objs == [] then 0
    else Workloads(objs[..|objs| - 1]) + if objs[|objs| - 1].kind in WORKLOADS then 1 else 0
  }

  lemma {:induction false} WorkloadsByKind(objs: seq<Object>)
    ensures Workloads(objs) == |OfKind(objs, Deployment)| + |OfKind(objs, StatefulSet)| + |OfKind(objs, DaemonSet)|
                               + |OfKind(objs, Job)| + |OfKind(objs, CronJob)|
  {
    if objs != [] {
      WorkloadsByKind(objs[..|objs| - 1]);
    }
  }

  lemma SynthesizedSize(stored: seq<Object>)
    ensures |Synthesized(stored, WORKLOADS)|
         == |OfKind(stored, Deployment)| + |OfKind(stored, StatefulSet)| + |OfKind(stored, DaemonSet)|
            + |OfKind(stored, Job)| + |OfKind(stored, CronJob)|
  {
    SynthesizedOneMore(stored, 0);
    SynthesizedOneMore(stored, 1);
    SynthesizedOneMore(stored, 2);
    SynthesizedOneMore(stored, 3);
    SynthesizedOneMore(stored, 4);
    assert WORKLOADS[..5] == WORKLOADS && WORKLOADS[..0] == [];
  }

  lemma {:induction false} OfKindMembers(objs: seq<Object>, kind: Kind)
    ensures forall o | o in OfKind(objs, kind) :: o in objs && o.kind == kind
  {
    if objs != [] {
      OfKindMembers(objs[..|objs| - 1], kind);
    }
  }

  lemma {:induction false} PodsHaveWorkloads(stored: seq<Object>, kinds: seq<Kind>)
    ensures forall p | p in Synthesized(stored, kinds) :: exists o :: o in stored && o.kind in kinds && p == PodFor(o)
  {
    if kinds != [] {
      var init, kind := kinds[..|kinds| - 1], kinds[|kinds| - 1];
      PodsHaveWorkloads(stored, init);
      OfKindMembers(stored, kind);
    }
  }

  /** Loading adds exactly one pod per workload, in a namespace that is analyzed. */
  lemma OnePodPerWorkload(leaves: seq<Doc>)
    ensures var pods := Synthesized(KeptFrom(leaves), WORKLOADS);
            && |pods| == Workloads(KeptFrom(leaves))
            && forall p | p in pods :: p.kind == Pod && p.ns in NamespacesFrom(leaves)
  {
    var stored := KeptFrom(leaves);
    SynthesizedSize(stored);
    WorkloadsByKind(stored);
    OnlyPods(stored, WORKLOADS);
    PodsAreAnalyzed(leaves);
  }

  lemma PodsAreAnalyzed(leaves: seq<Doc>)
    ensures forall p | p in Synthesized(KeptFrom(leaves), WORKLOADS) :: p.ns in NamespacesFrom(leaves)
  {
    var stored := KeptFrom(leaves);
    PodsHaveWorkloads(stored, WORKLOADS);
    NamespacesCovered(leaves);
    forall p | p in Synthesized(stored, WORKLOADS)
      ensures p.ns in NamespacesFrom(leaves)
    {
      var o :| o in stored && o.kind in WORKLOADS && p == PodFor(o);
    }
  }

  lemma GainedFromNothing(stored: seq<Object>, namespaces: set<string>, leaves: seq<Doc>)
    requires Gained([], {}, stored, namespaces, leaves)
    ensures stored == KeptFrom(leaves) && namespaces == NamespacesFrom(leaves)
  {
  }

  // Paths.

  /** The extension of a file name: from its last dot on. */
  function Extension(name: string): string {
    if name == [] then []
    else
      var rest := Extension(name[1..]);
      if rest == [] && name[0] == '.' && '/' !in name then name else rest
  }

  function LowerAscii(s: string): string {
    seq(|s|, i requires 0 <= i < |s| => if 'A' <= s[i] <= 'Z' then s[i] - 'A' + 'a' else s[i])
  }

  predicate IsManifest(name: string) {
    LowerAscii(Extension(name)) in {".yaml", ".yml", ".json"}
  }

  /** The sources read for a path, in order. */
  function SourcesOf(path: Path): seq<Source> {
    match path
    case Gone => [Unopened]
    case Single(source) => [source]
    case Folder(entries) => SourcesIn(entries)
  }

  function SourcesIn(entries: seq<Entry>): seq<Source> {
    if entries == [] then []
    else
      var e := entries[|entries| - 1];
      SourcesIn(entries[..|entries| - 1])
      + if e.Blocked? then [Unopened] else if IsManifest(e.name) then [e.source] else []
  }

  /** All leaves of a source, and where reading it fails. */
  function LeavesFrom(source: Source): seq<Doc> {
    match source
    case Unopened => [Fault(Unreadable)]
    case Text(docs, breaks) => LeavesOf(docs) + if breaks then [Fault(Undecoded)] else []
  }

  function LeavesFromAll(sources: seq<Source>): seq<Doc> {
    if sources == [] then [] else LeavesFromAll(sources[..|sources| - 1]) + LeavesFrom(sources[|sources| - 1])
  }

  function AllSources(paths: seq<Path>): seq<Source> {
    if paths == [] then [] else AllSources(paths[..|paths| - 1]) + SourcesOf(paths[|paths| - 1])
  }

  lemma SourcesOneMore(sources: seq<Source>, i: nat)
    requires i < |sources|
    ensures var past, next, now := LeavesFromAll(sources[..i]), LeavesFrom(sources[i]), LeavesFromAll(sources[..i + 1]);
            && now == past + next
            && FirstError(now) == (if FirstError(past).Some? then FirstError(past) else FirstError(next))
  {
    assert sources[..i + 1][..i] == sources[..i];
    ErrorConcat(LeavesFromAll(sources[..i]), LeavesFrom(sources[i]));
  }

  lemma {:induction false} SourceErrorStays(sources: seq<Source>, n: nat)
    requires n <= |sources| && FirstError(LeavesFromAll(sources[..n])).Some?
    ensures FirstError(LeavesFromAll(sources)) == FirstError(LeavesFromAll(sources[..n]))
    decreases |sources| - n
  {
    if n == |sources| {
      assert sources[..n] == sources;
    } else {
      SourcesOneMore(sources, n);
      SourceErrorStays(sources, n + 1);
    }
  }

  /** `read`: every document of a source, then the decoding error, if there is one. */
  method Read(loader: Loader, source: Source) returns (err: Option<Error>)
    requires loader.Valid()
    modifies loader
    ensures loader.Valid() && err == FirstError(LeavesFrom(source))
    ensures err.None? ==>
              Gained(old(loader.stored), old(loader.namespaces), loader.stored, loader.namespaces, LeavesFrom(source))
  {
    match source
    case Unopened =>
      err := Some(Unreadable);
    case Text(docs, breaks) =>
      err := loader.AddItems(docs);
      ErrorConcat(LeavesOf(docs), [Fault(Undecoded)]);
      assert LeavesOf(docs) + [] == LeavesOf(docs);
      if err.None? && breaks {
        err := Some(Undecoded);
      }
  }

  method ReadAll(loader: Loader, sources: seq<Source>) returns (err: Option<Error>)
    requires loader.Valid()
    modifies loader
    ensures loader.Valid() && err == FirstError(LeavesFromAll(sources))
    ensures err.None? ==>
              Gained(old(loader.stored), old(loader.namespaces), loader.stored, loader.namespaces, LeavesFromAll(sources))
  {
    for i := 0 to |sources|
      invariant loader.Valid() && FirstError(LeavesFromAll(sources[..i])) == None
      invariant Gained(old(loader.stored), old(loader.namespaces), loader.stored, loader.namespaces,
                       LeavesFromAll(sources[..i]))
    {
      SourcesOneMore(sources, i);
      ghost var s, n := loader.stored, loader.namespaces;
      err := Read(loader, sources[i]);
      if err.Some? {
        SourceErrorStays(sources, i + 1);
        return;
      }
      GainedMore(old(loader.stored), old(loader.namespaces), s, n, loader.stored, loader.namespaces,
                 LeavesFromAll(sources[..i]), LeavesFrom(sources[i]));
    }
    assert sources[..|sources|] == sources;
    err := None;
  }

  /** `Load`: the snapshot and the sorted namespaces of all leaves in order, or the first error among them. */
  method Load(paths: seq<Path>) returns (loader: Loader, namespaces: seq<string>, err: Option<Error>)
    ensures fresh(loader) && loader.Valid() && err == FirstError(LeavesFromAll(AllSources(paths)))
    ensures err.None? ==> namespaces == Listing(NamespacesFrom(LeavesFromAll(AllSources(paths))))
    ensures err.None? ==> loader.stored == WithPods(KeptFrom(LeavesFromAll(AllSources(paths))))
    ensures forall kind :: ListIn(loader.lists, kind) == OfKind(loader.stored, kind)
    ensures loader.hasGatewayApi <==> exists o :: o in loader.stored && (o.kind == Gateway || o.kind == HTTPRoute)
  {
    loader := new Loader();
    namespaces := [];
    var sources := [];
    for i := 0 to |paths|
      invariant sources == AllSources(paths[..i]) && loader.Valid()
      invariant loader.stored == [] && loader.namespaces == {}
    {
      assert paths[..i + 1][..i] == paths[..i];
      sources := sources + SourcesOf(paths[i]);
    }
    assert paths[..|paths|] == paths;
    err := ReadAll(loader, sources);
    if err.None? {
      GainedFromNothing(loader.stored, loader.namespaces, LeavesFromAll(sources));
      loader.SynthesizePods();
      namespaces := SortedNames(loader.namespaces);
    }
  }
}
