/** What is taken from manifests: kind by kind, leaf by leaf, and file by file. */
module ManifestContents {
  import opened Picking
  import opened Reports
  import opened Manifest

  // One object.

  function OrDefault(ns: string): string {
    if ns == "" then "default" else ns
  }

  /** The namespaced kinds with a type of their own. */
  predicate Everyday(kind: Kind) {
    || kind == Pod || kind == Deployment || kind == StatefulSet || kind == DaemonSet || kind == Job || kind == CronJob
    || kind == HorizontalPodAutoscaler || kind == PodDisruptionBudget || kind == Service || kind == Kind.Ingress
    || kind == NetworkPolicy || kind == ConfigMap || kind == Kind.Secret || kind == PersistentVolumeClaim
    || kind == ServiceAccount
  }

  /** What the leaf of an object stores, which namespace it makes known and when it fails. */
  predicate Takes(o: Object, stored: seq<Object>, namespaces: set<string>, err: Option<Error>) {
    KeptBy(Leaf(o)) == stored && NamespacesBy(Leaf(o)) == namespaces && ErrorOf(Leaf(o)) == err
  }

  /** An object of such a kind lands in its namespace or in "default". */
  lemma EverydayExactly(o: Object)
    requires Everyday(o.kind)
    ensures Takes(o, [o.(ns := OrDefault(o.ns))], {OrDefault(o.ns)},
                  if o.decodes then None else Some(Undecodable(o.kind, o.name)))
  {
    assert TreatmentOf(o.kind) == Typed;
  }

  /** Gateway API objects of the standard group need not decode, and others are passed over. */
  lemma GatewayExactly(o: Object)
    requires o.kind == Kind.Gateway || o.kind == HTTPRoute
    ensures if "gateway.networking.k8s.io/" <= o.apiVersion
            then Takes(o, [o.(ns := OrDefault(o.ns))], {OrDefault(o.ns)}, None)
            else Takes(o, [], {}, None)
  {
    assert TreatmentOf(o.kind) == AsGatewayApi;
  }

  /** Roles and namespaces are stored as they are; the latter make themselves known. Other kinds are skipped. */
  lemma ClusterWideExactly(o: Object)
    ensures var failure := if o.decodes then None else Some(Undecodable(o.kind, o.name));
            && (o.kind == ClusterRole || o.kind == ClusterRoleBinding ==> Takes(o, [o], {}, failure))
            && (o.kind == Kind.Namespace ==> Takes(o, [o], {o.name}, failure))
            && (o.kind.Other? ==> Takes(o, [], {}, None))
  {
  }

  /** The other documents store nothing; one that is no object and a failure to read are errors. */
  lemma NothingTaken(doc: Doc)
    ensures !doc.Leaf? ==> KeptBy(doc) == [] && NamespacesBy(doc) == {}
    ensures ErrorOf(Malformed) == Some(NotAnObject) && ErrorOf(Blank) == None
    ensures doc.Fault? ==> ErrorOf(doc) == Some(doc.error)
  {
  }

  // All leaves.

  predicate Stores(leaf: Doc) { KeptBy(leaf) != [] }

  function Stored(leaf: Doc): Object {
    if KeptBy(leaf) == [] then Object(Pod, "", "", "", false, "") else KeptBy(leaf)[0]
  }

  /** What is stored comes from the leaves in order. */
  lemma {:induction false} KeptInOrder(leaves: seq<Doc>)
    ensures PicksAs(leaves, Stores, Stored, KeptFrom(leaves))
  {
    if leaves == [] {
      PicksNothing(Stores, Stored);
    } else {
      var init, leaf := leaves[..|leaves| - 1], leaves[|leaves| - 1];
      assert leaves == init + [leaf];
      KeptInOrder(init);
      PicksGrow(init, Stores, Stored, KeptFrom(init), leaf);
      assert KeptFrom(init) + [] == KeptFrom(init);
      assert KeptBy(leaf) == [] || KeptBy(leaf) == [Stored(leaf)];
    }
  }

  /** The error of a load is that of the first leaf with one. */
  lemma {:induction false} FirstErrorExactly(leaves: seq<Doc>)
    ensures (forall i | 0 <= i < |leaves| :: ErrorOf(leaves[i]) == None) ==> FirstError(leaves) == None
    ensures forall i | 0 <= i < |leaves| && ErrorOf(leaves[i]).Some? && (forall j | 0 <= j < i :: ErrorOf(leaves[j]) == None) ::
              FirstError(leaves) == ErrorOf(leaves[i])
  {
    if leaves != [] {
      var init, leaf := leaves[..|leaves| - 1], leaves[|leaves| - 1];
      FirstErrorExactly(init);
      assert forall i | 0 <= i < |init| :: init[i] == leaves[i];
    }
  }

  /** Each of the snapshot's lists has the stored objects of its kind, in order. */
  function KindIs(kind: Kind): Object -> bool {
    (o: Object) => o.kind == kind
  }

  lemma {:induction false} OfKindInOrder(objs: seq<Object>, kind: Kind)
    ensures Picks(objs, KindIs(kind), OfKind(objs, kind))
  {
    if objs == [] {
      PicksNothing(KindIs(kind), Same<Object>);
    } else {
      var init, o := objs[..|objs| - 1], objs[|objs| - 1];
      assert objs == init + [o];
      OfKindInOrder(init, kind);
      PicksGrow(init, KindIs(kind), Same, OfKind(init, kind), o);
    }
  }

  // Pods of workload templates.

  /** One pod for each workload, in the same place, called after it and made from its template. */
  ghost predicate PodsOf(workloads: seq<Object>, pods: seq<Object>) {
    && |pods| == |workloads|
    && forall i | 0 <= i < |pods| ::
         && pods[i].kind == Pod && pods[i].ns == workloads[i].ns && pods[i].name == workloads[i].name + "-template"
         && pods[i].template == workloads[i].template && pods[i].apiVersion == "" && pods[i].decodes
  }

  lemma PodsForAll(workloads: seq<Object>)
    ensures PodsOf(workloads, PodsFor(workloads))
  {
  }

  function KindNumber(i: nat): Kind
    requires i < 5
  {
    if i == 0 then Deployment else if i == 1 then StatefulSet else if i == 2 then DaemonSet else if i == 3 then Job else CronJob
  }

  lemma SynthesizedUpTo(stored: seq<Object>, i: nat, pods: seq<Object>)
    requires i < 5 && |WORKLOADS| == 5 && Synthesized(stored, WORKLOADS[..i]) == pods
    ensures Synthesized(stored, WORKLOADS[..i + 1]) == pods + PodsFor(OfKind(stored, KindNumber(i)))
  {
    assert WORKLOADS[i] == KindNumber(i);
    SynthesizedOneMore(stored, i);
  }

  /** The pods added at the end are those of the deployments, then of the stateful sets, daemon sets, jobs
      and cron jobs, each in the order of its list. */
  lemma PodsInOrder(stored: seq<Object>)
    returns (deployments: seq<Object>, statefulSets: seq<Object>, daemonSets: seq<Object>, jobs: seq<Object>,
             cronJobs: seq<Object>)
    ensures WithPods(stored) == stored + (deployments + statefulSets + daemonSets + jobs + cronJobs)
    ensures PodsOf(OfKind(stored, Deployment), deployments) && PodsOf(OfKind(stored, StatefulSet), statefulSets)
    ensures PodsOf(OfKind(stored, DaemonSet), daemonSets) && PodsOf(OfKind(stored, Job), jobs)
    ensures PodsOf(OfKind(stored, CronJob), cronJobs)
  {
    deployments := PodsOfNumber(stored, 0);
    statefulSets := PodsOfNumber(stored, 1);
    daemonSets := PodsOfNumber(stored, 2);
    jobs := PodsOfNumber(stored, 3);
    cronJobs := PodsOfNumber(stored, 4);
    SynthesizedUpTo(stored, 0, []);
    assert [] + deployments == deployments;
    SynthesizedUpTo(stored, 1, deployments);
    SynthesizedUpTo(stored, 2, deployments + statefulSets);
    SynthesizedUpTo(stored, 3, deployments + statefulSets + daemonSets);
    SynthesizedUpTo(stored, 4, deployments + statefulSets + daemonSets + jobs);
    assert WORKLOADS[..5] == WORKLOADS;
  }

  lemma PodsOfNumber(stored: seq<Object>, i: nat) returns (pods: seq<Object>)
    requires i < 5
    ensures pods == PodsFor(OfKind(stored, KindNumber(i))) && PodsOf(OfKind(stored, KindNumber(i)), pods)
  {
    pods := PodsFor(OfKind(stored, KindNumber(i)));
    PodsForAll(OfKind(stored, KindNumber(i)));
  }

  // Files.

  predicate Letter(c: char, lower: char, upper: char) { c == lower || c == upper }

  /** yaml, yml or json in any mixture of cases. */
  predicate ManifestExtension(e: string) {
    || (|e| == 4 && Letter(e[0], 'y', 'Y') && Letter(e[1], 'a', 'A') && Letter(e[2], 'm', 'M') && Letter(e[3], 'l', 'L'))
    || (|e| == 3 && Letter(e[0], 'y', 'Y') && Letter(e[1], 'm', 'M') && Letter(e[2], 'l', 'L'))
    || (|e| == 4 && Letter(e[0], 'j', 'J') && Letter(e[1], 's', 'S') && Letter(e[2], 'o', 'O') && Letter(e[3], 'n', 'N'))
  }

  lemma {:induction false} NoExtension(name: string)
    requires '.' !in name
    ensures Extension(name) == ""
  {
    if name != [] {
      NoExtension(name[1..]);
    }
  }

  lemma {:induction false} ExtensionOf(base: string, e: string)
    requires '.' !in e && '/' !in e
    ensures Extension(base + "." + e) == "." + e
  {
    var name := base + "." + e;
    if base == [] {
      assert name == "." + e;
      assert name[1..] == e;
      NoExtension(e);
      assert name[0] == '.' && '/' !in name;
    } else {
      assert name[1..] == base[1..] + "." + e;
      ExtensionOf(base[1..], e);
    }
  }

  lemma {:induction false} ExtensionInDirectory(base: string, file: string)
    requires '.' !in file
    ensures Extension(base + "/" + file) == ""
  {
    var name := base + "/" + file;
    if base == [] {
      assert name[1..] == file;
      NoExtension(file);
      assert name[0] == '/';
    } else {
      assert name[1..] == base[1..] + "/" + file;
      ExtensionInDirectory(base[1..], file);
      assert name[|base|] == '/' && '/' in name;
    }
  }

  lemma LowerLetter(s: string, i: nat, lower: char)
    requires i < |s| && 'a' <= lower <= 'z'
    ensures |LowerAscii(s)| == |s|
    ensures LowerAscii(s)[i] == lower <==> s[i] == lower || s[i] == lower - 'a' + 'A'
  {
  }

  lemma YamlExactly(e: string)
    ensures LowerAscii("." + e) == ".yaml" <==>
            |e| == 4 && Letter(e[0], 'y', 'Y') && Letter(e[1], 'a', 'A') && Letter(e[2], 'm', 'M') && Letter(e[3], 'l', 'L')
  {
    var ext := "." + e;
    if |e| == 4 {
      LowerLetter(ext, 1, 'y');
      LowerLetter(ext, 2, 'a');
      LowerLetter(ext, 3, 'm');
      LowerLetter(ext, 4, 'l');
      var low := LowerAscii(ext);
      assert low == [low[0], low[1], low[2], low[3], low[4]];
    }
  }

  lemma JsonExactly(e: string)
    ensures LowerAscii("." + e) == ".json" <==>
            |e| == 4 && Letter(e[0], 'j', 'J') && Letter(e[1], 's', 'S') && Letter(e[2], 'o', 'O') && Letter(e[3], 'n', 'N')
  {
    var ext := "." + e;
    if |e| == 4 {
      LowerLetter(ext, 1, 'j');
      LowerLetter(ext, 2, 's');
      LowerLetter(ext, 3, 'o');
      LowerLetter(ext, 4, 'n');
      var low := LowerAscii(ext);
      assert low == [low[0], low[1], low[2], low[3], low[4]];
    }
  }

  lemma YmlExactly(e: string)
    ensures LowerAscii("." + e) == ".yml" <==>
            |e| == 3 && Letter(e[0], 'y', 'Y') && Letter(e[1], 'm', 'M') && Letter(e[2], 'l', 'L')
  {
    var ext := "." + e;
    if |e| == 3 {
      LowerLetter(ext, 1, 'y');
      LowerLetter(ext, 2, 'm');
      LowerLetter(ext, 3, 'l');
      var low := LowerAscii(ext);
      assert low == [low[0], low[1], low[2], low[3]];
    }
  }

  /** Of a directory the walk reads the files with one of the three extensions, whatever its case. */
  lemma ManifestExactly(base: string, e: string)
    requires '.' !in e && '/' !in e
    ensures IsManifest(base + "." + e) <==> ManifestExtension(e)
    ensures !IsManifest(e) && !IsManifest(base + "/" + e)
  {
    ExtensionOf(base, e);
    YamlExactly(e);
    JsonExactly(e);
    YmlExactly(e);
    NoExtension(e);
    ExtensionInDirectory(base, e);
  }

  predicate Read(e: Entry) { e.Blocked? || IsManifest(e.name) }

  function SourceOf(e: Entry): Source { if e.Blocked? then Unopened else e.source }

  lemma {:induction false} EntriesInOrder(entries: seq<Entry>)
    ensures PicksAs(entries, Read, SourceOf, SourcesIn(entries))
  {
    if entries == [] {
      PicksNothing(Read, SourceOf);
    } else {
      var init, e := entries[..|entries| - 1], entries[|entries| - 1];
      assert entries == init + [e];
      EntriesInOrder(init);
      PicksGrow(init, Read, SourceOf, SourcesIn(init), e);
      assert SourcesIn(init) + [] == SourcesIn(init);
    }
  }

  /** A file is read whatever its name, a directory entry by entry; what cannot be examined, entered or opened
      is an error where it stands, and so is a document that does not decode. */
  lemma SourcesExactly(path: Path, source: Source)
    ensures path.Gone? ==> SourcesOf(path) == [Unopened]
    ensures path.Single? ==> SourcesOf(path) == [path.source]
    ensures path.Folder? ==> PicksAs(path.entries, Read, SourceOf, SourcesOf(path))
    ensures source.Unopened? ==> LeavesFrom(source) == [Fault(Unreadable)]
    ensures source.Text? && !source.breaks ==> LeavesFrom(source) == LeavesOf(source.docs)
    ensures source.Text? && source.breaks ==> LeavesFrom(source) == LeavesOf(source.docs) + [Fault(Undecoded)]
  {
    if path.Folder? {
      EntriesInOrder(path.entries);
    }
    if source.Text? && !source.breaks {
      assert LeavesOf(source.docs) + [] == LeavesOf(source.docs);
    }
  }

  /** Paths are taken one after the other, and so are the leaves of their sources and of a document's items. */
  lemma OneAfterTheOther(paths: seq<Path>, p: Path, sources: seq<Source>, s: Source, docs: seq<Doc>, doc: Doc)
    ensures AllSources([]) == [] && AllSources(paths + [p]) == AllSources(paths) + SourcesOf(p)
    ensures LeavesFromAll([]) == [] && LeavesFromAll(sources + [s]) == LeavesFromAll(sources) + LeavesFrom(s)
    ensures LeavesOf([]) == [] && LeavesOf(docs + [doc]) == LeavesOf(docs) + Leaves(doc)
    ensures Leaves(List(docs)) == LeavesOf(docs) && (!doc.List? ==> Leaves(doc) == [doc])
  {
    assert (paths + [p])[..|paths|] == paths && (sources + [s])[..|sources|] == sources && (docs + [doc])[..|docs|] == docs;
  }
}
