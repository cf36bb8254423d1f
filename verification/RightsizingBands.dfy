/** When the recommender speaks and what it says, told from the pods, their usage and the containers. */
module RightsizingBands {
  import opened Picking
  import opened Reports
  import opened Rounding
  import opened Rightsizing

  // Which pods count.

  function Selecting(sel: Selector, ns: string): Pod -> bool {
    (p: Pod) => Selects(sel, ns, p)
  }

  /** The pods of a workload are all that match, in order. */
  lemma {:induction false} SelectedInOrder(pods: seq<Pod>, ns: string, sel: Selector)
    ensures Picks(pods, Selecting(sel, ns), Selected(pods, ns, sel))
  {
    if pods == [] {
      PicksNothing(Selecting(sel, ns), Same<Pod>);
    } else {
      var init, p := pods[..|pods| - 1], pods[|pods| - 1];
      assert pods == init + [p];
      SelectedInOrder(init, ns, sel);
      PicksGrow(init, Selecting(sel, ns), Same, Selected(init, ns, sel), p);
      assert Selected(init, ns, sel) + [] == Selected(init, ns, sel);
    }
  }

  /** Nothing outside the namespace, not running, or without a requirement is selected. */
  lemma {:induction false} SelectedOnly(sel: Selector, ns: string, p: Pod)
    ensures Selects(sel, ns, p) ==> p.ns == ns && p.running
    ensures !Selects(Missing, ns, p) && !Selects(Invalid, ns, p) && !Selects(Match(map[], []), ns, p)
  {
  }

  /** Each further expression narrows the selection by what it says of the pod's label. */
  lemma {:induction false} ExpressionsNarrow(labels: Labels, es: seq<Expression>, ns: string, p: Pod, k: string,
                                             values: set<string>)
    requires Usable(Match(labels, es))
    ensures Selects(Match(labels, es + [In(k, values)]), ns, p) <==>
            Selects(Match(labels, es), ns, p) && k in p.labels && p.labels[k] in values
    ensures Selects(Match(labels, es + [NotIn(k, values)]), ns, p) <==>
            Selects(Match(labels, es), ns, p) && (k in p.labels ==> p.labels[k] !in values)
    ensures Selects(Match(labels, es + [Exists(k)]), ns, p) <==> Selects(Match(labels, es), ns, p) && k in p.labels
    ensures Selects(Match(labels, es + [DoesNotExist(k)]), ns, p) <==>
            Selects(Match(labels, es), ns, p) && k !in p.labels
  {
    NarrowedBy(labels, es, In(k, values), ns, p);
    NarrowedBy(labels, es, NotIn(k, values), ns, p);
    NarrowedBy(labels, es, Exists(k), ns, p);
    NarrowedBy(labels, es, DoesNotExist(k), ns, p);
  }

  lemma {:induction false} NarrowedBy(labels: Labels, es: seq<Expression>, e: Expression, ns: string, p: Pod)
    requires Usable(Match(labels, es))
    ensures Selects(Match(labels, es + [e]), ns, p) <==> Selects(Match(labels, es), ns, p) && Meets(p.labels, e)
  {
    var all := es + [e];
    assert all[|es|] == e && forall i | 0 <= i < |es| :: all[i] == es[i];
  }

  /** A label requirement selects like the expression that demands this one value. */
  lemma {:induction false} LabelIsExpression(labels: Labels, es: seq<Expression>, ns: string, p: Pod, k: string,
                                             v: string)
    requires k !in labels
    ensures Selects(Match(labels[k := v], es), ns, p) <==> Selects(Match(labels, es + [In(k, {v})]), ns, p)
  {
    var all := es + [In(k, {v})];
    assert all[|es|] == In(k, {v}) && forall i | 0 <= i < |es| :: all[i] == es[i];
  }

  /** Pod `i` belongs to the workload and was observed. */
  predicate Seen(pods: seq<Pod>, usage: map<string, PodUsage>, ns: string, sel: Selector, i: nat) {
    i < |pods| && Selects(sel, ns, pods[i]) && pods[i].ns + "/" + pods[i].name in usage
  }

  function UsageAt(pods: seq<Pod>, usage: map<string, PodUsage>, i: nat): PodUsage
    requires i < |pods| && pods[i].ns + "/" + pods[i].name in usage
  {
    usage[pods[i].ns + "/" + pods[i].name]
  }

  /** `x` is the highest value of `f` over the observed pods of the workload, and at least zero. */
  ghost predicate Highest(pods: seq<Pod>, usage: map<string, PodUsage>, ns: string, sel: Selector,
                          f: PodUsage -> real, x: real)
  {
    && x >= 0.0
    && (forall i: nat | Seen(pods, usage, ns, sel, i) :: f(UsageAt(pods, usage, i)) <= x)
    && (x == 0.0 || exists i: nat :: Seen(pods, usage, ns, sel, i) && f(UsageAt(pods, usage, i)) == x)
  }

  lemma {:induction false} HighestUnique(pods: seq<Pod>, usage: map<string, PodUsage>, ns: string, sel: Selector,
                                         f: PodUsage -> real, x: real, y: real)
    requires Highest(pods, usage, ns, sel, f, x) && Highest(pods, usage, ns, sel, f, y)
    ensures x == y
  {
  }

  /** `f` is one of the quantities that are aggregated pod by pod. */
  ghost predicate Aggregated(f: PodUsage -> real) {
    f(IDLE) == 0.0 && forall a, b :: f(Peak(a, b)) == if f(a) >= f(b) then f(a) else f(b)
  }

  lemma {:induction false} SeenNext(init: seq<Pod>, p: Pod, usage: map<string, PodUsage>, ns: string, sel: Selector,
                                    i: nat)
    requires i < |init|
    ensures Seen(init + [p], usage, ns, sel, i) <==> Seen(init, usage, ns, sel, i)
    ensures Seen(init, usage, ns, sel, i) ==> UsageAt(init + [p], usage, i) == UsageAt(init, usage, i)
  {
  }

  lemma {:induction false} HighestNext(init: seq<Pod>, p: Pod, usage: map<string, PodUsage>, ns: string,
                                       sel: Selector, f: PodUsage -> real, x: real, y: real)
    requires Highest(init, usage, ns, sel, f, x)
    requires y == if Seen(init + [p], usage, ns, sel, |init|) && f(UsageAt(init + [p], usage, |init|)) > x
                  then f(UsageAt(init + [p], usage, |init|)) else x
    ensures Highest(init + [p], usage, ns, sel, f, y)
  {
    var all := init + [p];
    forall i: nat | Seen(all, usage, ns, sel, i)
      ensures f(UsageAt(all, usage, i)) <= y
    {
      if i < |init| {
        SeenNext(init, p, usage, ns, sel, i);
      }
    }
    if y == x && x != 0.0 {
      var i: nat :| Seen(init, usage, ns, sel, i) && f(UsageAt(init, usage, i)) == x;
      SeenNext(init, p, usage, ns, sel, i);
      assert Seen(all, usage, ns, sel, i);
    }
  }

  lemma {:induction false} ObservedIsHighest(pods: seq<Pod>, usage: map<string, PodUsage>, ns: string, sel: Selector,
                                             f: PodUsage -> real)
    requires Aggregated(f)
    ensures Highest(pods, usage, ns, sel, f, f(Observed(Selected(pods, ns, sel), usage)))
  {
    if pods != [] {
      var init, p := pods[..|pods| - 1], pods[|pods| - 1];
      assert pods == init + [p];
      ObservedIsHighest(init, usage, ns, sel, f);
      var mine := Selected(init, ns, sel);
      assert mine + [] == mine;
      assert (mine + [p])[..|mine|] == mine;
      HighestNext(init, p, usage, ns, sel, f, f(Observed(mine, usage)), f(Observed(Selected(pods, ns, sel), usage)));
    }
  }

  /** All six figures of a recommendation's usage are the highest observed ones. */
  lemma {:induction false} UsageIsHighest(pods: seq<Pod>, usage: map<string, PodUsage>, ns: string, sel: Selector)
    ensures var u := Observed(Selected(pods, ns, sel), usage);
            && Highest(pods, usage, ns, sel, (p: PodUsage) => p.cpuP50, u.cpuP50)
            && Highest(pods, usage, ns, sel, (p: PodUsage) => p.cpuP95, u.cpuP95)
            && Highest(pods, usage, ns, sel, (p: PodUsage) => p.cpuMax, u.cpuMax)
            && Highest(pods, usage, ns, sel, (p: PodUsage) => p.memP50, u.memP50)
            && Highest(pods, usage, ns, sel, (p: PodUsage) => p.memP95, u.memP95)
            && Highest(pods, usage, ns, sel, (p: PodUsage) => p.memMax, u.memMax)
  {
    ObservedIsHighest(pods, usage, ns, sel, (p: PodUsage) => p.cpuP50);
    ObservedIsHighest(pods, usage, ns, sel, (p: PodUsage) => p.cpuP95);
    ObservedIsHighest(pods, usage, ns, sel, (p: PodUsage) => p.cpuMax);
    ObservedIsHighest(pods, usage, ns, sel, (p: PodUsage) => p.memP50);
    ObservedIsHighest(pods, usage, ns, sel, (p: PodUsage) => p.memP95);
    ObservedIsHighest(pods, usage, ns, sel, (p: PodUsage) => p.memMax);
  }

  lemma {:induction false} AnySeen(pods: seq<Pod>, usage: map<string, PodUsage>, ns: string, sel: Selector)
    ensures AnyObserved(Selected(pods, ns, sel), usage) <==> exists i: nat :: Seen(pods, usage, ns, sel, i)
  {
    if pods != [] {
      var init, p := pods[..|pods| - 1], pods[|pods| - 1];
      assert pods == init + [p];
      AnySeen(init, usage, ns, sel);
      var mine := Selected(init, ns, sel);
      assert mine + [] == mine;
      AnyObservedGrows(mine, p, usage);
      if i: nat :| Seen(init, usage, ns, sel, i) {
        SeenNext(init, p, usage, ns, sel, i);
        assert Seen(pods, usage, ns, sel, i);
      }
      if i: nat :| Seen(pods, usage, ns, sel, i) && i < |init| {
        SeenNext(init, p, usage, ns, sel, i);
        assert Seen(init, usage, ns, sel, i);
      }
      assert Seen(pods, usage, ns, sel, |init|) <==> Selects(sel, ns, p) && UsageKey(p) in usage;
    }
  }

  // What containers request together.

  lemma {:induction false} TotalsAdd(a: seq<Container>, b: seq<Container>)
    ensures TotalCPU(a + b) == TotalCPU(a) + TotalCPU(b) && TotalMem(a + b) == TotalMem(a) + TotalMem(b)
  {
    if b == [] {
      assert a + b == a;
    } else {
      TotalsAdd(a, b[..|b| - 1]);
      assert (a + b)[..|a + b| - 1] == a + b[..|b| - 1];
    }
  }

  lemma {:induction false} TotalOfOne(c: Container)
    ensures TotalCPU([c]) == c.cpuMilli as real / 1000.0 && TotalMem([c]) == c.memBytes as real
  {
    assert [c][..0] == [];
    assert TotalCPU([c][..0]) == 0.0 && TotalMem([c][..0]) == 0.0;
  }

  // The silent region.

  /** The suggestions for these peaks: a tenth over the CPU P95 and fifteen percent over the memory peak, at
      least 10m and 32Mi, rounded up to steps. */
  function CPUFor(c: real): real {
    RoundCPU(if c * 1.1 >= 0.01 then c * 1.1 else 0.01)
  }

  function MemFor(m: real): real {
    RoundMem(if m * 1.15 >= 33554432.0 then m * 1.15 else 33554432.0)
  }

  function CPUP95(): PodUsage -> real {
    (u: PodUsage) => u.cpuP95
  }

  function MemPeak(): PodUsage -> real {
    (u: PodUsage) => u.memMax
  }

  /** With `c` and `m` the highest observed CPU P95 and memory: silence means that nothing was observed, or that
      each request is within half as much again of its suggestion or within 50m or 64Mi of it, none that is set
      is below its peak, and one is set. */
  lemma {:induction false} SilentExactly(prices: Prices, pods: seq<Pod>, usage: map<string, PodUsage>, ns: string,
                                         sel: Selector, cs: seq<Container>, c: real, m: real)
    requires Highest(pods, usage, ns, sel, CPUP95(), c) && Highest(pods, usage, ns, sel, MemPeak(), m)
    ensures var cpu, mem := TotalCPU(cs), TotalMem(cs);
            RecommendOf(prices, pods, usage, ns, sel, cs) == None <==>
            || (forall i: nat :: !Seen(pods, usage, ns, sel, i))
            || (&& (cpu <= CPUFor(c) * 1.5 || cpu - CPUFor(c) < 0.05)
                && (mem <= MemFor(m) * 1.5 || mem - MemFor(m) < 67108864.0)
                && (cpu <= 0.0 || c <= cpu) && (mem <= 0.0 || m <= mem)
                && (cpu != 0.0 || mem != 0.0))
  {
    ObservedPeaks(pods, usage, ns, sel, c, m);
    AnySeen(pods, usage, ns, sel);
    QuietExactly(TotalCPU(cs), TotalMem(cs), Observed(Selected(pods, ns, sel), usage));
  }

  lemma {:induction false} ObservedPeaks(pods: seq<Pod>, usage: map<string, PodUsage>, ns: string, sel: Selector,
                                         c: real, m: real)
    requires Highest(pods, usage, ns, sel, CPUP95(), c) && Highest(pods, usage, ns, sel, MemPeak(), m)
    ensures var u := Observed(Selected(pods, ns, sel), usage); u.cpuP95 == c && u.memMax == m
  {
    var u := Observed(Selected(pods, ns, sel), usage);
    ObservedIsHighest(pods, usage, ns, sel, CPUP95());
    ObservedIsHighest(pods, usage, ns, sel, MemPeak());
    HighestUnique(pods, usage, ns, sel, CPUP95(), c, u.cpuP95);
    HighestUnique(pods, usage, ns, sel, MemPeak(), m, u.memMax);
  }

  lemma {:induction false} QuietExactly(cpu: real, mem: real, u: PodUsage)
    ensures !Over(cpu, mem, u) && !Under(cpu, mem, u) && !Unset(cpu, mem) <==>
            && (cpu <= CPUFor(u.cpuP95) * 1.5 || cpu - CPUFor(u.cpuP95) < 0.05)
            && (mem <= MemFor(u.memMax) * 1.5 || mem - MemFor(u.memMax) < 67108864.0)
            && (cpu <= 0.0 || u.cpuP95 <= cpu) && (mem <= 0.0 || u.memMax <= mem)
            && (cpu != 0.0 || mem != 0.0)
  {
    SuggestedFor(u);
  }

  lemma {:induction false} SuggestedFor(u: PodUsage)
    ensures SuggestedCPU(u) == CPUFor(u.cpuP95) && SuggestedMem(u) == MemFor(u.memMax)
  {
  }

  /** In particular a workload with an observed pod above a request that is set, or with none set, is named. */
  lemma {:induction false} StarvedIsNamed(prices: Prices, pods: seq<Pod>, usage: map<string, PodUsage>, ns: string,
                                          sel: Selector, cs: seq<Container>, i: nat)
    requires Seen(pods, usage, ns, sel, i)
    requires var cpu, mem, u := TotalCPU(cs), TotalMem(cs), UsageAt(pods, usage, i);
             (mem > 0.0 && u.memMax > mem) || (cpu > 0.0 && u.cpuP95 > cpu) || (cpu == 0.0 && mem == 0.0)
    ensures RecommendOf(prices, pods, usage, ns, sel, cs).Some?
  {
    var u := Observed(Selected(pods, ns, sel), usage);
    ObservedIsHighest(pods, usage, ns, sel, CPUP95());
    ObservedIsHighest(pods, usage, ns, sel, MemPeak());
    SilentExactly(prices, pods, usage, ns, sel, cs, u.cpuP95, u.memMax);
  }

  // What it says.

  lemma {:induction false} RoundMemGrid(b: real) returns (k: int)
    ensures RoundMem(b) == (k * 33554432) as real
  {
    k := Ceil(b / STEP as real - EPSILON);
  }

  /** Suggestions lie a tenth and fifteen percent above the peaks or at their floors, up to the rounding tolerance
      below and less than one step above: 10m, or 100m from one core on, and 32Mi. */
  lemma {:induction false} SuggestionBounds(c: real, m: real)
    requires c >= 0.0 && m >= 0.0
    ensures CPUFor(c) >= c * 1.1 - 0.0000000001 && CPUFor(c) >= 0.01
    ensures c * 1.1 < 1.0 ==> CPUFor(c) < (if c * 1.1 >= 0.01 then c * 1.1 else 0.01) + 0.01
    ensures c * 1.1 >= 1.0 ==> CPUFor(c) < c * 1.1 + 0.1
    ensures MemFor(m) >= m * 1.15 - 0.034 && MemFor(m) >= 33554432.0
    ensures MemFor(m) < (if m * 1.15 >= 33554432.0 then m * 1.15 else 33554432.0) + 33554432.0
  {
    var u := PodUsage(0.0, c, 0.0, 0.0, 0.0, m);
    SuggestedFor(u);
    SuggestionsCover(u);
    RoundCPUTight(if c * 1.1 >= 0.01 then c * 1.1 else 0.01);
    RoundMemTight(if m * 1.15 >= 33554432.0 then m * 1.15 else 33554432.0);
  }

  /** A recommendation names the container when there is only one, counts the workload's pods, and states the
      requests, the observed usage, and what following it frees. */
  lemma {:induction false} RecommendationTells(prices: Prices, pods: seq<Pod>, usage: map<string, PodUsage>,
                                               ns: string, sel: Selector, cs: seq<Container>)
    requires RecommendOf(prices, pods, usage, ns, sel, cs).Some?
    ensures var r := RecommendOf(prices, pods, usage, ns, sel, cs).value;
            && r.container == (if |cs| == 1 then cs[0].name else "") && r.pods == |Selected(pods, ns, sel)|
            && r.curCPU == TotalCPU(cs) && r.curMem == TotalMem(cs)
            && r.usage == Observed(Selected(pods, ns, sel), usage)
            && r.waste == Waste(r.pods, r.curCPU - r.sugCPU, r.curMem - r.sugMem)
            && r.savings == Savings(prices, r.pods, r.curCPU - r.sugCPU, r.curMem - r.sugMem)
  {
  }

  /** It suggests what the observed peaks call for. */
  lemma {:induction false} RecommendationSuggests(prices: Prices, pods: seq<Pod>, usage: map<string, PodUsage>,
      ns: string, sel: Selector, cs: seq<Container>, c: real, m: real)
    requires Highest(pods, usage, ns, sel, CPUP95(), c) && Highest(pods, usage, ns, sel, MemPeak(), m)
    requires RecommendOf(prices, pods, usage, ns, sel, cs).Some?
    ensures RecommendOf(prices, pods, usage, ns, sel, cs).value.sugCPU == CPUFor(c)
    ensures RecommendOf(prices, pods, usage, ns, sel, cs).value.sugMem == MemFor(m)
  {
    ObservedPeaks(pods, usage, ns, sel, c, m);
    SuggestedFor(Observed(Selected(pods, ns, sel), usage));
  }

  /** What is freed on every pod: cores as they are, 4 GiB of memory worth one; shortage is not counted. */
  lemma {:induction false} WasteInUnits(pods: nat, cores: real, gib: real, less: real)
    requires cores >= 0.0 && gib >= 0.0 && less <= 0.0
    ensures Waste(pods, cores, 0.0) == cores * pods as real
    ensures Waste(pods, 0.0, gib * 1073741824.0) == gib / 4.0 * pods as real
    ensures Waste(pods, cores, gib * 1073741824.0) == Waste(pods, cores, 0.0) + Waste(pods, 0.0, gib * 1073741824.0)
    ensures Waste(pods, cores, less) == Waste(pods, cores, 0.0)
    ensures Waste(pods, less, gib * 1073741824.0) == Waste(pods, 0.0, gib * 1073741824.0)
  {
    assert gib * 1073741824.0 / (4 * GI) as real == gib / 4.0;
  }

  /** Money: cores and GiB freed on every pod at their prices. */
  lemma {:induction false} SavingsInUnits(prices: Prices, pods: nat, cores: real, gib: real, less: real)
    requires cores >= 0.0 && gib >= 0.0 && less <= 0.0
    ensures Savings(prices, pods, cores, 0.0) == cores * pods as real * prices.cpu
    ensures Savings(prices, pods, 0.0, gib * 1073741824.0) == gib * pods as real * prices.gib
    ensures Savings(prices, pods, cores, gib * 1073741824.0)
         == Savings(prices, pods, cores, 0.0) + Savings(prices, pods, 0.0, gib * 1073741824.0)
    ensures Savings(prices, pods, cores, less) == Savings(prices, pods, cores, 0.0)
    ensures Savings(prices, pods, less, gib * 1073741824.0) == Savings(prices, pods, 0.0, gib * 1073741824.0)
  {
    assert gib * 1073741824.0 / GI as real == gib;
  }
}
