/** The rightsizing recommender for one workload, and why following its patch silences it. */
module Rightsizing {
  import opened Reports
  import opened Rounding

  type Labels = map<string, string>

  datatype Pod = Pod(name: string, ns: string, running: bool, labels: Labels)

  /** Requests in thousandths of a core and in bytes; 0 when unset. */
  datatype Container = Container(name: string, cpuMilli: int, memBytes: int)

  datatype PodUsage = PodUsage(cpuP50: real, cpuP95: real, cpuMax: real,
                               memP50: real, memP95: real, memMax: real)

  /** One expression of a label selector. */
  datatype Expression =
    | In(key: string, values: set<string>)
    | NotIn(key: string, values: set<string>)
    | Exists(key: string)
    | DoesNotExist(key: string)

  /** A label selector; `Missing` is nil, `Invalid` does not convert. */
  datatype Selector = Missing | Invalid | Match(labels: Labels, expressions: seq<Expression>)

  /** What a core and a GiB cost in a month. */
  datatype Prices = Prices(cpu: real, gib: real)

  datatype Recommendation = Recommendation(container: string, pods: nat, curCPU: real, curMem: real,
                                           sugCPU: real, sugMem: real, usage: PodUsage,
                                           waste: real, savings: real)

  predicate Meets(labels: Labels, e: Expression) {
    match e
    case In(k, values) => k in labels && labels[k] in values
    case NotIn(k, values) => k in labels ==> labels[k] !in values
    case Exists(k) => k in labels
    case DoesNotExist(k) => k !in labels
  }

  /** A selector without requirements selects nothing here. */
  predicate Usable(sel: Selector) {
    sel.Match? && (sel.labels != map[] || sel.expressions != [])
  }

  predicate Selects(sel: Selector, ns: string, p: Pod) {
    && Usable(sel) && p.ns == ns && p.running
    && (forall k | k in sel.labels :: k in p.labels && p.labels[k] == sel.labels[k])
    && (forall i | 0 <= i < |sel.expressions| :: Meets(p.labels, sel.expressions[i]))
  }

  function Peak(a: PodUsage, b: PodUsage): PodUsage {
    PodUsage(Max(a.cpuP50, b.cpuP50), Max(a.cpuP95, b.cpuP95), Max(a.cpuMax, b.cpuMax),
             Max(a.memP50, b.memP50), Max(a.memP95, b.memP95), Max(a.memMax, b.memMax))
  }

  const IDLE := PodUsage(0.0, 0.0, 0.0, 0.0, 0.0, 0.0)

  /** The selected pods, in order. */
  function Selected(pods: seq<Pod>, ns: string, sel: Selector): seq<Pod> {
    if pods == [] then []
    else
      var p := pods[|pods| - 1];
      Selected(pods[..|pods| - 1], ns, sel) + if Selects(sel, ns, p) then [p] else []
  }

  function UsageKey(p: Pod): string {
    p.ns + "/" + p.name
  }

  /** The componentwise maximum of zero and the observed usage of the given pods. */
  function Observed(pods: seq<Pod>, usage: map<string, PodUsage>): PodUsage {
    if pods == [] then IDLE
    else
      var rest, key := Observed(pods[..|pods| - 1], usage), UsageKey(pods[|pods| - 1]);
      if key in usage then Peak(rest, usage[key]) else rest
  }

  predicate AnyObserved(pods: seq<Pod>, usage: map<string, PodUsage>) {
    exists i | 0 <= i < |pods| :: UsageKey(pods[i]) in usage
  }

  function TotalCPU(cs: seq<Container>): real {
    if cs == [] then 0.0 else TotalCPU(cs[..|cs| - 1]) + cs[|cs| - 1].cpuMilli as real / 1000.0
  }

  function TotalMem(cs: seq<Container>): real {
    if cs == [] then 0.0 else TotalMem(cs[..|cs| - 1]) + cs[|cs| - 1].memBytes as real
  }

  function SuggestedCPU(u: PodUsage): real {
    RoundCPU(Max(u.cpuP95 * 1.1, 0.01))
  }

  function RequestBytes(u: PodUsage): real {
    Max(u.memMax * 1.15, (32 * MI) as real)
  }

  function SuggestedMem(u: PodUsage): real {
    RoundMem(RequestBytes(u))
  }

  predicate Over(cpu: real, mem: real, u: PodUsage) {
    || (cpu > SuggestedCPU(u) * 1.5 && cpu - SuggestedCPU(u) >= 0.05)
    || (mem > SuggestedMem(u) * 1.5 && mem - SuggestedMem(u) >= (64 * MI) as real)
  }

  predicate Under(cpu: real, mem: real, u: PodUsage) {
    (cpu > 0.0 && u.cpuP95 > cpu) || (mem > 0.0 && u.memMax > mem)
  }

  predicate Unset(cpu: real, mem: real) {
    cpu == 0.0 && mem == 0.0
  }

  const GI: int := 1073741824

  /** Cores freed by following the suggestion on every pod, 4 GiB of memory counting as one. */
  function Waste(pods: nat, cpu: real, mem: real): real {
    if cpu <= 0.0 && mem <= 0.0 then 0.0
    else (Max(cpu, 0.0) + Max(mem, 0.0) / (4 * GI) as real) * pods as real
  }

  function Savings(prices: Prices, pods: nat, cpu: real, mem: real): real {
    if cpu <= 0.0 && mem <= 0.0 then 0.0
    else Max(cpu, 0.0) * pods as real * prices.cpu + Max(mem, 0.0) / GI as real * pods as real * prices.gib
  }

  function RecommendationFor(prices: Prices, cs: seq<Container>, pods: nat, u: PodUsage): Recommendation {
    var cpu, mem := TotalCPU(cs) - SuggestedCPU(u), TotalMem(cs) - SuggestedMem(u);
    Recommendation(if |cs| == 1 then cs[0].name else "", pods, TotalCPU(cs), TotalMem(cs),
                   SuggestedCPU(u), SuggestedMem(u), u, Waste(pods, cpu, mem), Savings(prices, pods, cpu, mem))
  }

  function RecommendOf(prices: Prices, pods: seq<Pod>, usage: map<string, PodUsage>, ns: string, sel: Selector,
                       cs: seq<Container>): Option<Recommendation>
  {
    var mine := Selected(pods, ns, sel);
    var u := Observed(mine, usage);
    var cpu, mem := TotalCPU(cs), TotalMem(cs);
    if AnyObserved(mine, usage) && (Over(cpu, mem, u) || Under(cpu, mem, u) || Unset(cpu, mem))
    then Some(RecommendationFor(prices, cs, |mine|, u))
    else None
  }

  /** `recommend`: None when the workload has no observed usage or is sized reasonably. */
  method Recommend(prices: Prices, pods: seq<Pod>, usage: map<string, PodUsage>, ns: string, sel: Selector,
                   cs: seq<Container>)
    returns (r: Option<Recommendation>)
    ensures r == RecommendOf(prices, pods, usage, ns, sel, cs)
  {
    if !Usable(sel) {
      SelectsNothing(pods, ns, sel);
      return None;
    }
    var agg, found, count := CollectPeaks(pods, usage, ns, sel);
    if !found || count == 0 {
      return None;
    }
    var curCPU, curMem := SumRequests(cs);
    var sugCPU, sugMem, needed := Size(curCPU, curMem, agg);
    if !needed {
      return None;
    }
    var waste, savings := Price(prices, count, curCPU - sugCPU, curMem - sugMem);
    r := Some(Recommendation(if |cs| == 1 then cs[0].name else "", count, curCPU, curMem, sugCPU, sugMem, agg,
                             waste, savings));
  }

  method SumRequests(cs: seq<Container>) returns (cpu: real, mem: real)
    ensures cpu == TotalCPU(cs) && mem == TotalMem(cs)
  {
    cpu, mem := 0.0, 0.0;
    for i := 0 to |cs|
      invariant cpu == TotalCPU(cs[..i]) && mem == TotalMem(cs[..i])
    {
      assert cs[..i + 1][..i] == cs[..i];
      cpu := cpu + cs[i].cpuMilli as real / 1000.0;
      mem := mem + cs[i].memBytes as real;
    }
    assert cs[..|cs|] == cs;
  }

  /** The suggestion, and whether the current requests call for one. */
  method Size(curCPU: real, curMem: real, agg: PodUsage) returns (sugCPU: real, sugMem: real, needed: bool)
    ensures sugCPU == SuggestedCPU(agg) && sugMem == SuggestedMem(agg)
    ensures needed <==> Over(curCPU, curMem, agg) || Under(curCPU, curMem, agg) || Unset(curCPU, curMem)
  {
    sugCPU := RoundCPU(Max(agg.cpuP95 * 1.1, 0.01));
    sugMem := RoundMem(Max(agg.memMax * 1.15, (32 * MI) as real));
    var over := (curCPU > sugCPU * 1.5 && curCPU - sugCPU >= 0.05)
             || (curMem > sugMem * 1.5 && curMem - sugMem >= (64 * MI) as real);
    var under := (curCPU > 0.0 && agg.cpuP95 > curCPU) || (curMem > 0.0 && agg.memMax > curMem);
    var unset := curCPU == 0.0 && curMem == 0.0;
    needed := over || under || unset;
  }

  method Price(prices: Prices, pods: nat, dCPU: real, dMem: real) returns (waste: real, savings: real)
    ensures waste == Waste(pods, dCPU, dMem) && savings == Savings(prices, pods, dCPU, dMem)
  {
    waste, savings := 0.0, 0.0;
    if dCPU > 0.0 || dMem > 0.0 {
      waste := (Max(dCPU, 0.0) + Max(dMem, 0.0) / (4 * GI) as real) * pods as real;
      savings := Max(dCPU, 0.0) * pods as real * prices.cpu + Max(dMem, 0.0) / GI as real * pods as real * prices.gib;
    }
  }

  /** The pod loop: the peaks of the observed selected pods and how many pods are selected. */
  method CollectPeaks(pods: seq<Pod>, usage: map<string, PodUsage>, ns: string, sel: Selector)
    returns (agg: PodUsage, found: bool, count: nat)
    ensures count == |Selected(pods, ns, sel)|
    ensures agg == Observed(Selected(pods, ns, sel), usage)
    ensures found == AnyObserved(Selected(pods, ns, sel), usage)
  {
    agg, found, count := IDLE, false, 0;
    for i := 0 to |pods|
      invariant count == |Selected(pods[..i], ns, sel)|
      invariant agg == Observed(Selected(pods[..i], ns, sel), usage)
      invariant found == AnyObserved(Selected(pods[..i], ns, sel), usage)
    {
      var p := pods[i];
      assert pods[..i + 1][..i] == pods[..i];
      ghost var mine := Selected(pods[..i], ns, sel);
      assert mine + [] == mine;
      if Selects(sel, ns, p) {
        assert (mine + [p])[..|mine|] == mine;
        AnyObservedGrows(mine, p, usage);
        count := count + 1;
        if UsageKey(p) in usage {
          found := true;
          agg := Peak(agg, usage[UsageKey(p)]);
        }
      }
    }
    assert pods[..|pods|] == pods;
  }

  lemma {:induction false} AnyObservedGrows(pods: seq<Pod>, p: Pod, usage: map<string, PodUsage>)
    ensures AnyObserved(pods + [p], usage) <==> AnyObserved(pods, usage) || UsageKey(p) in usage
  {
    var all := pods + [p];
    assert all[|pods|] == p;
    assert forall i | 0 <= i < |pods| :: all[i] == pods[i];
  }

  lemma {:induction false} SelectsNothing(pods: seq<Pod>, ns: string, sel: Selector)
    requires !Usable(sel)
    ensures Selected(pods, ns, sel) == []
  {
    if pods != [] {
      SelectsNothing(pods[..|pods| - 1], ns, sel);
    }
  }

  // What the peaks mean.

  lemma {:induction false} ObservedIsPeak(pods: seq<Pod>, usage: map<string, PodUsage>)
    ensures Observed(pods, usage).cpuP95 >= 0.0 && Observed(pods, usage).memMax >= 0.0
    ensures forall i | 0 <= i < |pods| && UsageKey(pods[i]) in usage ::
              && usage[UsageKey(pods[i])].cpuP95 <= Observed(pods, usage).cpuP95
              && usage[UsageKey(pods[i])].memMax <= Observed(pods, usage).memMax
  {
    if pods != [] {
      ObservedIsPeak(pods[..|pods| - 1], usage);
      assert forall i | 0 <= i < |pods| - 1 :: pods[i] == pods[..|pods| - 1][i];
    }
  }

  // The suggestion settles the workload.

  /** Suggestions cover the usage they were computed from and are never zero. */
  lemma {:induction false} SuggestionsCover(u: PodUsage)
    requires u.cpuP95 >= 0.0 && u.memMax >= 0.0
    ensures SuggestedCPU(u) >= u.cpuP95 && SuggestedCPU(u) >= 0.01
    ensures SuggestedMem(u) >= u.memMax && SuggestedMem(u) >= STEP as real
  {
    var c, b := Max(u.cpuP95 * 1.1, 0.01), Max(u.memMax * 1.15, (32 * MI) as real);
    RoundCPUTight(c);
    RoundCPUMonotone(0.01, c);
    CeilOfInteger(1);
    assert 0.01 * 100.0 == 1 as real;
    assert RoundCPU(0.01) == 0.01;
    RoundMemTight(b);
    RoundMemMonotone(STEP as real, b);
    assert STEP as real / STEP as real == 1 as real;
    assert RoundMem(STEP as real) == STEP as real;
  }

  // What a recommendation is worth.

  lemma {:induction false} ProductSign(a: real, b: real)
    requires a >= 0.0 && b >= 0.0
    ensures a * b >= 0.0 && (a * b > 0.0 <==> a > 0.0 && b > 0.0)
  {
  }

  lemma {:induction false} WasteSign(pods: nat, cpu: real, mem: real)
    ensures Waste(pods, cpu, mem) >= 0.0
    ensures Waste(pods, cpu, mem) > 0.0 <==> pods > 0 && (cpu > 0.0 || mem > 0.0)
  {
    ProductSign(Max(cpu, 0.0) + Max(mem, 0.0) / (4 * GI) as real, pods as real);
  }

  lemma {:induction false} SavingsSign(prices: Prices, pods: nat, cpu: real, mem: real)
    requires prices.cpu >= 0.0 && prices.gib >= 0.0
    ensures Savings(prices, pods, cpu, mem) >= 0.0
    ensures Savings(prices, pods, cpu, mem) > 0.0 <==>
            pods > 0 && ((cpu > 0.0 && prices.cpu > 0.0) || (mem > 0.0 && prices.gib > 0.0))
  {
    var c, m, n := Max(cpu, 0.0), Max(mem, 0.0) / GI as real, pods as real;
    ProductSign(c, n);
    ProductSign(c * n, prices.cpu);
    ProductSign(m, n);
    ProductSign(m * n, prices.gib);
  }

  /** Waste is never negative. There is some exactly when a request exceeds its suggestion, as it does
      whenever that is the reason for the recommendation. At prices that are not negative neither are the
      savings, and there are some exactly when a resource that costs something is in excess. */
  lemma {:induction false} WorthExactly(prices: Prices, pods: seq<Pod>, usage: map<string, PodUsage>, ns: string,
                                        sel: Selector, cs: seq<Container>)
    requires RecommendOf(prices, pods, usage, ns, sel, cs).Some?
    ensures var r := RecommendOf(prices, pods, usage, ns, sel, cs).value;
            && r.waste >= 0.0
            && (r.waste > 0.0 <==> r.curCPU > r.sugCPU || r.curMem > r.sugMem)
            && (Over(r.curCPU, r.curMem, r.usage) ==> r.waste > 0.0)
            && (prices.cpu >= 0.0 && prices.gib >= 0.0 ==>
                  && r.savings >= 0.0
                  && (r.savings > 0.0 <==>
                      ((r.curCPU > r.sugCPU && prices.cpu > 0.0) || (r.curMem > r.sugMem && prices.gib > 0.0))))
  {
    var r := RecommendOf(prices, pods, usage, ns, sel, cs).value;
    var mine := Selected(pods, ns, sel);
    var i :| 0 <= i < |mine| && UsageKey(mine[i]) in usage;
    WasteSign(|mine|, r.curCPU - r.sugCPU, r.curMem - r.sugMem);
    if prices.cpu >= 0.0 && prices.gib >= 0.0 {
      SavingsSign(prices, |mine|, r.curCPU - r.sugCPU, r.curMem - r.sugMem);
    }
  }

  /** The requests of the printed patch, read back. */
  function Patched(c: Container, r: Recommendation): Option<Container> {
    var cpu, mem := ParseCPU(FormatCPU(r.sugCPU)), ParseMem(FormatMem(r.sugMem));
    if cpu.Some? && mem.Some? then Some(c.(cpuMilli := cpu.value, memBytes := mem.value)) else None
  }

  /** Requests that add up to the suggestion, however split over containers, silence the recommender. */
  lemma {:induction false} SplitSilences(prices: Prices, pods: seq<Pod>, usage: map<string, PodUsage>, ns: string,
                                         sel: Selector, cs: seq<Container>, split: seq<Container>)
    requires RecommendOf(prices, pods, usage, ns, sel, cs).Some?
    requires TotalCPU(split) == RecommendOf(prices, pods, usage, ns, sel, cs).value.sugCPU
    requires TotalMem(split) == RecommendOf(prices, pods, usage, ns, sel, cs).value.sugMem
    ensures RecommendOf(prices, pods, usage, ns, sel, split) == None
  {
    ObservedIsPeak(Selected(pods, ns, sel), usage);
  }

  /** The printed patch reads back as exactly the suggested amounts. */
  lemma {:induction false} PatchIsExact(c: Container, r: Recommendation, u: PodUsage)
    requires r.sugCPU == SuggestedCPU(u) && r.sugMem == SuggestedMem(u)
    ensures Patched(c, r).Some?
    ensures TotalCPU([Patched(c, r).value]) == r.sugCPU && TotalMem([Patched(c, r).value]) == r.sugMem
  {
    CPUReadsBack(Max(u.cpuP95 * 1.1, 0.01));
    MemReadsBack(RequestBytes(u));
  }

  /** Applying the printed patch of a single-container workload gives exactly the suggested requests,
      and the recommender has nothing more to say for the same usage, whatever that was. */
  lemma {:induction false} PatchSilences(prices: Prices, pods: seq<Pod>, usage: map<string, PodUsage>, ns: string,
                                         sel: Selector, c: Container)
    requires RecommendOf(prices, pods, usage, ns, sel, [c]).Some?
    ensures var r := RecommendOf(prices, pods, usage, ns, sel, [c]).value;
            && Patched(c, r).Some?
            && TotalCPU([Patched(c, r).value]) == r.sugCPU && TotalMem([Patched(c, r).value]) == r.sugMem
            && RecommendOf(prices, pods, usage, ns, sel, [Patched(c, r).value]) == None
  {
    var r := RecommendOf(prices, pods, usage, ns, sel, [c]).value;
    PatchIsExact(c, r, Observed(Selected(pods, ns, sel), usage));
    SplitSilences(prices, pods, usage, ns, sel, [c], [Patched(c, r).value]);
  }

  // The patch's memory limit.

  function MemoryLimit(u: PodUsage): real {
    RoundMem(u.memMax * 1.5)
  }

  /** Memory request and limit as the patch prints them, in bytes. */
  function PrintedRequest(u: PodUsage): Option<int> {
    PrintedMem(RequestBytes(u))
  }

  function PrintedLimit(u: PodUsage): Option<int> {
    PrintedMem(u.memMax * 1.5)
  }

  lemma {:induction false} RequestWithinLimit(u: PodUsage)
    requires u.cpuP95 >= 0.0 && u.memMax >= 0.0
    ensures SuggestedMem(u) <= MemoryLimit(u) <==> u.memMax * 1.5 > EPSILON * STEP as real
  {
    var b, l := Max(u.memMax * 1.15, (32 * MI) as real), u.memMax * 1.5;
    SuggestionsCover(u);
    if l > EPSILON * STEP as real {
      if u.memMax * 1.15 >= (32 * MI) as real {
        RoundMemMonotone(b, l);
      } else {
        assert STEP as real / STEP as real == 1 as real;
        CeilOfInteger(1);
      }
    } else {
      assert l / STEP as real - EPSILON <= 0.0;
      CeilMonotone(l / STEP as real - EPSILON, 0.0);
    }
  }

  /** The printed request stays within the printed limit exactly when one and a half times the observed
      peak exceeds the rounding tolerance of EPSILON * STEP bytes, about a thirtieth of one; an idle pod
      gets the limit "0Mi" beside a request of "32Mi". */
  lemma {:induction false} LimitCoversRequest(u: PodUsage)
    requires u.cpuP95 >= 0.0 && u.memMax >= 0.0
    ensures PrintedRequest(u).Some? && PrintedLimit(u).Some?
    ensures PrintedRequest(u).value <= PrintedLimit(u).value <==> u.memMax * 1.5 > EPSILON * STEP as real
  {
    PrintedMemOrder(RequestBytes(u), u.memMax * 1.5);
    RequestWithinLimit(u);
  }

  /** In particular for every peak of at least one byte. */
  lemma {:induction false} LimitCoversRequestFromOneByte(u: PodUsage)
    requires u.cpuP95 >= 0.0 && u.memMax >= 1.0
    ensures PrintedRequest(u).Some? && PrintedLimit(u).Some?
    ensures PrintedRequest(u).value <= PrintedLimit(u).value
  {
    LimitCoversRequest(u);
  }
}
