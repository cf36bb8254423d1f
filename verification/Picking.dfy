/** What a filtering loop keeps, said by positions. */
module Picking {
  /** Positions `at`, in order, are exactly those of the elements that satisfy `p`. */
  ghost predicate Positions<T>(xs: seq<T>, p: T -> bool, at: seq<nat>) {
    && (forall k | 0 <= k < |at| :: at[k] < |xs|)
    && (forall k, l | 0 <= k < l < |at| :: at[k] < at[l])
    && (forall i: nat | i < |xs| :: i in at <==> p(xs[i]))
  }

  ghost predicate Yields<T, U>(xs: seq<T>, g: T -> U, ys: seq<U>, at: seq<nat>) {
    |ys| == |at| && forall k | 0 <= k < |at| :: at[k] < |xs| && ys[k] == g(xs[at[k]])
  }

  /** `ys` holds what `g` makes of the elements of `xs` that satisfy `p`, one by one and in order. */
  ghost predicate PicksAs<T, U>(xs: seq<T>, p: T -> bool, g: T -> U, ys: seq<U>) {
    exists at :: Positions(xs, p, at) && Yields(xs, g, ys, at)
  }

  function Same<T>(x: T): T { x }

  /** `ys` holds the elements of `xs` that satisfy `p`, each as often as it occurs and in order. */
  ghost predicate Picks<T>(xs: seq<T>, p: T -> bool, ys: seq<T>) {
    PicksAs(xs, p, Same, ys)
  }

  lemma PositionsGrow<T>(xs: seq<T>, p: T -> bool, at: seq<nat>, x: T)
    requires Positions(xs, p, at)
    ensures Positions(xs + [x], p, if p(x) then at + [|xs|] else at)
  {
    forall i: nat | i < |xs + [x]|
      ensures i in (if p(x) then at + [|xs|] else at) <==> p((xs + [x])[i])
    {
      assert i < |xs| ==> (i in at <==> p(xs[i]));
    }
  }

  lemma YieldsGrow<T, U>(xs: seq<T>, g: T -> U, ys: seq<U>, at: seq<nat>, x: T)
    requires Yields(xs, g, ys, at)
    ensures Yields(xs + [x], g, ys, at) && Yields(xs + [x], g, ys + [g(x)], at + [|xs|])
  {
  }

  lemma PicksGrow<T, U>(xs: seq<T>, p: T -> bool, g: T -> U, ys: seq<U>, x: T)
    requires PicksAs(xs, p, g, ys)
    ensures PicksAs(xs + [x], p, g, if p(x) then ys + [g(x)] else ys)
  {
    var at :| Positions(xs, p, at) && Yields(xs, g, ys, at);
    PositionsGrow(xs, p, at, x);
    YieldsGrow(xs, g, ys, at, x);
  }

  lemma PicksNothing<T, U>(p: T -> bool, g: T -> U)
    ensures PicksAs([], p, g, [])
  {
    var xs: seq<T>, ys: seq<U>, at: seq<nat> := [], [], [];
    assert Positions(xs, p, at) && Yields(xs, g, ys, at);
  }
}
