/** Lexicographic string order and sorting, as `sort.Strings`, `slices.Sort` and
    `strings.Compare` provide them. */
module Ordering {

  predicate Leq(a: string, b: string) {
    a == [] || (b != [] && (a[0] < b[0] || (a[0] == b[0] && Leq(a[1..], b[1..]))))
  }

  predicate Less(a: string, b: string) {
    a != b && Leq(a, b)
  }

  lemma {:induction false} LeqReflexive(a: string)
    ensures Leq(a, a)
  {
    if a != [] {
      LeqReflexive(a[1..]);
    }
  }

  lemma {:induction false} LeqTotal(a: string, b: string)
    ensures Leq(a, b) || Leq(b, a)
  {
    if a != [] && b != [] && a[0] == b[0] {
      LeqTotal(a[1..], b[1..]);
    }
  }

  lemma {:induction false} LeqAntisymmetric(a: string, b: string)
    requires Leq(a, b) && Leq(b, a)
    ensures a == b
  {
    if a != [] && b != [] {
      LeqAntisymmetric(a[1..], b[1..]);
      assert a == [a[0]] + a[1..] && b == [b[0]] + b[1..];
    }
  }

  lemma {:induction false} LeqTransitive(a: string, b: string, c: string)
    requires Leq(a, b) && Leq(b, c)
    ensures Leq(a, c)
  {
    if a != [] && a[0] == b[0] == c[0] {
      LeqTransitive(a[1..], b[1..], c[1..]);
    }
  }

  /** Equally long leading parts decide the order; the rest only breaks ties. */
  lemma {:induction false} LeqOfConcat(p: string, q: string, a: string, b: string)
    requires |p| == |q|
    ensures Leq(p + a, q + b) <==> Less(p, q) || (p == q && Leq(a, b))
  {
    if p == [] {
      assert p + a == a && q + b == b;
    } else {
      assert (p + a)[1..] == p[1..] + a && (q + b)[1..] == q[1..] + b;
      assert p == [p[0]] + p[1..] && q == [q[0]] + q[1..];
      LeqOfConcat(p[1..], q[1..], a, b);
    }
  }

  lemma LessOfConcat(p: string, q: string, a: string, b: string)
    requires |p| == |q|
    ensures Less(p + a, q + b) <==> Less(p, q) || (p == q && Less(a, b))
  {
    LeqOfConcat(p, q, a, b);
    if p + a == q + b {
      assert p == (p + a)[..|p|] == q;
      assert a == (p + a)[|p|..] == b;
    }
  }

  /** Two texts that agree around the first separator agree on both sides of it. */
  lemma {:induction false} SeparatorSplits(c: char, a: string, b: string, x: string, y: string)
    requires c !in a && c !in b
    requires a + [c] + x == b + [c] + y
    ensures a == b && x == y
  {
    HeadOf(c, a, x);
    HeadOf(c, b, y);
    if a == [] && b == [] {
      assert ([c] + x)[1..] == x && ([c] + y)[1..] == y;
      assert a + [c] + x == [c] + x && b + [c] + y == [c] + y;
    } else if a != [] && b != [] {
      var s, t := a + [c] + x, b + [c] + y;
      assert s[1..] == a[1..] + [c] + x && t[1..] == b[1..] + [c] + y;
      SeparatorSplits(c, a[1..], b[1..], x, y);
      assert a == [a[0]] + a[1..] && b == [b[0]] + b[1..];
    }
  }

  lemma HeadOf(c: char, a: string, x: string)
    ensures (a + [c] + x)[0] == if a == [] then c else a[0]
    ensures a != [] ==> a[0] in a
  {
  }

  lemma Regroup<T>(a: seq<T>, b: seq<T>, c: seq<T>)
    ensures a + b + c == a + (b + c)
  {
  }

  // Sorting by a string key.

  ghost predicate SortedBy<T>(key: T -> string, xs: seq<T>) {
    forall i, j | 0 <= i < j < |xs| :: Leq(key(xs[i]), key(xs[j]))
  }

  function Insert<T>(key: T -> string, x: T, xs: seq<T>): seq<T> {
    if xs == [] || Leq(key(x), key(xs[0])) then [x] + xs
    else [xs[0]] + Insert(key, x, xs[1..])
  }

  lemma {:induction false} InsertAdds<T>(key: T -> string, x: T, xs: seq<T>)
    ensures multiset(Insert(key, x, xs)) == multiset(xs) + multiset{x}
  {
    if xs != [] && !Leq(key(x), key(xs[0])) {
      InsertAdds(key, x, xs[1..]);
      assert xs == [xs[0]] + xs[1..];
    }
  }

  lemma ConsSorted<T>(key: T -> string, x: T, xs: seq<T>)
    requires SortedBy(key, xs) && forall y | y in xs :: Leq(key(x), key(y))
    ensures SortedBy(key, [x] + xs)
  {
    forall i, j | 0 <= i < j < |xs| + 1
      ensures Leq(key(([x] + xs)[i]), key(([x] + xs)[j]))
    {
      assert xs[j - 1] in xs;
    }
  }

  lemma HeadIsLeast<T>(key: T -> string, x: T, xs: seq<T>)
    requires SortedBy(key, xs) && (xs == [] || Leq(key(x), key(xs[0])))
    ensures forall y | y in xs :: Leq(key(x), key(y))
  {
    forall y | y in xs
      ensures Leq(key(x), key(y))
    {
      var j :| 0 <= j < |xs| && xs[j] == y;
      if j > 0 {
        LeqTransitive(key(x), key(xs[0]), key(xs[j]));
      }
    }
  }

  lemma InsertMembers<T>(key: T -> string, x: T, xs: seq<T>)
    ensures forall y | y in Insert(key, x, xs) :: y == x || y in xs
  {
    InsertAdds(key, x, xs);
    forall y | y in Insert(key, x, xs)
      ensures y == x || y in xs
    {
      assert y in multiset(Insert(key, x, xs));
    }
  }

  lemma {:induction false} InsertSorts<T>(key: T -> string, x: T, xs: seq<T>)
    requires SortedBy(key, xs)
    ensures SortedBy(key, Insert(key, x, xs))
  {
    if xs == [] || Leq(key(x), key(xs[0])) {
      HeadIsLeast(key, x, xs);
      ConsSorted(key, x, xs);
    } else {
      var rest := Insert(key, x, xs[1..]);
      LeqTotal(key(x), key(xs[0]));
      InsertSorts(key, x, xs[1..]);
      LeqReflexive(key(xs[0]));
      HeadIsLeast(key, xs[0], xs);
      InsertMembers(key, x, xs[1..]);
      ConsSorted(key, xs[0], rest);
    }
  }

  function SortBy<T>(key: T -> string, xs: seq<T>): seq<T> {
    if xs == [] then [] else Insert(key, xs[0], SortBy(key, xs[1..]))
  }

  lemma {:induction false} SortByPermutes<T>(key: T -> string, xs: seq<T>)
    ensures multiset(SortBy(key, xs)) == multiset(xs)
  {
    if xs != [] {
      SortByPermutes(key, xs[1..]);
      InsertAdds(key, xs[0], SortBy(key, xs[1..]));
      assert xs == [xs[0]] + xs[1..];
    }
  }

  lemma {:induction false} SortByInOrder<T>(key: T -> string, xs: seq<T>)
    ensures SortedBy(key, SortBy(key, xs))
  {
    if xs != [] {
      SortByInOrder(key, xs[1..]);
      InsertSorts(key, xs[0], SortBy(key, xs[1..]));
    }
  }

  lemma SortBySorts<T>(key: T -> string, xs: seq<T>)
    ensures SortedBy(key, SortBy(key, xs))
    ensures multiset(SortBy(key, xs)) == multiset(xs)
    ensures |SortBy(key, xs)| == |xs|
    ensures forall x :: x in SortBy(key, xs) <==> x in xs
  {
    SortByInOrder(key, xs);
    SortByPermutes(key, xs);
    assert |multiset(SortBy(key, xs))| == |SortBy(key, xs)|;
    assert |multiset(xs)| == |xs|;
    forall x
      ensures x in SortBy(key, xs) <==> x in xs
    {
      assert x in multiset(SortBy(key, xs)) <==> x in multiset(xs);
    }
  }

  lemma {:induction false} SortByOfSorted<T>(key: T -> string, xs: seq<T>)
    requires SortedBy(key, xs)
    ensures SortBy(key, xs) == xs
  {
    if xs != [] {
      SortByOfSorted(key, xs[1..]);
      assert xs == [xs[0]] + xs[1..];
    }
  }

  function Self(s: string): string { s }

  function Sort(xs: seq<string>): seq<string> {
    SortBy(Self, xs)
  }

  // The one strictly sorted listing of a finite set of names.

  ghost predicate StrictlySorted(xs: seq<string>) {
    forall i, j | 0 <= i < j < |xs| :: Less(xs[i], xs[j])
  }

  ghost predicate IsListing(xs: seq<string>, names: set<string>) {
    StrictlySorted(xs) && forall x :: x in xs <==> x in names
  }

  predicate Distinct<T(==)>(xs: seq<T>) {
    forall i, j | 0 <= i < j < |xs| :: xs[i] != xs[j]
  }

  lemma {:induction false} ListingUnique(xs: seq<string>, ys: seq<string>, names: set<string>)
    requires IsListing(xs, names) && IsListing(ys, names)
    ensures xs == ys
    decreases |xs|
  {
    if xs == [] {
      if ys != [] {
        HeadIn(ys);
      }
    } else {
      assert xs[0] in names && xs[0] in ys;
      assert ys[0] in names && ys[0] in xs;
      var i :| 0 <= i < |xs| && xs[i] == ys[0];
      var j :| 0 <= j < |ys| && ys[j] == xs[0];
      if i > 0 && j > 0 {
        LeqAntisymmetric(xs[0], ys[0]);
      }
      assert xs[0] == ys[0];
      ListingUnique(xs[1..], ys[1..], names - {xs[0]});
      assert xs == [xs[0]] + xs[1..] && ys == [ys[0]] + ys[1..];
    }
  }

  lemma HeadIn<T>(xs: seq<T>)
    requires xs != []
    ensures xs[0] in xs
  {
  }

  lemma SortIsListing(xs: seq<string>, names: set<string>)
    requires Distinct(xs) && forall x :: x in xs <==> x in names
    ensures IsListing(Sort(xs), names)
  {
    SortBySorts(Self, xs);
    var ys := Sort(xs);
    forall i, j | 0 <= i < j < |ys|
      ensures Less(ys[i], ys[j])
    {
      DistinctMultiset(xs, ys[i]);
      RepeatCounted(ys, i, j);
    }
  }

  lemma {:induction false} DistinctMultiset<T>(xs: seq<T>, x: T)
    requires Distinct(xs)
    ensures multiset(xs)[x] <= 1
  {
    if xs != [] {
      DistinctMultiset(xs[1..], x);
      assert xs == [xs[0]] + xs[1..];
      if x == xs[0] {
        assert x !in xs[1..];
      }
    }
  }

  lemma RepeatCounted<T>(xs: seq<T>, i: nat, j: nat)
    requires i < j < |xs|
    ensures xs[i] == xs[j] ==> multiset(xs)[xs[i]] >= 2
  {
    assert xs == xs[..j] + ([xs[j]] + xs[j + 1..]);
    assert xs[..j][i] == xs[i];
    assert xs[i] in multiset(xs[..j]);
  }

  ghost function Enumerate(names: set<string>): (xs: seq<string>)
    ensures Distinct(xs) && forall x :: x in xs <==> x in names
  {
    if names == {} then []
    else
      var x :| x in names;
      [x] + Enumerate(names - {x})
  }

  ghost function Listing(names: set<string>): (xs: seq<string>)
    ensures IsListing(xs, names)
  {
    SortIsListing(Enumerate(names), names);
    Sort(Enumerate(names))
  }

  /** A name after every listed one goes at the end of the listing. */
  lemma ListingGrows(names: set<string>, x: string)
    requires forall y | y in names :: Less(y, x)
    ensures Listing(names + {x}) == Listing(names) + [x]
  {
    var xs := Listing(names) + [x];
    forall i, j | 0 <= i < j < |xs|
      ensures Less(xs[i], xs[j])
    {
      assert Listing(names)[i] in names;
    }
    assert IsListing(xs, names + {x});
    ListingUnique(xs, Listing(names + {x}), names + {x});
  }

  /** `slices.Sorted(maps.Keys(..))`: the names of a set, sorted, whatever order they come in. */
  method SortedNames(names: set<string>) returns (sorted: seq<string>)
    ensures sorted == Listing(names)
  {
    var list, rest := [], names;
    while rest != {}
      invariant rest <= names
      invariant Distinct(list) && forall n :: n in list <==> n in names && n !in rest
      decreases rest
    {
      var n :| n in rest;
      rest := rest - {n};
      list := list + [n];
    }
    SortIsListing(list, names);
    sorted := Sort(list);
    ListingUnique(sorted, Listing(names), names);
  }
}
