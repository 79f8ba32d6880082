/**
 * The two list operations the publication renderers rely on: keeping the
 * entries that satisfy a test (a loop that appends to one of two lists),
 * and Python's `sorted(xs, key=k, reverse=True)`, a stable sort into
 * non-increasing key order in which entries with equal keys keep their
 * input order.
 */
module Sorting {

  /** The entries of `xs` that satisfy `p`, in input order. */
  function Filter<T>(xs: seq<T>, p: T -> bool): (r: seq<T>)
    ensures |r| <= |xs|
    ensures forall i :: 0 <= i < |r| ==> p(r[i])
    decreases |xs|
  {
    if xs == [] then [] else (if p(xs[0]) then [xs[0]] else []) + Filter(xs[1..], p)
  }

  /** Filtering `xs + [x]` filters `xs`, then keeps `x` when it passes: what a loop appending to a list does. */
  lemma {:induction false} FilterSnoc<T>(xs: seq<T>, x: T, p: T -> bool)
    ensures Filter(xs + [x], p) == Filter(xs, p) + (if p(x) then [x] else [])
    decreases |xs|
  {
    if xs == [] {
      assert [x][1..] == [];
    } else {
      assert (xs + [x])[1..] == xs[1..] + [x];
      FilterSnoc(xs[1..], x, p);
    }
  }

  /** A test and its negation split `xs` into two parts that together hold every entry exactly once. */
  lemma {:induction false} FilterComplement<T>(xs: seq<T>, p: T -> bool, q: T -> bool)
    requires forall x :: q(x) == !p(x)
    ensures multiset(Filter(xs, p)) + multiset(Filter(xs, q)) == multiset(xs)
    decreases |xs|
  {
    if xs != [] {
      FilterComplement(xs[1..], p, q);
      assert xs == [xs[0]] + xs[1..];
      assert multiset(xs) == multiset{xs[0]} + multiset(xs[1..]);
      var a := if p(xs[0]) then [xs[0]] else [];
      var b := if q(xs[0]) then [xs[0]] else [];
      assert multiset(Filter(xs, p)) == multiset(a) + multiset(Filter(xs[1..], p));
      assert multiset(Filter(xs, q)) == multiset(b) + multiset(Filter(xs[1..], q));
      assert multiset(a) + multiset(b) == multiset{xs[0]};
    }
  }

  /** The entries of `xs` whose key is `k`, in input order. */
  function WithKey<T>(xs: seq<T>, key: T -> int, k: int): (r: seq<T>)
    ensures forall i :: 0 <= i < |r| ==> key(r[i]) == k
    decreases |xs|
  {
    if xs == [] then [] else (if key(xs[0]) == k then [xs[0]] else []) + WithKey(xs[1..], key, k)
  }

  /** Keys never increase from left to right. */
  predicate SortedDesc<T>(xs: seq<T>, key: T -> int) {
    forall i, j :: 0 <= i < j < |xs| ==> key(xs[i]) >= key(xs[j])
  }

  /** `x` goes in front of the first entry whose key is not larger than its own. */
  function Insert<T>(x: T, ys: seq<T>, key: T -> int): (r: seq<T>)
    ensures |r| == |ys| + 1
    decreases |ys|
  {
    if ys == [] || key(ys[0]) <= key(x) then [x] + ys
    else [ys[0]] + Insert(x, ys[1..], key)
  }

  /** `sorted(xs, key=key, reverse=True)` */
  function SortDesc<T>(xs: seq<T>, key: T -> int): (r: seq<T>)
    ensures |r| == |xs|
    decreases |xs|
  {
    if xs == [] then [] else Insert(xs[0], SortDesc(xs[1..], key), key)
  }

  lemma {:induction false} InsertMultiset<T>(x: T, ys: seq<T>, key: T -> int)
    ensures multiset(Insert(x, ys, key)) == multiset(ys) + multiset{x}
    decreases |ys|
  {
    if ys != [] && key(ys[0]) > key(x) {
      InsertMultiset(x, ys[1..], key);
      assert ys == [ys[0]] + ys[1..];
    }
  }

  lemma {:induction false} InsertSorted<T>(x: T, ys: seq<T>, key: T -> int)
    requires SortedDesc(ys, key)
    ensures SortedDesc(Insert(x, ys, key), key)
    decreases |ys|
  {
    if ys != [] && key(ys[0]) > key(x) {
      var tail := ys[1..];
      assert forall j :: 0 <= j < |tail| ==> tail[j] == ys[j + 1];
      InsertSorted(x, tail, key);
      InsertBelow(x, tail, key, key(ys[0]));
      SortedCons(ys[0], Insert(x, tail, key), key);
    }
  }

  /** Inserting below a bound every entry respects keeps every entry below it. */
  lemma {:induction false} InsertBelow<T>(x: T, ys: seq<T>, key: T -> int, b: int)
    requires key(x) <= b && forall j :: 0 <= j < |ys| ==> key(ys[j]) <= b
    ensures forall j :: 0 <= j < |Insert(x, ys, key)| ==> key(Insert(x, ys, key)[j]) <= b
    decreases |ys|
  {
    if ys == [] || key(ys[0]) <= key(x) {
      assert forall j :: 1 <= j < |ys| + 1 ==> ([x] + ys)[j] == ys[j - 1];
    } else {
      var tail := ys[1..];
      assert forall j :: 0 <= j < |tail| ==> tail[j] == ys[j + 1];
      InsertBelow(x, tail, key, b);
      var rest := Insert(x, tail, key);
      assert forall j :: 1 <= j < |rest| + 1 ==> ([ys[0]] + rest)[j] == rest[j - 1];
    }
  }

  /** A head no smaller than every key of a sorted tail gives a sorted list. */
  lemma SortedCons<T>(h: T, r: seq<T>, key: T -> int)
    requires SortedDesc(r, key) && forall j :: 0 <= j < |r| ==> key(r[j]) <= key(h)
    ensures SortedDesc([h] + r, key)
  {
    var l := [h] + r;
    forall i, j | 0 <= i < j < |l| ensures key(l[i]) >= key(l[j]) {
      assert l[j] == r[j - 1];
      if i > 0 {
        assert l[i] == r[i - 1];
      }
    }
  }

  /** Inserting `x` adds `x` to its own key group, in front, and leaves the other groups alone. */
  lemma {:induction false} InsertWithKey<T>(x: T, ys: seq<T>, key: T -> int, k: int)
    ensures WithKey(Insert(x, ys, key), key, k) == (if key(x) == k then [x] else []) + WithKey(ys, key, k)
    decreases |ys|
  {
    if ys == [] || key(ys[0]) <= key(x) {
      assert ([x] + ys)[1..] == ys;
    } else {
      InsertWithKey(x, ys[1..], key, k);
      assert ([ys[0]] + Insert(x, ys[1..], key))[1..] == Insert(x, ys[1..], key);
    }
  }

  /** The result is in non-increasing key order. */
  lemma {:induction false} SortDescSorted<T>(xs: seq<T>, key: T -> int)
    ensures SortedDesc(SortDesc(xs, key), key)
    decreases |xs|
  {
    if xs != [] {
      SortDescSorted(xs[1..], key);
      InsertSorted(xs[0], SortDesc(xs[1..], key), key);
    }
  }

  /** The result is a permutation of the input. */
  lemma {:induction false} SortDescPermutation<T>(xs: seq<T>, key: T -> int)
    ensures multiset(SortDesc(xs, key)) == multiset(xs)
    decreases |xs|
  {
    if xs != [] {
      SortDescPermutation(xs[1..], key);
      InsertMultiset(xs[0], SortDesc(xs[1..], key), key);
      assert xs == [xs[0]] + xs[1..];
    }
  }

  /** Stability: the entries that share a key come out in their input order. */
  lemma {:induction false} SortDescStable<T>(xs: seq<T>, key: T -> int, k: int)
    ensures WithKey(SortDesc(xs, key), key, k) == WithKey(xs, key, k)
    decreases |xs|
  {
    if xs != [] {
      SortDescStable(xs[1..], key, k);
      InsertWithKey(xs[0], SortDesc(xs[1..], key), key, k);
    }
  }

  /** The sorted list holds exactly the entries of the input. */
  lemma SortDescMembers<T>(xs: seq<T>, key: T -> int)
    ensures forall x :: x in SortDesc(xs, key) <==> x in xs
  {
    SortDescPermutation(xs, key);
    forall x ensures x in SortDesc(xs, key) <==> x in xs {
      assert x in SortDesc(xs, key) <==> x in multiset(SortDesc(xs, key));
      assert x in xs <==> x in multiset(xs);
    }
  }

  /** A filtered entry is an entry of the input, and every entry that passes is kept. */
  lemma {:induction false} FilterMembers<T>(xs: seq<T>, p: T -> bool)
    ensures forall x :: x in Filter(xs, p) <==> x in xs && p(x)
    decreases |xs|
  {
    if xs != [] {
      FilterMembers(xs[1..], p);
      assert xs == [xs[0]] + xs[1..];
    }
  }
}
