/** Sequence operations that the SQL queries and the list updates of the
    application denote: `WHERE` / `Array.prototype.filter`, first-row lookups and
    `ORDER BY key DESC`. */
module Ordering {
  import opened Wrappers

  /** `xs` appears in `ys` in the same relative order. */
  predicate IsSubsequence<T(==)>(xs: seq<T>, ys: seq<T>)
    decreases |ys|
  {
    if |xs| == 0 then true
    else if |ys| == 0 then false
    else if xs[0] == ys[0] then IsSubsequence(xs[1..], ys[1..])
    else IsSubsequence(xs, ys[1..])
  }

  /** The elements of `xs` that satisfy `p`, in their original order. */
  function Filter<T(==)>(xs: seq<T>, p: T -> bool): (r: seq<T>)
    ensures |r| <= |xs|
    ensures forall i :: 0 <= i < |r| ==> r[i] in xs
    ensures forall i :: 0 <= i < |xs| && p(xs[i]) ==> xs[i] in r
    ensures forall i :: 0 <= i < |r| ==> p(r[i])
    ensures IsSubsequence(r, xs)
    ensures (forall i :: 0 <= i < |xs| ==> p(xs[i])) ==> r == xs
    ensures |r| == |xs| ==> r == xs
  {
    if |xs| == 0 then []
    else
      var rest := Filter(xs[1..], p);
      if p(xs[0]) then
        assert ([xs[0]] + rest)[1..] == rest;
        [xs[0]] + rest
      else rest
  }

  /** Number of elements of `xs` that satisfy `p` (SQL `affectedRows` of a `WHERE`). */
  function Count<T(==)>(xs: seq<T>, p: T -> bool): (n: nat)
    ensures n <= |xs|
    ensures n == 0 <==> forall i :: 0 <= i < |xs| ==> !p(xs[i])
  {
    if |xs| == 0 then 0 else (if p(xs[0]) then 1 else 0) + Count(xs[1..], p)
  }

  /** The first element satisfying `p` (`rows[0]` of a `SELECT ... WHERE`), if any. */
  function First<T>(xs: seq<T>, p: T -> bool): (r: Option<T>)
    ensures r.None? <==> forall i :: 0 <= i < |xs| ==> !p(xs[i])
    ensures r.Some? ==> exists i :: 0 <= i < |xs| && xs[i] == r.value && p(xs[i])
                                   && forall j :: 0 <= j < i ==> !p(xs[j])
  {
    if |xs| == 0 then None
    else if p(xs[0]) then Some(xs[0])
    else
      var r := First(xs[1..], p);
      if r.Some? then
        ghost var i :| 0 <= i < |xs[1..]| && xs[1..][i] == r.value && p(xs[1..][i])
                      && forall j :: 0 <= j < i ==> !p(xs[1..][j]);
        assert xs[i + 1] == r.value;
        r
      else r
  }

  /** The element `First` returns is the one at the first index satisfying `p`. */
  lemma FirstAt<T>(xs: seq<T>, p: T -> bool, i: nat)
    requires i < |xs| && p(xs[i]) && forall j :: 0 <= j < i ==> !p(xs[j])
    ensures First(xs, p) == Some(xs[i])
  {
    var r := First(xs, p);
    var k :| 0 <= k < |xs| && xs[k] == r.value && p(xs[k]) && forall j :: 0 <= j < k ==> !p(xs[j]);
    assert k == i;
  }

  /** `Math.floor(roll * n)` for a `Math.random()` value: a valid index below `n`. */
  function RandomIndex(roll: real, n: nat): (i: nat)
    requires 0.0 <= roll < 1.0 && n > 0
    ensures i < n
    ensures i as real <= roll * n as real < i as real + 1.0
  {
    var size := n as real;
    assert size - roll * size == (1.0 - roll) * size;
    assert (1.0 - roll) * size > 0.0;
    (roll * size).Floor
  }

  predicate SortedDesc<T>(xs: seq<T>, key: T -> int) {
    forall i, j :: 0 <= i < j < |xs| ==> key(xs[i]) >= key(xs[j])
  }

  function Insert<T>(x: T, xs: seq<T>, key: T -> int): (r: seq<T>)
    requires SortedDesc(xs, key)
    ensures SortedDesc(r, key)
    ensures multiset(r) == multiset(xs) + multiset{x}
    ensures |r| == |xs| + 1
    ensures key(r[0]) == key(x) || (|xs| > 0 && key(r[0]) == key(xs[0]))
  {
    if |xs| == 0 then [x]
    else if key(x) >= key(xs[0]) then
      assert multiset([x] + xs) == multiset{x} + multiset(xs);
      [x] + xs
    else
      var rest := Insert(x, xs[1..], key);
      assert xs == [xs[0]] + xs[1..];
      assert key(xs[0]) >= key(rest[0]);
      var r := [xs[0]] + rest;
      assert multiset(r) == multiset{xs[0]} + multiset(rest);
      assert multiset(xs) == multiset{xs[0]} + multiset(xs[1..]);
      assert forall j :: 0 < j < |r| ==> key(r[0]) >= key(r[j]) by {
        forall j | 0 < j < |r| ensures key(r[0]) >= key(r[j]) {
          assert r[j] == rest[j - 1];
        }
      }
      r
  }

  /** `ORDER BY key DESC`: a permutation of `xs` sorted by decreasing key; rows with
      equal keys keep their input order. */
  function SortDesc<T>(xs: seq<T>, key: T -> int): (r: seq<T>)
    ensures SortedDesc(r, key)
    ensures multiset(r) == multiset(xs)
    ensures |r| == |xs|
  {
    if |xs| == 0 then []
    else
      assert xs == [xs[0]] + xs[1..];
      Insert(xs[0], SortDesc(xs[1..], key), key)
  }
  /** `Array.prototype.map`. */
  function Map<T, U>(xs: seq<T>, f: T -> U): (r: seq<U>)
    ensures |r| == |xs|
    ensures forall i :: 0 <= i < |xs| ==> r[i] == f(xs[i])
  {
    if |xs| == 0 then [] else [f(xs[0])] + Map(xs[1..], f)
  }

  lemma MapConcat<T, U>(xs: seq<T>, ys: seq<T>, f: T -> U)
    ensures Map(xs + ys, f) == Map(xs, f) + Map(ys, f)
  {
  }

  /** Mapping after `Insert` gives the same multiset as mapping before it. */
  lemma {:induction false} MapOfInsert<T, U>(x: T, xs: seq<T>, key: T -> int, f: T -> U)
    requires SortedDesc(xs, key)
    ensures multiset(Map(Insert(x, xs, key), f)) == multiset{f(x)} + multiset(Map(xs, f))
  {
    if |xs| == 0 {
    } else if key(x) >= key(xs[0]) {
      MapConcat([x], xs, f);
    } else {
      assert SortedDesc(xs[1..], key);
      MapOfInsert(x, xs[1..], key, f);
      MapConcat([xs[0]], Insert(x, xs[1..], key), f);
      MapConcat([xs[0]], xs[1..], f);
      assert xs == [xs[0]] + xs[1..];
    }
  }

  /** Sorting does not change which values a map produces, nor how often. */
  lemma {:induction false} MapOfSortDesc<T, U>(xs: seq<T>, key: T -> int, f: T -> U)
    ensures multiset(Map(SortDesc(xs, key), f)) == multiset(Map(xs, f))
  {
    if |xs| > 0 {
      MapOfSortDesc(xs[1..], key, f);
      MapOfInsert(xs[0], SortDesc(xs[1..], key), key, f);
      MapConcat([xs[0]], xs[1..], f);
      assert xs == [xs[0]] + xs[1..];
    }
  }
  /** `Count` is the length of `Filter`. */
  lemma {:induction false} CountIsFilterLength<T>(xs: seq<T>, p: T -> bool)
    ensures Count(xs, p) == |Filter(xs, p)|
  {
    if |xs| > 0 {
      CountIsFilterLength(xs[1..], p);
    }
  }

  /** Filtering a sequence with one more element at the end. */
  lemma {:induction false} FilterAppend<T>(xs: seq<T>, x: T, p: T -> bool)
    ensures Filter(xs + [x], p) == Filter(xs, p) + (if p(x) then [x] else [])
  {
    if |xs| > 0 {
      assert (xs + [x])[1..] == xs[1..] + [x];
      FilterAppend(xs[1..], x, p);
    }
  }

  /** A second, narrower filter sees through the first. */
  lemma {:induction false} FilterOfFilter<T>(xs: seq<T>, p: T -> bool, q: T -> bool)
    requires forall x :: q(x) ==> p(x)
    ensures Filter(Filter(xs, p), q) == Filter(xs, q)
  {
    if |xs| > 0 {
      FilterOfFilter(xs[1..], p, q);
      if p(xs[0]) {
        assert ([xs[0]] + Filter(xs[1..], p))[1..] == Filter(xs[1..], p);
      }
    }
  }

  /** Every element is kept by exactly one of a filter and its complement. */
  lemma {:induction false} FilterSplits<T>(xs: seq<T>, p: T -> bool, q: T -> bool)
    requires forall x :: q(x) == !p(x)
    ensures |Filter(xs, p)| + |Filter(xs, q)| == |xs|
  {
    if |xs| > 0 {
      FilterSplits(xs[1..], p, q);
    }
  }
}
