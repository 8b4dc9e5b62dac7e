/**
 * `std::sort` on points, under the two orders the core sorts by: one
 * coordinate (`Node::Split`) and the distance from a query point (the leaf
 * queries and `NNearestFinder`). The comparators are named by a datatype
 * rather than passed as functions, so that the order is a plain function of
 * its arguments.
 */
module Sorting {
  import opened Points
  import opened Metrics

  /** A sort order on points. */
  datatype Order = OnAxis(axis: Axis) | ByDistanceFrom(q: Point)

  /** The value a point is sorted by. */
  function KeyOf(o: Order, p: Point): real {
    match o
    case OnAxis(axis) => p.coords[axis]
    case ByDistanceFrom(q) => SquaredDist(q, p)
  }

  /** `s` is in non-decreasing order of its keys. */
  predicate SortedBy(s: seq<Point>, o: Order) {
    forall i, j :: 0 <= i < j < |s| ==> KeyOf(o, s[i]) <= KeyOf(o, s[j])
  }

  /** Every element of a sorted sequence's tail is at least its head. */
  lemma {:induction false} HeadIsLeast(s: seq<Point>, o: Order, y: Point)
    requires SortedBy(s, o) && |s| >= 1 && y in multiset(s[1..])
    ensures KeyOf(o, s[0]) <= KeyOf(o, y)
  {
    assert y in s[1..];
    var j :| 0 <= j < |s[1..]| && s[1..][j] == y;
    assert s[j + 1] == y;
  }

  /** Inserts `x` before the first element of `s` with a larger key. */
  function InsertSorted(x: Point, s: seq<Point>, o: Order): (r: seq<Point>)
    ensures |r| == |s| + 1
  {
    if s == [] then [x]
    else if KeyOf(o, x) <= KeyOf(o, s[0]) then [x] + s
    else [s[0]] + InsertSorted(x, s[1..], o)
  }

  /**
   * `std::sort` under `o`, as an insertion sort. It keeps equal keys in input
   * order: one of the orders `std::sort` may produce, which fixes a tie order
   * the library leaves open.
   */
  function SortBy(s: seq<Point>, o: Order): (r: seq<Point>)
    ensures |r| == |s|
  {
    if s == [] then [] else InsertSorted(s[0], SortBy(s[1..], o), o)
  }

  /** Insertion adds exactly `x`. */
  lemma {:induction false} InsertSortedCounts(x: Point, s: seq<Point>, o: Order)
    ensures multiset(InsertSorted(x, s, o)) == multiset(s) + multiset{x}
  {
    if s != [] {
      assert s == [s[0]] + s[1..];
      if KeyOf(o, x) > KeyOf(o, s[0]) {
        InsertSortedCounts(x, s[1..], o);
      }
    }
  }

  /** Insertion keeps a sorted sequence sorted. */
  lemma {:induction false} InsertSortedIsSorted(x: Point, s: seq<Point>, o: Order)
    requires SortedBy(s, o)
    ensures SortedBy(InsertSorted(x, s, o), o)
  {
    if s != [] && KeyOf(o, x) > KeyOf(o, s[0]) {
      var rest := InsertSorted(x, s[1..], o);
      assert s == [s[0]] + s[1..];
      InsertSortedCounts(x, s[1..], o);
      InsertSortedIsSorted(x, s[1..], o);
      forall j | 0 <= j < |rest|
        ensures KeyOf(o, s[0]) <= KeyOf(o, rest[j])
      {
        assert rest[j] in multiset(rest);
        if rest[j] != x {
          HeadIsLeast(s, o, rest[j]);
        }
      }
      assert InsertSorted(x, s, o) == [s[0]] + rest;
    }
  }

  /** `SortBy` returns a sorted permutation of its input. */
  lemma {:induction false} SortByIsSortedPermutation(s: seq<Point>, o: Order)
    ensures SortedBy(SortBy(s, o), o)
    ensures multiset(SortBy(s, o)) == multiset(s)
  {
    if s != [] {
      assert s == [s[0]] + s[1..];
      SortByIsSortedPermutation(s[1..], o);
      InsertSortedCounts(s[0], SortBy(s[1..], o), o);
      InsertSortedIsSorted(s[0], SortBy(s[1..], o), o);
    }
  }

  /** The front of a sorted permutation of a non-empty sequence is one of its
      elements with the least key. */
  lemma SortedFrontIsLeast(r: seq<Point>, s: seq<Point>, o: Order)
    requires SortedBy(r, o) && multiset(r) == multiset(s) && |s| >= 1
    ensures |r| == |s| && r[0] in s
    ensures forall x :: x in s ==> KeyOf(o, r[0]) <= KeyOf(o, x)
  {
    assert |r| == |multiset(r)| == |s|;
    assert r[0] in multiset(r);
    forall x | x in s
      ensures KeyOf(o, r[0]) <= KeyOf(o, x)
    {
      assert x in multiset(r);
      var j :| 0 <= j < |r| && r[j] == x;
    }
  }

  /** Two points with distinct keys have exactly one sorted order. */
  lemma SortedPairIsOrdered(r: seq<Point>, a: Point, b: Point, o: Order)
    requires SortedBy(r, o) && multiset(r) == multiset([a, b]) && KeyOf(o, a) < KeyOf(o, b)
    ensures r == [a, b]
  {
    assert |r| == |multiset(r)| == 2;
    assert r == [r[0], r[1]];
    assert KeyOf(o, r[0]) <= KeyOf(o, r[1]);
    assert multiset{r[0], r[1]} == multiset{a, b};
  }

  /** A sorted permutation `s` of `t` cut at `k`: the prefix is sorted, it is
      drawn from `t`, and nothing in it has a larger key than what it leaves of `t`. */
  lemma SortedPrefix(s: seq<Point>, t: seq<Point>, k: nat, o: Order)
    requires SortedBy(s, o) && multiset(s) == multiset(t) && k <= |s|
    ensures SortedBy(s[..k], o)
    ensures multiset(s[..k]) <= multiset(t)
    ensures forall x, y :: x in s[..k] && y in multiset(t) - multiset(s[..k]) ==> KeyOf(o, x) <= KeyOf(o, y)
  {
    assert s == s[..k] + s[k..];
    assert multiset(s) == multiset(s[..k]) + multiset(s[k..]);
    forall x, y | x in s[..k] && y in multiset(t) - multiset(s[..k])
      ensures KeyOf(o, x) <= KeyOf(o, y)
    {
      var i :| 0 <= i < k && s[..k][i] == x;
      assert y in s[k..];
      var j :| 0 <= j < |s| - k && s[k..][j] == y;
      assert s[i] == x && s[k + j] == y;
    }
  }
}
