/**
 * A node of the K-D tree (include/Node.hxx). A leaf stores a bucket of points;
 * a split node stores none and routes points to its two children by comparing
 * one coordinate, the node's axis, with its median.
 */
module Nodes {
  import opened Points
  import opened Metrics
  import opened Algorithms
  import opened Sorting
  import JJUtils

  /**
   * `std::remove` with `Point::operator==`, followed by `erase`: the points of
   * `s` that do not compare equal to `p`, in their original order.
   */
  function RemoveAll(s: seq<Point>, p: Point): (r: seq<Point>)
    ensures forall x :: x in r <==> x in s && !Equal(x, p)
    ensures forall x :: multiset(r)[x] == if Equal(x, p) then 0 else multiset(s)[x]
    ensures |r| == |s| <==> forall x :: x in s ==> !Equal(x, p)
    ensures (forall x :: x in s ==> !Equal(x, p)) ==> r == s
  {
    var keep := (x: Point) => !Equal(x, p);
    FilterCounts(s, keep);
    FilterKeepsAll(s, keep);
    Filter(s, keep)
  }

  /**
   * The median `Split` computes from the points sorted on `axis`: the mean of
   * the two middle coordinates when the count is even, otherwise the
   * coordinate of the first point of the upper (larger) half.
   */
  function MedianOf(s: seq<Point>, axis: Axis): real
    requires |s| >= 1
  {
    var h := |s| / 2;
    if |s| % 2 == 0 then (s[h - 1].coords[axis] + s[h].coords[axis]) / 2.0 else s[h].coords[axis]
  }

  /** On a sequence sorted on `axis`, the median separates the lower half from
      the upper half. */
  lemma MedianSeparates(s: seq<Point>, axis: Axis)
    requires |s| >= 1 && SortedBy(s, OnAxis(axis))
    ensures forall x :: x in s[..|s| / 2] ==> x.coords[axis] <= MedianOf(s, axis)
    ensures forall x :: x in s[|s| / 2..] ==> MedianOf(s, axis) <= x.coords[axis]
  {
    var h := |s| / 2;
    assert forall i :: 0 <= i < h ==> KeyOf(OnAxis(axis), s[i]) <= KeyOf(OnAxis(axis), s[h]);
    assert forall i :: h <= i < |s| ==> KeyOf(OnAxis(axis), s[h]) <= KeyOf(OnAxis(axis), s[i]);
    if |s| % 2 == 0 {
      assert forall i :: 0 <= i < h ==> KeyOf(OnAxis(axis), s[i]) <= KeyOf(OnAxis(axis), s[h - 1]);
    }
  }

  /** `FindNearest` on a bucket: the default point when the bucket is empty,
      otherwise a stored point at the least distance from `q`. */
  function NearestIn(data: seq<Point>, q: Point): (r: Point)
    ensures data == [] ==> r == DefaultPoint()
    ensures data != [] ==> r in data && forall x :: x in data ==> SquaredDist(q, r) <= SquaredDist(q, x)
  {
    if data == [] then DefaultPoint()
    else
      var s := SortBy(data, ByDistanceFrom(q));
      SortByIsSortedPermutation(data, ByDistanceFrom(q));
      SortedFrontIsLeast(s, data, ByDistanceFrom(q));
      s[0]
  }

  /** `FindNNearest` on a bucket: the `min(n, |data|)` stored points nearest
      to `q`, in non-decreasing distance. */
  function NNearestIn(data: seq<Point>, q: Point, n: nat): (r: seq<Point>)
    ensures |r| == Min(n, |data|)
    ensures SortedBy(r, ByDistanceFrom(q))
    ensures multiset(r) <= multiset(data)
  {
    var s := SortBy(data, ByDistanceFrom(q));
    var k := Min(n, |s|);
    SortByIsSortedPermutation(data, ByDistanceFrom(q));
    SortedPrefix(s, data, k, ByDistanceFrom(q));
    s[..k]
  }

  /** No stored point that `FindNNearest` leaves out is nearer to `q` than one
      it returns. */
  lemma NNearestInIsNearest(data: seq<Point>, q: Point, n: nat)
    ensures var r := NNearestIn(data, q, n);
      forall x, y :: x in r && y in multiset(data) - multiset(r) ==> SquaredDist(q, x) <= SquaredDist(q, y)
  {
    var s := SortBy(data, ByDistanceFrom(q));
    SortByIsSortedPermutation(data, ByDistanceFrom(q));
    SortedPrefix(s, data, Min(n, |s|), ByDistanceFrom(q));
  }

  /** On a non-empty bucket, `FindNearest` answers with the single point
      `FindNNearest` returns when asked for one. */
  lemma NearestIsFirstOfNNearest(data: seq<Point>, q: Point)
    requires data != []
    ensures NNearestIn(data, q, 1) == [NearestIn(data, q)]
  {
  }

  /**
   * Two points at the all-zero and the all-one coordinates, sorted on axis 0,
   * keep their order and have the median 0.5 between them.
   */
  lemma TwoPointMedian(a: Point, b: Point)
    requires a.coords == Origin() && b.coords == seq(Dims, _ => 1.0)
    ensures SortBy([a, b], OnAxis(0)) == [a, b]
    ensures MedianOf(SortBy([a, b], OnAxis(0)), 0) == 0.5
  {
    SortByIsSortedPermutation([a, b], OnAxis(0));
    SortedPairIsOrdered(SortBy([a, b], OnAxis(0)), a, b, OnAxis(0));
  }

  /** `FindWithinDistance` on a bucket: the stored points whose distance from
      `q` is at most `dist`, each as often as it is stored. */
  function WithinDistance(data: seq<Point>, q: Point, dist: real): (r: seq<Point>)
    ensures forall x :: x in r <==> x in data && SquaredDist(q, x) <= dist
    ensures forall x :: multiset(r)[x] == if SquaredDist(q, x) <= dist then multiset(data)[x] else 0
  {
    var near := (x: Point) => SquaredDist(q, x) <= dist;
    FilterCounts(data, near);
    Filter(data, near)
  }

  /** The first part of `Split`: sorts `data` on `axis`, halves it (the larger
      half going right) and computes the median between the halves. */
  method Halve(data: seq<Point>, axis: Axis) returns (first: seq<Point>, second: seq<Point>, m: real)
    requires |data| >= 1
    ensures first + second == SortBy(data, OnAxis(axis))
    ensures var s := SortBy(data, OnAxis(axis)); first == s[..|s| / 2] && second == s[|s| / 2..]
    ensures m == MedianOf(SortBy(data, OnAxis(axis)), axis)
    ensures multiset(first) + multiset(second) == multiset(data)
    ensures |first| == |data| / 2 && |second| == |data| - |data| / 2
    ensures forall x :: x in first ==> x.coords[axis] <= m
    ensures forall x :: x in second ==> m <= x.coords[axis]
  {
    var sorted := SortBy(data, OnAxis(axis));
    SortByIsSortedPermutation(data, OnAxis(axis));
    MedianSeparates(sorted, axis);
    first, second := JJUtils.Split(sorted);
    assert first == sorted[..|sorted| / 2] && second == sorted[|sorted| / 2..];
    if |first| == |second| {
      m := (first[|first| - 1].coords[axis] + second[0].coords[axis]) / 2.0;
    } else {
      m := second[0].coords[axis];
    }
    assert multiset(sorted) == multiset(first) + multiset(second);
  }

  class Node {
    var isSplit: bool
    var median: real
    const depth: nat
    const dimensionIndex: Axis
    const bucketSize: nat
    var storedData: seq<Point>
    var left: Node?
    var right: Node?
    /** The nodes of this subtree, this one included. */
    ghost var Repr: set<Node>

    /** The shape of the subtree: a leaf has no children; a split node has two
        disjoint subtrees one level deeper. The stored points play no part. */
    ghost predicate Shape()
      reads this`Repr, Repr`isSplit, Repr`left, Repr`right, Repr`Repr
      decreases Repr
    {
      this in Repr && bucketSize >= 1 && dimensionIndex == depth % Dims &&
      if !isSplit then
        left == null && right == null && Repr == {this}
      else
        left != null && right != null &&
        left in Repr && right in Repr &&
        left.Repr <= Repr && right.Repr <= Repr &&
        this !in left.Repr && this !in right.Repr && left.Repr !! right.Repr &&
        Repr == {this} + left.Repr + right.Repr &&
        left.depth == depth + 1 && right.depth == depth + 1 &&
        left.bucketSize == bucketSize && right.bucketSize == bucketSize &&
        left.Shape() && right.Shape()
    }

    /** The shape, and every bucket within its size: leaves hold at most
        `bucketSize` points and split nodes hold none. */
    ghost predicate Valid()
      reads this`Repr, Repr`isSplit, Repr`left, Repr`right, Repr`Repr, Repr`storedData
    {
      Shape() &&
      forall m :: m in Repr ==> if m.isSplit then m.storedData == [] else |m.storedData| <= m.bucketSize
    }

    /** The points stored in the leaves of this subtree. */
    ghost function Points(): multiset<Point>
      reads this`Repr, Repr`isSplit, Repr`left, Repr`right, Repr`Repr, Repr`storedData
      requires Shape()
      decreases Repr
    {
      if !isSplit then multiset(storedData) else left.Points() + right.Points()
    }

    /** Every split node separates its subtrees: coordinates on its axis are at
        most the median on the left and at least the median on the right. */
    ghost predicate Partitioned()
      reads this`Repr, Repr`isSplit, Repr`left, Repr`right, Repr`Repr, Repr`storedData, Repr`median
      requires Shape()
      decreases Repr
    {
      isSplit ==>
        (forall x :: x in left.Points() ==> x.coords[dimensionIndex] <= median) &&
        (forall x :: x in right.Points() ==> median <= x.coords[dimensionIndex]) &&
        left.Partitioned() && right.Partitioned()
    }

    /**
     * Builds a node at `depth` holding `data`; it splits when `data` exceeds
     * the bucket. A bucket size of zero would make splitting recurse forever.
     */
    constructor (data: seq<Point>, depth: nat, bucketSize: nat)
      requires bucketSize >= 1
      ensures Valid() && Partitioned() && fresh(Repr)
      ensures this.depth == depth && this.bucketSize == bucketSize && dimensionIndex == depth % Dims
      ensures isSplit <==> |data| > bucketSize
      ensures !isSplit ==> storedData == data && median == 0.0
      ensures isSplit ==> storedData == [] && median == MedianOf(SortBy(data, OnAxis(dimensionIndex)), dimensionIndex)
      ensures Points() == multiset(data)
      decreases |data|, if |data| > bucketSize then 3 else 0
    {
      isSplit := false;
      median := 0.0;
      this.depth := depth;
      dimensionIndex := depth % Dims;
      this.bucketSize := bucketSize;
      storedData := data;
      left := null;
      right := null;
      Repr := {this};
      new;
      if |storedData| > bucketSize {
        Split();
        assert forall o :: o in Repr ==> o == this || o in left.Repr || o in right.Repr;
      }
    }

    /**
     * Sorts the bucket on the node's axis, halves it (the larger half going
     * right), sets the median between the halves and hands the halves to two
     * new children one level deeper, each of which splits again if needed.
     */
    method Split()
      requires Shape() && !isSplit && |storedData| >= 1
      modifies this
      ensures Valid() && Partitioned()
      ensures isSplit && storedData == [] && left != null && right != null
      ensures Repr == {this} + left.Repr + right.Repr && fresh(left.Repr) && fresh(right.Repr)
      ensures Points() == multiset(old(storedData))
      ensures median == MedianOf(SortBy(old(storedData), OnAxis(dimensionIndex)), dimensionIndex)
      ensures var s := SortBy(old(storedData), OnAxis(dimensionIndex));
        left.Points() == multiset(s[..|s| / 2]) && right.Points() == multiset(s[|s| / 2..])
      ensures var n := |old(storedData)|;
        |left.Points()| == n / 2 && |right.Points()| == n - n / 2 &&
        (left.isSplit <==> n / 2 > bucketSize) && (right.isSplit <==> n - n / 2 > bucketSize) &&
        left.depth == depth + 1 && right.depth == depth + 1
      decreases |storedData|, 2
    {
      var first, second, m := Halve(storedData, dimensionIndex);
      var l, r := MakeChildren(first, second, depth + 1, bucketSize);
      Attach(l, r, m);
    }

    /** The last part of `Split`: the leaf becomes a split node with median `m`
        and children `l` and `r`, which `m` separates. */
    method Attach(l: Node, r: Node, m: real)
      requires Shape() && !isSplit
      requires l.Valid() && l.Partitioned() && r.Valid() && r.Partitioned()
      requires this !in l.Repr && this !in r.Repr && l.Repr !! r.Repr
      requires l.depth == depth + 1 && r.depth == depth + 1
      requires l.bucketSize == bucketSize && r.bucketSize == bucketSize
      requires forall x :: x in l.Points() ==> x.coords[dimensionIndex] <= m
      requires forall x :: x in r.Points() ==> m <= x.coords[dimensionIndex]
      modifies this
      ensures Valid() && Partitioned()
      ensures isSplit && storedData == [] && median == m && left == l && right == r
      ensures Repr == {this} + l.Repr + r.Repr
      ensures l.Points() == old(l.Points()) && r.Points() == old(r.Points())
      ensures Points() == l.Points() + r.Points()
    {
      label Built:
      isSplit, storedData, median, left, right, Repr := true, [], m, l, r, {this} + l.Repr + r.Repr;
      Untouched@Built(l);
      Untouched@Built(r);
      Join(this);
    }

    /** The two children `Split` allocates, one for each half. */
    static method MakeChildren(first: seq<Point>, second: seq<Point>, depth: nat, bucketSize: nat)
      returns (l: Node, r: Node)
      requires bucketSize >= 1 && |first| <= |second| <= |first| + 1
      ensures fresh(l.Repr) && fresh(r.Repr) && l.Repr !! r.Repr
      ensures l.Valid() && l.Partitioned() && r.Valid() && r.Partitioned()
      ensures l.depth == depth && r.depth == depth && l.bucketSize == bucketSize && r.bucketSize == bucketSize
      ensures l.Points() == multiset(first) && r.Points() == multiset(second)
      ensures l.isSplit <==> |first| > bucketSize
      ensures r.isSplit <==> |second| > bucketSize
      ensures !l.isSplit ==> l.storedData == first
      ensures !r.isSplit ==> r.storedData == second
      decreases |first| + |second|, 1
    {
      l := new Node(first, depth, bucketSize);
      label LeftBuilt:
      r := new Node(second, depth, bucketSize);
      Untouched@LeftBuilt(l);
    }

    /** `GetChild`: the right child when the point lies strictly above the
        median on this node's axis, otherwise the left child. */
    function GetChild(p: Point): (c: Node?)
      reads this`median, this`left, this`right, this`Repr, Repr`isSplit, Repr`left, Repr`right, Repr`Repr
      ensures Shape() && isSplit ==>
        c != null && c in Repr && c.Repr < Repr && c.Shape() && c.depth == depth + 1 &&
        (c == right <==> p.coords[dimensionIndex] > median) &&
        (c == left <==> p.coords[dimensionIndex] <= median)
    {
      if p.coords[dimensionIndex] > median then right else left
    }

    /**
     * `AddPoint`: a split node refuses the point; a leaf appends it and splits
     * once it holds more than `bucketSize` points.
     */
    method AddPoint(p: Point) returns (added: bool)
      requires Valid()
      modifies this
      ensures added == !old(isSplit)
      ensures Valid() && fresh(Repr - old(Repr))
      ensures !added ==> unchanged(this)
      ensures added ==> Points() == old(Points()) + multiset{p}
      ensures added ==> (isSplit <==> |old(storedData)| + 1 > bucketSize)
      ensures added && !isSplit ==> storedData == old(storedData) + [p] && Repr == old(Repr)
      ensures added && isSplit ==>
        var n := |old(storedData)| + 1;
        storedData == [] && median == MedianOf(SortBy(old(storedData) + [p], OnAxis(dimensionIndex)), dimensionIndex) &&
        |left.Points()| == n / 2 && |right.Points()| == n - n / 2
      ensures old(Partitioned()) ==> Partitioned()
    {
      if isSplit {
        return false;
      }
      storedData := storedData + [p];
      if |storedData| > bucketSize {
        Split();
      }
      return true;
    }

    /**
     * `RemovePoint`: erases every stored point equal to `p` (same payload). It
     * reports whether any was found; when none was, nothing changes.
     */
    method RemovePoint(p: Point) returns (removed: bool)
      modifies this`storedData
      ensures storedData == RemoveAll(old(storedData), p)
      ensures removed <==> exists x :: x in old(storedData) && Equal(x, p)
      ensures old(Valid()) ==> Valid()
    {
      var kept := RemoveAll(storedData, p);
      if |kept| == |storedData| {
        return false;
      }
      storedData := kept;
      return true;
    }

    /**
     * `FindNearest`: on an empty bucket the default point; otherwise the bucket
     * is sorted by distance from `q` and its front is returned.
     */
    method FindNearest(q: Point) returns (r: Point)
      modifies this`storedData
      ensures r == NearestIn(old(storedData), q)
      ensures storedData == if old(storedData) == [] then [] else SortBy(old(storedData), ByDistanceFrom(q))
      ensures multiset(storedData) == multiset(old(storedData))
    {
      if storedData == [] {
        return DefaultPoint();
      }
      SortByIsSortedPermutation(storedData, ByDistanceFrom(q));
      storedData := SortBy(storedData, ByDistanceFrom(q));
      r := storedData[0];
    }

    /**
     * `FindNNearest`: on an empty bucket nothing; otherwise the bucket is sorted
     * by distance from `q` and its first `min(n, size)` points are returned.
     */
    method FindNNearest(q: Point, n: nat) returns (r: seq<Point>)
      modifies this`storedData
      ensures r == NNearestIn(old(storedData), q, n)
      ensures storedData == if old(storedData) == [] then [] else SortBy(old(storedData), ByDistanceFrom(q))
      ensures multiset(storedData) == multiset(old(storedData))
    {
      if storedData == [] {
        return [];
      }
      SortByIsSortedPermutation(storedData, ByDistanceFrom(q));
      storedData := SortBy(storedData, ByDistanceFrom(q));
      r := storedData[..Min(n, |storedData|)];
    }

    /** `FindWithinDistance`: the stored points within `dist` of `q`, in stored
        order; the bucket is left as it is. */
    method FindWithinDistance(q: Point, dist: real) returns (r: seq<Point>)
      ensures r == WithinDistance(storedData, q, dist)
    {
      if storedData == [] {
        return [];
      }
      r := Filter(storedData, (x: Point) => SquaredDist(q, x) <= dist);
    }
  }

  /** A subtree none of whose nodes changed keeps its shape, validity, points
      and partition. */
  twostate lemma Untouched(n: Node)
    requires old(n.Valid()) && unchanged(old(n.Repr))
    ensures n.Valid() && n.Repr == old(n.Repr) && n.Points() == old(n.Points())
    ensures old(n.Partitioned()) ==> n.Partitioned()
  {
  }

  /** A split node whose children are valid, disjoint subtrees one level
      deeper is valid, holds their points, and is partitioned when its median
      separates them. */
  lemma Join(n: Node)
    requires n.isSplit && n.storedData == [] && n.bucketSize >= 1 && n.dimensionIndex == n.depth % Dims
    requires n.left != null && n.right != null && n.left.Valid() && n.right.Valid()
    requires n.left.depth == n.depth + 1 && n.right.depth == n.depth + 1
    requires n.left.bucketSize == n.bucketSize && n.right.bucketSize == n.bucketSize
    requires n !in n.left.Repr && n !in n.right.Repr && n.left.Repr !! n.right.Repr
    requires n.Repr == {n} + n.left.Repr + n.right.Repr
    ensures n.Valid() && n.Points() == n.left.Points() + n.right.Points()
    ensures n.Partitioned() <==>
      (forall x :: x in n.left.Points() ==> x.coords[n.dimensionIndex] <= n.median) &&
      (forall x :: x in n.right.Points() ==> n.median <= x.coords[n.dimensionIndex]) &&
      n.left.Partitioned() && n.right.Partitioned()
  {
  }

  /** Every node of a subtree heads a well-shaped subtree of its own. */
  lemma {:induction false} ReprClosed(n: Node, m: Node)
    requires n.Shape() && m in n.Repr
    ensures m.Shape() && m.Repr <= n.Repr
    decreases n.Repr
  {
    if m != n {
      if m in n.left.Repr {
        ReprClosed(n.left, m);
      } else {
        ReprClosed(n.right, m);
      }
    }
  }

  /** Validity and the partition property are inherited by every subtree. */
  lemma {:induction false} ValidClosed(n: Node, m: Node)
    requires n.Valid() && m in n.Repr
    ensures m.Valid() && m.Repr <= n.Repr
    ensures n.Partitioned() ==> m.Partitioned()
    decreases n.Repr
  {
    ReprClosed(n, m);
    if m != n {
      if m in n.left.Repr {
        ValidClosed(n.left, m);
      } else {
        ValidClosed(n.right, m);
      }
    }
  }
}
