/**
 * The path walker and the actions built on it (include/Actions.hxx). Every
 * action object owns a `Visitor`, whose recorded path grows with every visit
 * and is never cleared.
 */
module Actions {
  import opened Points
  import opened Metrics
  import opened Algorithms
  import opened Sorting
  import opened Nodes

  /** The nodes `Visit` passes from `n` down to the leaf `p` routes to, leaf first. */
  ghost function Route(n: Node, p: Point): (r: seq<Node>)
    reads n.Repr
    requires n.Shape()
    ensures |r| >= 1 && r[|r| - 1] == n && !r[0].isSplit && r[0] in n.Repr
    decreases n.Repr
  {
    if !n.isSplit then [n] else Route(n.GetChild(p), p) + [n]
  }

  /** Every node of a route belongs to the subtree, and each one is the child
      `p` routes to from the split node after it. */
  lemma {:induction false} RouteSteps(n: Node, p: Point)
    requires n.Shape()
    ensures forall m :: m in Route(n, p) ==> m in n.Repr
    ensures var r := Route(n, p);
      forall i :: 1 <= i < |r| ==> r[i].isSplit && r[i - 1] == r[i].GetChild(p)
    decreases n.Repr
  {
    if n.isSplit {
      var c := n.GetChild(p);
      RouteSteps(c, p);
      var r := Route(n, p);
      assert r == Route(c, p) + [n];
      forall i | 1 <= i < |r|
        ensures r[i].isSplit && r[i - 1] == r[i].GetChild(p)
      {
        if i < |r| - 1 {
          assert r[i] == Route(c, p)[i] && r[i - 1] == Route(c, p)[i - 1];
        }
      }
    }
  }

  /** The leaf `p` routes to from `n`. */
  ghost function RouteLeaf(n: Node, p: Point): (l: Node)
    reads n.Repr
    requires n.Shape()
    ensures l in n.Repr && !l.isSplit
  {
    Route(n, p)[0]
  }

  /** `Visitor`: walks from a start node to a leaf, recording the route. */
  class Visitor {
    /** `m_nodePath`: every node visited so far, the latest route first. */
    var nodePath: seq<Node>

    constructor ()
      ensures nodePath == []
    {
      nodePath := [];
    }

    /**
     * `Visit`: pushes `start` to the front of the recorded path and, while the
     * current node is split, continues with the child `p` routes to. It returns
     * the whole recorded path: the new route, leaf first, then all earlier ones.
     * A null start records nothing.
     */
    method Visit(start: Node?, p: Point) returns (path: seq<Node>)
      requires start != null ==> start.Shape()
      modifies this
      ensures nodePath == (if start == null then [] else old(Route(start, p))) + old(nodePath)
      ensures path == nodePath
      ensures start != null ==> forall m :: m in nodePath && m !in old(nodePath) ==> m in start.Repr
      decreases if start == null then {} else start.Repr
    {
      if start != null {
        nodePath := [start] + nodePath;
        if start.isSplit {
          var child := start.GetChild(p);
          assert Route(start, p) == Route(child, p) + [start];
          path := Visit(child, p);
          return;
        }
      }
      path := nodePath;
    }
  }

  /** The node the finders search under: the entry `min(size, Dims) - 1` of the
      recorded path. */
  function Anchor(path: seq<Node>): (a: Node)
    requires |path| >= 1
    ensures a in path
  {
    path[Min(|path|, Dims) - 1]
  }

  /**
   * Every node of the route from `n` to the leaf of `p` lies in the subtree
   * and heads a subtree holding that leaf.
   */
  lemma {:induction false} RouteNested(n: Node, p: Point)
    requires n.Shape()
    ensures var r := Route(n, p);
      forall i :: 0 <= i < |r| ==> r[i] in n.Repr && r[i].Shape() && r[0] in r[i].Repr
    decreases n.Repr
  {
    if n.isSplit {
      var c := n.GetChild(p);
      RouteNested(c, p);
      var r := Route(n, p);
      assert r == Route(c, p) + [n];
      forall i | 0 <= i < |r|
        ensures r[i] in n.Repr && r[i].Shape() && r[0] in r[i].Repr
      {
        if i < |r| - 1 {
          assert r[i] == Route(c, p)[i];
        }
      }
    }
  }

  /**
   * The anchor of a path whose newest route is the one to `p`: when the
   * visitor was fresh, or the route has at least `Dims` nodes, the anchor lies
   * on that route and its subtree holds the leaf of `p`; on a fresh visitor a
   * route of at most `Dims` nodes is anchored at its start.
   */
  lemma AnchorCoversLeaf(n: Node, p: Point, earlier: seq<Node>)
    requires n.Shape()
    ensures var r := Route(n, p);
      (earlier == [] || |r| >= Dims) ==>
        Anchor(r + earlier) in r && Anchor(r + earlier) in n.Repr && RouteLeaf(n, p) in Anchor(r + earlier).Repr
    ensures |Route(n, p)| <= Dims ==> Anchor(Route(n, p)) == n
  {
    var r := Route(n, p);
    RouteNested(n, p);
    if earlier == [] || |r| >= Dims {
      var k := Min(|r + earlier|, Dims) - 1;
      assert k < |r| && (r + earlier)[k] == r[k];
    }
    if |r| <= Dims {
      assert Anchor(r) == r[|r| - 1];
    }
  }

  /**
   * A stale anchor: with three dimensions and a root split into two leaves, a
   * query `q` routed right after a query `p` routed left records the path
   * `[right, root, left, root]`, whose anchor is the left leaf. The search for
   * `q` then scans only the bucket of `p`'s leaf and never sees its own.
   */
  lemma StaleAnchorMissesLeaf(n: Node, p: Point, q: Point)
    requires Dims == 3
    requires n.Shape() && n.isSplit && !n.left.isSplit && !n.right.isSplit
    requires p.coords[n.dimensionIndex] <= n.median < q.coords[n.dimensionIndex]
    ensures var a := Anchor(Route(n, q) + Route(n, p));
      a == RouteLeaf(n, p) && RouteLeaf(n, q) !in a.Repr &&
      BucketsBelow(n, a) == [RouteLeaf(n, p).storedData]
  {
    assert Route(n.left, p) == [n.left] && Route(n.right, q) == [n.right];
    assert Route(n, p) == [n.left, n] && Route(n, q) == [n.right, n];
    assert n.right !in n.left.Repr;
  }

  /**
   * The median point of an odd split is stored right but routed left. A leaf
   * of bucket size 2 holding three points at 0, 1 and 2 on axis 0 splits as
   * `Split` promises: median 1, the lower point in the left leaf and the
   * other two in the right one. `GetChild` sends the point at 1 left, since
   * it is not strictly above the median, so removing it from the leaf it
   * routes to erases nothing, and the tree still holds it.
   */
  lemma MedianPointRoutesLeft(n: Node, a: Point, b: Point, c: Point)
    requires n.Shape() && n.isSplit && n.dimensionIndex == 0 && n.bucketSize == 2
    requires a.coords[0] == 0.0 && b.coords[0] == 1.0 && c.coords[0] == 2.0 && !Equal(a, b)
    requires var s := SortBy([a, b, c], OnAxis(0));
      n.median == MedianOf(s, 0) && n.left.Points() == multiset(s[..1]) && n.right.Points() == multiset(s[1..]) &&
      (n.left.isSplit <==> 1 > n.bucketSize) && (n.right.isSplit <==> 2 > n.bucketSize)
    ensures n.median == 1.0 && b in n.right.storedData && b in n.Points()
    ensures RouteLeaf(n, b) == n.left && b !in n.left.storedData
    ensures RemoveAll(RouteLeaf(n, b).storedData, b) == RouteLeaf(n, b).storedData
  {
    assert SortBy([c], OnAxis(0)) == [c];
    assert [b, c][1..] == [c] && [a, b, c][1..] == [b, c];
    assert SortBy([b, c], OnAxis(0)) == [b, c];
    assert SortBy([a, b, c], OnAxis(0)) == [a, b, c];
    assert multiset(n.left.storedData) == multiset{a};
    assert n.left.storedData == [a] by {
      assert |n.left.storedData| == 1;
      assert n.left.storedData[0] in multiset(n.left.storedData);
    }
    assert Route(n, b) == [n.left, n];
  }

  /** The buckets of the leaves under `n`, from left to right. */
  ghost function Buckets(n: Node): (bs: seq<seq<Point>>)
    reads n.Repr
    requires n.Shape()
    ensures |bs| >= 1
    decreases n.Repr
  {
    if !n.isSplit then [n.storedData] else Buckets(n.left) + Buckets(n.right)
  }

  /** The buckets under `a`, a node of the subtree `n`. */
  ghost function BucketsBelow(n: Node, a: Node): (bs: seq<seq<Point>>)
    reads n.Repr
    requires n.Shape() && a in n.Repr
    ensures |bs| >= 1
  {
    ReprClosed(n, a);
    Buckets(a)
  }

  /** All the points of a sequence of buckets, in order. */
  function Flatten(bs: seq<seq<Point>>): seq<Point> {
    if bs == [] then [] else bs[0] + Flatten(bs[1..])
  }

  lemma {:induction false} FlattenAppend(a: seq<seq<Point>>, b: seq<seq<Point>>)
    ensures Flatten(a + b) == Flatten(a) + Flatten(b)
  {
    if a == [] {
      assert a + b == b;
    } else {
      assert (a + b)[1..] == a[1..] + b;
      FlattenAppend(a[1..], b);
    }
  }

  /** The leaf buckets under `n` together hold exactly the points of `n`. */
  lemma {:induction false} BucketsHoldPoints(n: Node)
    requires n.Shape()
    ensures multiset(Flatten(Buckets(n))) == n.Points()
    decreases n.Repr
  {
    if n.isSplit {
      BucketsHoldPoints(n.left);
      BucketsHoldPoints(n.right);
      FlattenAppend(Buckets(n.left), Buckets(n.right));
    } else {
      assert Flatten([n.storedData]) == n.storedData + Flatten([]);
    }
  }

  /**
   * A node's buckets reordered, none gaining or losing a point, and nothing
   * else about the nodes changed: the subtree stays valid, keeps its points
   * and stays partitioned.
   */
  twostate lemma {:induction false} Reshuffled(n: Node)
    requires old(n.Valid())
    requires forall m :: m in old(n.Repr) ==>
      unchanged(m`isSplit, m`left, m`right, m`Repr, m`median) &&
      multiset(m.storedData) == old(multiset(m.storedData))
    ensures n.Valid() && n.Points() == old(n.Points())
    ensures old(n.Partitioned()) ==> n.Partitioned()
    decreases old(n.Repr)
  {
    if n.isSplit {
      Reshuffled(n.left);
      Reshuffled(n.right);
    }
  }

  datatype Option<T> = None | Some(value: T)

  /**
   * One step of `NearestFinder`: the candidate replaces the best so far only
   * when it is strictly nearer to `q`. No best yet stands for the sentinel with
   * infinite coordinates, which every candidate beats.
   */
  function Closer(best: Option<Point>, cand: Point, q: Point): (r: Option<Point>)
    ensures r.Some?
    ensures r == Some(cand) || r == best
    ensures best.Some? ==> SquaredDist(r.value, q) <= SquaredDist(best.value, q)
    ensures SquaredDist(r.value, q) <= SquaredDist(cand, q)
    ensures best.Some? && SquaredDist(best.value, q) <= SquaredDist(cand, q) ==> r == best
  {
    if best.None? || SquaredDist(cand, q) < SquaredDist(best.value, q) then Some(cand) else best
  }

  /** `NearestFinder` over buckets in leaf order: each leaf contributes the
      answer of its own `FindNearest`. */
  function NearestOver(bs: seq<seq<Point>>, q: Point, best: Option<Point>): Option<Point> {
    if bs == [] then best else NearestOver(bs[1..], q, Closer(best, NearestIn(bs[0], q), q))
  }

  /** Scanning two runs of leaves one after the other is scanning their concatenation. */
  lemma {:induction false} NearestOverAppend(a: seq<seq<Point>>, b: seq<seq<Point>>, q: Point, best: Option<Point>)
    ensures NearestOver(a + b, q, best) == NearestOver(b, q, NearestOver(a, q, best))
  {
    if a == [] {
      assert a + b == b;
    } else {
      assert (a + b)[0] == a[0] && (a + b)[1..] == a[1..] + b;
      NearestOverAppend(a[1..], b, q, Closer(best, NearestIn(a[0], q), q));
    }
  }

  /**
   * The scan ends with a best as soon as it has seen one leaf, and that best
   * is no farther from `q` than the starting best or any leaf's answer.
   */
  lemma {:induction false} NearestOverIsLeast(bs: seq<seq<Point>>, q: Point, best: Option<Point>)
    ensures var r := NearestOver(bs, q, best);
      (|bs| >= 1 || best.Some? ==> r.Some?) &&
      (best.Some? ==> SquaredDist(r.value, q) <= SquaredDist(best.value, q)) &&
      (forall i :: 0 <= i < |bs| ==> SquaredDist(r.value, q) <= SquaredDist(NearestIn(bs[i], q), q))
  {
    if bs != [] {
      var b := Closer(best, NearestIn(bs[0], q), q);
      var r := NearestOver(bs, q, best);
      NearestOverIsLeast(bs[1..], q, b);
      assert r == NearestOver(bs[1..], q, b);
      forall i | 0 < i < |bs|
        ensures SquaredDist(r.value, q) <= SquaredDist(NearestIn(bs[i], q), q)
      {
        assert NearestIn(bs[i], q) == NearestIn(bs[1..][i - 1], q);
      }
    }
  }

  /**
   * The best the scan ends with is either the starting best or the first leaf
   * answer of least distance: strictly nearer than every leaf answer before
   * it and than the starting best.
   */
  lemma {:induction false} NearestOverIsFirstLeast(bs: seq<seq<Point>>, q: Point, best: Option<Point>)
    ensures var r := NearestOver(bs, q, best);
      r == best ||
      exists i :: 0 <= i < |bs| && r == Some(NearestIn(bs[i], q)) &&
        (forall j :: 0 <= j < i ==> SquaredDist(r.value, q) < SquaredDist(NearestIn(bs[j], q), q)) &&
        (best.Some? ==> SquaredDist(r.value, q) < SquaredDist(best.value, q))
  {
    if bs != [] {
      var c := NearestIn(bs[0], q);
      var b := Closer(best, c, q);
      var r := NearestOver(bs, q, best);
      NearestOverIsFirstLeast(bs[1..], q, b);
      assert r == NearestOver(bs[1..], q, b);
      if r != b {
        var i' :| 0 <= i' < |bs[1..]| && r == Some(NearestIn(bs[1..][i'], q)) &&
          (forall j :: 0 <= j < i' ==> SquaredDist(r.value, q) < SquaredDist(NearestIn(bs[1..][j], q), q)) &&
          (b.Some? ==> SquaredDist(r.value, q) < SquaredDist(b.value, q));
        var i := i' + 1;
        assert r == Some(NearestIn(bs[i], q));
        forall j | 0 <= j < i
          ensures SquaredDist(r.value, q) < SquaredDist(NearestIn(bs[j], q), q)
        {
          if j > 0 {
            assert NearestIn(bs[j], q) == NearestIn(bs[1..][j - 1], q);
          }
        }
      } else if r != best {
        assert r == Some(c);
      }
    }
  }

  /** A point is among a sequence of buckets exactly when one of them holds it. */
  lemma {:induction false} FlattenMember(bs: seq<seq<Point>>, x: Point)
    ensures x in Flatten(bs) <==> exists i :: 0 <= i < |bs| && x in bs[i]
  {
    if bs != [] {
      FlattenMember(bs[1..], x);
      if x in Flatten(bs[1..]) {
        var i :| 0 <= i < |bs[1..]| && x in bs[1..][i];
        assert x in bs[i + 1];
      }
      if exists i :: 0 <= i < |bs| && x in bs[i] {
        var i :| 0 <= i < |bs| && x in bs[i];
        if i > 0 {
          assert x in bs[1..][i - 1];
        }
      }
    }
  }

  /** When no bucket is empty, the scan from no best returns a stored point, and
      no stored point is nearer to `q`. */
  lemma NearestOverStored(bs: seq<seq<Point>>, q: Point)
    requires |bs| >= 1 && forall i :: 0 <= i < |bs| ==> bs[i] != []
    ensures var r := NearestOver(bs, q, None);
      r.Some? && r.value in Flatten(bs) &&
      forall x :: x in Flatten(bs) ==> SquaredDist(r.value, q) <= SquaredDist(x, q)
  {
    var r := NearestOver(bs, q, None);
    NearestOverIsLeast(bs, q, None);
    NearestOverIsFirstLeast(bs, q, None);
    var i :| 0 <= i < |bs| && r == Some(NearestIn(bs[i], q));
    FlattenMember(bs, r.value);
    forall x | x in Flatten(bs)
      ensures SquaredDist(r.value, q) <= SquaredDist(x, q)
    {
      FlattenMember(bs, x);
      var j :| 0 <= j < |bs| && x in bs[j];
      var c := NearestIn(bs[j], q);
      DistanceSymmetric(c, q);
      DistanceSymmetric(x, q);
      assert SquaredDist(r.value, q) <= SquaredDist(c, q);
    }
  }

  /**
   * An empty leaf answers with the default point, and the scan weighs it like
   * a stored point: a query at the origin next to an empty leaf returns a point
   * that is not stored anywhere.
   */
  lemma EmptyLeafCompetes(x: Point)
    requires x.coords != Origin()
    ensures NearestOver([[], [x]], DefaultPoint(), None) == Some(DefaultPoint())
    ensures DefaultPoint() !in Flatten([[], [x]])
  {
    var o := DefaultPoint();
    var bs: seq<seq<Point>> := [[], [x]];
    DistanceZero(o, o);
    DistanceZero(x, o);
    assert x.coords != o.coords;
    assert NearestIn([x], o) == x by {
      assert SortBy([x], ByDistanceFrom(o)) == InsertSorted(x, [], ByDistanceFrom(o)) == [x];
    }
    assert bs[1..] == [[x]] && [[x]][1..] == [];
    calc {
      NearestOver(bs, o, None);
      NearestOver([[x]], o, Closer(None, NearestIn([], o), o));
      NearestOver([[x]], o, Some(o));
      NearestOver([], o, Closer(Some(o), NearestIn([x], o), o));
      Some(o);
    }
    assert Flatten(bs) == [] + Flatten([[x]]);
    assert Flatten([[x]]) == [x] + Flatten([]);
  }

  /** `NearestFinder`: the point nearest to a query among the leaves around it. */
  class NearestFinder {
    const visitor: Visitor

    constructor ()
      ensures fresh(visitor) && visitor.nodePath == []
    {
      visitor := new Visitor();
    }

    /**
     * `FindClosestPoint`: visits the leaves under `n` from left to right, each
     * answering with its own `FindNearest` (which sorts its bucket), and keeps
     * the strictly nearer of that answer and the best so far.
     */
    method FindClosestPoint(n: Node, q: Point, best: Option<Point>) returns (r: Option<Point>)
      requires n.Valid()
      modifies n.Repr`storedData
      ensures r == NearestOver(old(Buckets(n)), q, best)
      ensures forall m :: m in n.Repr ==> m.storedData == SortBy(old(m.storedData), ByDistanceFrom(q))
      decreases n.Repr
    {
      if n.isSplit {
        var left, right := n.left, n.right;
        ValidClosed(n, left);
        ValidClosed(n, right);
        NearestOverAppend(Buckets(left), Buckets(right), q, best);
        label Before:
        var b := FindClosestPoint(left, q, best);
        Untouched@Before(right);
        r := FindClosestPoint(right, q, b);
      } else {
        var cand := n.FindNearest(q);
        var d := Distance(cand, q);
        if best.None? {
          r := Some(cand);
        } else {
          var e := Distance(best.value, q);
          r := if d < e then Some(cand) else best;
        }
      }
    }
    /**
     * The scan `Find` makes under the anchor `a`: the buckets under `a` are
     * sorted by distance from `q` and the rest left alone, so the tree keeps
     * its shape, its points and its partition.
     */
    method ScanBelow(n: Node, a: Node, q: Point) returns (r: Point)
      requires n.Valid() && a in n.Repr
      modifies n.Repr`storedData
      ensures Some(r) == old(NearestOver(BucketsBelow(n, a), q, None))
      ensures forall m :: m in n.Repr ==>
        m.storedData == if m in a.Repr then SortBy(old(m.storedData), ByDistanceFrom(q)) else old(m.storedData)
      ensures n.Valid() && n.Points() == old(n.Points())
      ensures old(n.Partitioned()) ==> n.Partitioned()
    {
      ValidClosed(n, a);
      NearestOverIsLeast(Buckets(a), q, None);
      var best := FindClosestPoint(a, q, None);
      r := best.value;
      forall m | m in old(n.Repr)
        ensures multiset(m.storedData) == old(multiset(m.storedData))
      {
        if m in a.Repr {
          SortByIsSortedPermutation(old(m.storedData), ByDistanceFrom(q));
        }
      }
      Reshuffled(n);
    }

    /**
     * `Find`: records the route to `q`, then scans the leaves under the anchor
     * of the recorded path, starting from a best farther than any point.
     */
    method Find(n: Node, q: Point) returns (r: Point)
      requires n.Valid()
      requires forall m :: m in visitor.nodePath ==> m in n.Repr
      modifies visitor, n.Repr`storedData
      ensures visitor.nodePath == old(Route(n, q)) + old(visitor.nodePath)
      ensures forall m :: m in visitor.nodePath ==> m in n.Repr
      ensures var a := Anchor(visitor.nodePath);
        a in n.Repr && Some(r) == old(NearestOver(BucketsBelow(n, a), q, None)) &&
        forall m :: m in n.Repr ==>
          m.storedData == if m in a.Repr then SortBy(old(m.storedData), ByDistanceFrom(q)) else old(m.storedData)
      ensures n.Valid() && n.Points() == old(n.Points())
      ensures old(n.Partitioned()) ==> n.Partitioned()
    {
      label Start:
      var nodes := visitor.Visit(n, q);
      Untouched@Start(n);
      r := ScanBelow(n, Anchor(nodes), q);
    }
  }
  /** `NNearestFinder` over buckets in leaf order: the answers of the leaves'
      own `FindNNearest`, appended one after the other. */
  function NNearestOver(bs: seq<seq<Point>>, q: Point, k: nat): seq<Point> {
    if bs == [] then [] else NNearestIn(bs[0], q, k) + NNearestOver(bs[1..], q, k)
  }

  lemma {:induction false} NNearestOverAppend(a: seq<seq<Point>>, b: seq<seq<Point>>, q: Point, k: nat)
    ensures NNearestOver(a + b, q, k) == NNearestOver(a, q, k) + NNearestOver(b, q, k)
  {
    if a == [] {
      assert a + b == b;
    } else {
      assert (a + b)[0] == a[0] && (a + b)[1..] == a[1..] + b;
      NNearestOverAppend(a[1..], b, q, k);
    }
  }

  /** Associativity of `+`, stated for the collecting finders, whose proofs
      need it spelled out. */
  lemma AppendAssoc(a: seq<Point>, b: seq<Point>, c: seq<Point>)
    ensures (a + b) + c == a + (b + c)
  {
  }

  /** A multiset is no larger than one it is contained in. */
  lemma SubCard(a: multiset<Point>, b: multiset<Point>)
    requires a <= b
    ensures |a| <= |b|
  {
    assert b == a + (b - a);
  }

  /** A copy of `y` that a leaf's `FindNNearest` leaves out means the leaf
      answered with `k` points, none of them farther from `q` than `y`. */
  lemma LeftOutByLeaf(b: seq<Point>, q: Point, k: nat, y: Point)
    requires y in multiset(b) - multiset(NNearestIn(b, q, k))
    ensures |NNearestIn(b, q, k)| == k
    ensures forall z :: z in NNearestIn(b, q, k) ==> SquaredDist(q, z) <= SquaredDist(q, y)
  {
    var c := NNearestIn(b, q, k);
    NNearestInIsNearest(b, q, k);
    assert multiset(b) == multiset(c) + (multiset(b) - multiset(c));
  }

  /** The leaves' answers, put together, are drawn from the buckets, and they
      are fewer than `k` only when they are all the points. */
  lemma {:induction false} NNearestOverDrawn(bs: seq<seq<Point>>, q: Point, k: nat)
    ensures var c := NNearestOver(bs, q, k);
      multiset(c) <= multiset(Flatten(bs)) && |c| <= |Flatten(bs)| &&
      (|c| < k ==> |c| == |Flatten(bs)|)
  {
    if bs != [] {
      var c0 := NNearestIn(bs[0], q, k);
      NNearestOverDrawn(bs[1..], q, k);
      assert Flatten(bs) == bs[0] + Flatten(bs[1..]);
      assert NNearestOver(bs, q, k) == c0 + NNearestOver(bs[1..], q, k);
    }
  }

  /** Each leaf's answer is among the leaves' answers put together. */
  lemma {:induction false} NNearestOverHoldsLeaf(bs: seq<seq<Point>>, q: Point, k: nat, i: nat)
    requires i < |bs|
    ensures multiset(NNearestIn(bs[i], q, k)) <= multiset(NNearestOver(bs, q, k))
  {
    assert NNearestOver(bs, q, k) == NNearestIn(bs[0], q, k) + NNearestOver(bs[1..], q, k);
    if i > 0 {
      NNearestOverHoldsLeaf(bs[1..], q, k, i - 1);
      assert bs[1..][i - 1] == bs[i];
    }
  }

  /** A copy of a point missing from the leaves' answers is one that some leaf
      left out. */
  lemma {:induction false} NNearestOverMissing(bs: seq<seq<Point>>, q: Point, k: nat, y: Point)
    requires y in multiset(Flatten(bs)) - multiset(NNearestOver(bs, q, k))
    ensures exists i :: 0 <= i < |bs| && y in multiset(bs[i]) - multiset(NNearestIn(bs[i], q, k))
  {
    assert bs != [];
    var c0 := NNearestIn(bs[0], q, k);
    assert Flatten(bs) == bs[0] + Flatten(bs[1..]);
    assert NNearestOver(bs, q, k) == c0 + NNearestOver(bs[1..], q, k);
    if y !in multiset(bs[0]) - multiset(c0) {
      NNearestOverMissing(bs[1..], q, k, y);
      var i :| 0 <= i < |bs[1..]| && y in multiset(bs[1..][i]) - multiset(NNearestIn(bs[1..][i], q, k));
      assert bs[1..][i] == bs[i + 1];
    }
  }

  /**
   * The counting step behind `NNearestOverIsNearest`: when `r` holds at most
   * `k` points and no point of `c` outside `r` is nearer than a point of `r`,
   * then `k` points of `c`, all within the distance of `y`, put every point of
   * `r` within that distance too.
   */
  lemma NoneNearerLeftOut(c: multiset<Point>, r: multiset<Point>, cb: multiset<Point>, q: Point, k: nat, x: Point, y: Point)
    requires cb <= c && |cb| == k && |r| <= k && x in r
    requires forall z :: z in cb ==> SquaredDist(q, z) <= SquaredDist(q, y)
    requires forall z :: z in c - r ==> SquaredDist(q, x) <= SquaredDist(q, z)
    ensures SquaredDist(q, x) <= SquaredDist(q, y)
  {
    if x !in cb {
      if cb <= r {
        SubCard(cb + multiset{x}, r);
        assert false;
      }
      var z :| cb[z] > r[z];
      assert z in c - r;
    }
  }

  /**
   * Keeping the `k` nearest of the leaves' answers gives `k` points nearest
   * to `q` among all the points of the buckets (all of them when there are
   * fewer): no point left out is nearer than a point returned.
   */
  lemma NNearestOverIsNearest(bs: seq<seq<Point>>, q: Point, k: nat)
    ensures var r := NNearestIn(NNearestOver(bs, q, k), q, k);
      multiset(r) <= multiset(Flatten(bs)) && |r| == Min(k, |Flatten(bs)|) &&
      forall x, y :: x in r && y in multiset(Flatten(bs)) - multiset(r) ==> SquaredDist(q, x) <= SquaredDist(q, y)
  {
    var c := NNearestOver(bs, q, k);
    var r := NNearestIn(c, q, k);
    NNearestOverDrawn(bs, q, k);
    NNearestInIsNearest(c, q, k);
    forall x, y | x in r && y in multiset(Flatten(bs)) - multiset(r)
      ensures SquaredDist(q, x) <= SquaredDist(q, y)
    {
      if y !in multiset(c) - multiset(r) {
        NNearestOverMissing(bs, q, k, y);
        var i :| 0 <= i < |bs| && y in multiset(bs[i]) - multiset(NNearestIn(bs[i], q, k));
        LeftOutByLeaf(bs[i], q, k, y);
        NNearestOverHoldsLeaf(bs, q, k, i);
        NoneNearerLeftOut(multiset(c), multiset(r), multiset(NNearestIn(bs[i], q, k)), q, k, x, y);
      }
    }
  }
  /** `NNearestFinder`: up to `k` points near a query, from the leaves around it. */
  class NNearestFinder {
    const visitor: Visitor

    constructor ()
      ensures fresh(visitor) && visitor.nodePath == []
    {
      visitor := new Visitor();
    }

    /**
     * `FindNClosestPoints`: visits the leaves under `n` from left to right and
     * appends to `acc` the answer of each leaf's `FindNNearest` (which sorts
     * its bucket).
     */
    method FindNClosestPoints(n: Node, q: Point, acc: seq<Point>, k: nat) returns (r: seq<Point>)
      requires n.Valid()
      modifies n.Repr`storedData
      ensures r == acc + NNearestOver(old(Buckets(n)), q, k)
      ensures forall m :: m in n.Repr ==> m.storedData == SortBy(old(m.storedData), ByDistanceFrom(q))
      decreases n.Repr
    {
      if n.isSplit {
        var left, right := n.left, n.right;
        ValidClosed(n, left);
        ValidClosed(n, right);
        NNearestOverAppend(Buckets(left), Buckets(right), q, k);
        label Before:
        ghost var cl, cr := NNearestOver(Buckets(left), q, k), NNearestOver(Buckets(right), q, k);
        var b := FindNClosestPoints(left, q, acc, k);
        Untouched@Before(right);
        r := FindNClosestPoints(right, q, b, k);
        AppendAssoc(acc, cl, cr);
      } else {
        assert Buckets(n) == [n.storedData] && [n.storedData][1..] == [];
        var cands := n.FindNNearest(q, k);
        r := acc + cands;
      }
    }

    /**
     * The collection `Find` makes under the anchor `a`: the buckets under `a`
     * are sorted by distance from `q` and the rest left alone, so the tree
     * keeps its shape, its points and its partition.
     */
    method CollectBelow(n: Node, a: Node, q: Point, k: nat) returns (r: seq<Point>)
      requires n.Valid() && a in n.Repr
      modifies n.Repr`storedData
      ensures r == old(NNearestOver(BucketsBelow(n, a), q, k))
      ensures forall m :: m in n.Repr ==>
        m.storedData == if m in a.Repr then SortBy(old(m.storedData), ByDistanceFrom(q)) else old(m.storedData)
      ensures n.Valid() && n.Points() == old(n.Points())
      ensures old(n.Partitioned()) ==> n.Partitioned()
    {
      ValidClosed(n, a);
      r := FindNClosestPoints(a, q, [], k);
      forall m | m in old(n.Repr)
        ensures multiset(m.storedData) == old(multiset(m.storedData))
      {
        if m in a.Repr {
          SortByIsSortedPermutation(old(m.storedData), ByDistanceFrom(q));
        }
      }
      Reshuffled(n);
    }

    /**
     * `Find`: records the route to `q`, collects the answers of the leaves
     * under the anchor of the recorded path, sorts them by distance from `q`
     * and keeps the first `k`.
     */
    method Find(n: Node, q: Point, k: nat) returns (r: seq<Point>)
      requires n.Valid()
      requires forall m :: m in visitor.nodePath ==> m in n.Repr
      modifies visitor, n.Repr`storedData
      ensures visitor.nodePath == old(Route(n, q)) + old(visitor.nodePath)
      ensures forall m :: m in visitor.nodePath ==> m in n.Repr
      ensures var a := Anchor(visitor.nodePath);
        a in n.Repr && r == NNearestIn(old(NNearestOver(BucketsBelow(n, a), q, k)), q, k) &&
        forall m :: m in n.Repr ==>
          m.storedData == if m in a.Repr then SortBy(old(m.storedData), ByDistanceFrom(q)) else old(m.storedData)
      ensures n.Valid() && n.Points() == old(n.Points())
      ensures old(n.Partitioned()) ==> n.Partitioned()
    {
      label Start:
      var nodes := visitor.Visit(n, q);
      Untouched@Start(n);
      var all := CollectBelow(n, Anchor(nodes), q, k);
      var sorted := SortBy(all, ByDistanceFrom(q));
      r := if |sorted| > k then sorted[..k] else sorted;
    }
  }

  /** `DistanceFinder` over buckets in leaf order: the answers of the leaves'
      own `FindWithinDistance`, appended one after the other. */
  function WithinOver(bs: seq<seq<Point>>, q: Point, dist: real): seq<Point> {
    if bs == [] then [] else WithinDistance(bs[0], q, dist) + WithinOver(bs[1..], q, dist)
  }

  /** Collecting leaf by leaf is filtering all the points of the buckets at
      once, so the answer holds every point within `dist` of `q`, as often as
      it is stored, and no other. */
  lemma {:induction false} WithinOverIsFilter(bs: seq<seq<Point>>, q: Point, dist: real)
    ensures WithinOver(bs, q, dist) == WithinDistance(Flatten(bs), q, dist)
  {
    if bs != [] {
      WithinOverIsFilter(bs[1..], q, dist);
      assert Flatten(bs) == bs[0] + Flatten(bs[1..]);
      FilterAppend(bs[0], Flatten(bs[1..]), (x: Point) => SquaredDist(q, x) <= dist);
    }
  }

  /** `DistanceFinder`: the points within a distance of a query, from the
      leaves around it. */
  class DistanceFinder {
    const visitor: Visitor

    constructor ()
      ensures fresh(visitor) && visitor.nodePath == []
    {
      visitor := new Visitor();
    }

    /** `FindWithinDistance`: visits the leaves under `n` from left to right and
        appends to `acc` the answer of each leaf's `FindWithinDistance`. */
    method FindWithinDistance(n: Node, q: Point, acc: seq<Point>, dist: real) returns (r: seq<Point>)
      requires n.Valid()
      ensures r == acc + WithinOver(Buckets(n), q, dist)
      decreases n.Repr
    {
      if !n.isSplit {
        assert Buckets(n) == [n.storedData] && [n.storedData][1..] == [];
        var near := n.FindWithinDistance(q, dist);
        r := acc + near;
      } else {
        var left, right := n.left, n.right;
        ValidClosed(n, left);
        ValidClosed(n, right);
        ghost var wl, wr := WithinOver(Buckets(left), q, dist), WithinOver(Buckets(right), q, dist);
        WithinOverAppend(Buckets(left), Buckets(right), q, dist);
        label Before:
        var b := FindWithinDistance(left, q, acc, dist);
        Untouched@Before(right);
        r := FindWithinDistance(right, q, b, dist);
        AppendAssoc(acc, wl, wr);
      }
    }

    /**
     * `Find`: records the route to `q`, then collects the answers of the leaves
     * under the anchor of the recorded path. No bucket changes.
     */
    method Find(n: Node, q: Point, dist: real) returns (r: seq<Point>)
      requires n.Valid()
      requires forall m :: m in visitor.nodePath ==> m in n.Repr
      modifies visitor
      ensures visitor.nodePath == old(Route(n, q)) + old(visitor.nodePath)
      ensures forall m :: m in visitor.nodePath ==> m in n.Repr
      ensures var a := Anchor(visitor.nodePath);
        a in n.Repr && r == WithinOver(BucketsBelow(n, a), q, dist)
    {
      var nodes := visitor.Visit(n, q);
      var a := Anchor(nodes);
      ValidClosed(n, a);
      r := FindWithinDistance(a, q, [], dist);
    }
  }

  lemma {:induction false} WithinOverAppend(a: seq<seq<Point>>, b: seq<seq<Point>>, q: Point, dist: real)
    ensures WithinOver(a + b, q, dist) == WithinOver(a, q, dist) + WithinOver(b, q, dist)
  {
    if a == [] {
      assert a + b == b;
    } else {
      assert (a + b)[0] == a[0] && (a + b)[1..] == a[1..] + b;
      WithinOverAppend(a[1..], b, q, dist);
    }
  }

  /** The points under `n` counted with the bucket of `leaf` read as `b`. It
      does not read that bucket, so it survives any change to it. */
  ghost function PointsWith(n: Node, leaf: Node, b: multiset<Point>): multiset<Point>
    reads n`Repr, n.Repr`isSplit, n.Repr`left, n.Repr`right, n.Repr`Repr, (n.Repr - {leaf})`storedData
    requires n.Shape()
    decreases n.Repr
  {
    if n == leaf then b
    else if !n.isSplit then multiset(n.storedData)
    else PointsWith(n.left, leaf, b) + PointsWith(n.right, leaf, b)
  }

  /** Reading a leaf's bucket as its own contents gives back the points. */
  lemma {:induction false} PointsWithOwnBucket(n: Node, leaf: Node)
    requires n.Shape() && !leaf.isSplit
    ensures PointsWith(n, leaf, multiset(leaf.storedData)) == n.Points()
    decreases n.Repr
  {
    if n != leaf && n.isSplit {
      PointsWithOwnBucket(n.left, leaf);
      PointsWithOwnBucket(n.right, leaf);
    }
  }

  /** The replaced bucket contributes its contents once when the leaf lies in
      the subtree, and not at all otherwise. */
  lemma {:induction false} PointsWithSplits(n: Node, leaf: Node, b: multiset<Point>)
    requires n.Shape()
    ensures PointsWith(n, leaf, b) == PointsWith(n, leaf, multiset{}) + (if leaf in n.Repr then b else multiset{})
    decreases n.Repr
  {
    if n != leaf && n.isSplit {
      PointsWithSplits(n.left, leaf, b);
      PointsWithSplits(n.right, leaf, b);
    }
  }

  /** `Partitioned`, with the bucket of `leaf` read as `b`. */
  ghost predicate PartitionedWith(n: Node, leaf: Node, b: multiset<Point>)
    reads n`Repr, n.Repr`isSplit, n.Repr`left, n.Repr`right, n.Repr`Repr, (n.Repr - {leaf})`storedData, n.Repr`median
    requires n.Shape()
    decreases n.Repr
  {
    n != leaf && n.isSplit ==>
      (forall x :: x in PointsWith(n.left, leaf, b) ==> x.coords[n.dimensionIndex] <= n.median) &&
      (forall x :: x in PointsWith(n.right, leaf, b) ==> n.median <= x.coords[n.dimensionIndex]) &&
      PartitionedWith(n.left, leaf, b) && PartitionedWith(n.right, leaf, b)
  }

  /** Reading a leaf's bucket as its own contents gives back `Partitioned`. */
  lemma {:induction false} PartitionedWithOwnBucket(n: Node, leaf: Node)
    requires n.Shape() && !leaf.isSplit
    ensures PartitionedWith(n, leaf, multiset(leaf.storedData)) <==> n.Partitioned()
    decreases n.Repr
  {
    if n != leaf && n.isSplit {
      PointsWithOwnBucket(n.left, leaf);
      PointsWithOwnBucket(n.right, leaf);
      PartitionedWithOwnBucket(n.left, leaf);
      PartitionedWithOwnBucket(n.right, leaf);
    }
  }

  /** Taking points out of one bucket keeps every split separating its subtrees. */
  lemma {:induction false} PartitionedWithFewer(n: Node, leaf: Node, b: multiset<Point>, c: multiset<Point>)
    requires n.Shape() && c <= b && PartitionedWith(n, leaf, b)
    ensures PartitionedWith(n, leaf, c)
    decreases n.Repr
  {
    if n != leaf && n.isSplit {
      PointsWithSplits(n.left, leaf, b);
      PointsWithSplits(n.left, leaf, c);
      PointsWithSplits(n.right, leaf, b);
      PointsWithSplits(n.right, leaf, c);
      PartitionedWithFewer(n.left, leaf, b, c);
      PartitionedWithFewer(n.right, leaf, b, c);
    }
  }

  /** The points and the partitioning under `n`, split into the bucket of
      `leaf` and the rest. */
  lemma BucketAccounting(n: Node, leaf: Node)
    requires n.Shape() && leaf in n.Repr && !leaf.isSplit
    ensures n.Points() == PointsWith(n, leaf, multiset{}) + multiset(leaf.storedData)
    ensures n.Partitioned() <==> PartitionedWith(n, leaf, multiset(leaf.storedData))
  {
    PointsWithOwnBucket(n, leaf);
    PointsWithSplits(n, leaf, multiset(leaf.storedData));
    PartitionedWithOwnBucket(n, leaf);
  }

  /** Replacing one part of a sum replaces it in the total: a multiset
      identity over plain values, kept apart so that `BucketShrunk` stays
      cheap to prove. */
  lemma SwapPart(total: multiset<Point>, total': multiset<Point>, rest: multiset<Point>, b: multiset<Point>, b': multiset<Point>)
    requires total == rest + b && total' == rest + b'
    ensures total' + b == total + b'
  {
  }

  /** After one bucket shrinks, the points under `n` lose what it lost and a
      partitioned subtree stays partitioned. */
  lemma BucketShrunk(n: Node, leaf: Node, before: multiset<Point>, rest: multiset<Point>, total: multiset<Point>, parted: bool)
    requires n.Shape() && leaf in n.Repr && !leaf.isSplit && multiset(leaf.storedData) <= before
    requires rest == PointsWith(n, leaf, multiset{}) && total == rest + before
    requires parted ==> PartitionedWith(n, leaf, before)
    ensures n.Points() + before == total + multiset(leaf.storedData)
    ensures parted ==> n.Partitioned()
  {
    BucketAccounting(n, leaf);
    SwapPart(total, n.Points(), rest, before, multiset(leaf.storedData));
    if parted {
      PartitionedWithFewer(n, leaf, before, multiset(leaf.storedData));
    }
  }

  /** A change confined to the bucket of `leaf` keeps the shape under `n` and
      both views that skip that bucket. */
  twostate lemma BucketViewsKept(n: Node, new leaf: Node)
    requires old(allocated(leaf)) && old(n.Shape())
    requires forall m :: m in old(n.Repr) ==> unchanged(m`isSplit, m`left, m`right, m`Repr, m`median)
    requires forall m :: m in old(n.Repr) && m != leaf ==> unchanged(m`storedData)
    ensures n.Shape() && n.Repr == old(n.Repr)
    ensures PointsWith(n, leaf, multiset{}) == old(PointsWith(n, leaf, multiset{}))
    ensures PartitionedWith(n, leaf, old(multiset(leaf.storedData))) == old(PartitionedWith(n, leaf, multiset(leaf.storedData)))
  {
  }

  /** What a split node keeps while a point is added below it: it stores
      nothing, and its two children lie one level deeper with its bucket size.
      It reads only the node itself. */
  ghost predicate Joinable(n: Node)
    reads n
  {
    n.isSplit && n.storedData == [] && n.bucketSize >= 1 && n.dimensionIndex == n.depth % Dims &&
    n.left != null && n.right != null &&
    n.left.depth == n.depth + 1 && n.right.depth == n.depth + 1 &&
    n.left.bucketSize == n.bucketSize && n.right.bucketSize == n.bucketSize
  }

  /** A split node whose subtree on the side `p` routes to gained `p`, with
      its footprint re-joined, is valid and holds one more point; the side of
      `p` keeps it partitioned. */
  lemma Rejoined(n: Node, p: Point, oldLeft: multiset<Point>, oldRight: multiset<Point>, wasPartitioned: bool)
    requires Joinable(n) && n.left.Valid() && n.right.Valid()
    requires n !in n.left.Repr && n !in n.right.Repr && n.left.Repr !! n.right.Repr
    requires n.Repr == {n} + n.left.Repr + n.right.Repr
    requires p.coords[n.dimensionIndex] <= n.median ==> n.left.Points() == oldLeft + multiset{p} && n.right.Points() == oldRight
    requires p.coords[n.dimensionIndex] > n.median ==> n.left.Points() == oldLeft && n.right.Points() == oldRight + multiset{p}
    requires wasPartitioned ==> n.left.Partitioned() && n.right.Partitioned()
    requires wasPartitioned ==> forall x :: x in oldLeft ==> x.coords[n.dimensionIndex] <= n.median
    requires wasPartitioned ==> forall x :: x in oldRight ==> n.median <= x.coords[n.dimensionIndex]
    ensures n.Valid() && n.Points() == oldLeft + oldRight + multiset{p}
    ensures wasPartitioned ==> n.Partitioned()
  {
    Join(n);
  }

  /**
   * The `j`-th node of `route` is a valid split node of `n`, and the node
   * before it is its child on the side of `p`, whose subtree holds the leaf
   * `route[0]`; no subtree within its other child holds that leaf.
   */
  ghost predicate Linked(n: Node, route: seq<Node>, p: Point, j: nat)
    reads n, n.Repr
    requires 0 < j < |route|
  {
    n.Valid() && route[j] in n.Repr && route[j].Repr <= n.Repr && route[j].Valid() && route[j].isSplit &&
    route[j].left.Valid() && route[j].right.Valid() && route[j - 1] == route[j].GetChild(p) &&
    var other := Other(route[j], route[j - 1]);
    forall m {:trigger m in other.Repr} :: m in other.Repr ==> route[0] !in m.Repr
  }

  /** The child of `a` other than `c`. */
  ghost function Other(a: Node, c: Node): (r: Node?)
    reads a
    ensures c == a.left ==> r == a.right
    ensures c != a.left ==> r == a.left
  {
    if c == a.left then a.right else a.left
  }

  /** `route` runs from a valid leaf of `n` up to `n`; every node of it
      heads a subtree of `n` holding the leaf, and each step is linked. */
  ghost predicate RouteLinks(n: Node, route: seq<Node>, p: Point)
    reads n, n.Repr
  {
    n.Valid() && |route| >= 1 && route[|route| - 1] == n &&
    (forall k :: 0 <= k < |route| ==> route[k] in n.Repr && route[0] in route[k].Repr) &&
    !route[0].isSplit && route[0].Repr <= n.Repr && route[0].Valid() &&
    forall j :: 0 < j < |route| ==> Linked(n, route, p, j)
  }

  /** The `i`-th node of a route above its leaf is split, and the node
      before it is its child on the side of `p`. */
  lemma {:induction false} RouteStepAt(n: Node, p: Point, i: nat)
    requires n.Shape() && 0 < i < |Route(n, p)|
    ensures var r := Route(n, p); r[i].isSplit && r[i - 1] == r[i].GetChild(p)
    decreases n.Repr
  {
    var c := n.GetChild(p);
    assert Route(n, p) == Route(c, p) + [n];
    if i < |Route(n, p)| - 1 {
      RouteStepAt(c, p, i);
    }
  }

  /** The route from a valid node to the leaf of `p` is linked. */
  lemma LinkRoute(n: Node, p: Point) returns (route: seq<Node>)
    requires n.Valid()
    ensures RouteLinks(n, route, p) && route[0] == RouteLeaf(n, p)
  {
    route := Route(n, p);
    RouteNested(n, p);
    forall j | 0 < j < |route|
      ensures Linked(n, route, p, j)
    {
      RouteStepAt(n, p, j);
      var a, c := route[j], route[j - 1];
      ValidClosed(n, a);
      ValidClosed(n, a.left);
      ValidClosed(n, a.right);
      var other := Other(a, c);
      forall m | m in other.Repr
        ensures route[0] !in m.Repr
      {
        ValidClosed(other, m);
      }
    }
    ValidClosed(n, route[0]);
  }

  /** Every field of `m` that a node's methods assign, other than its
      footprint, is as it was. */
  twostate predicate Kept(m: Node)
    reads m`storedData, m`isSplit, m`median, m`left, m`right
  {
    m.storedData == old(m.storedData) && m.isSplit == old(m.isSplit) && m.median == old(m.median) &&
    m.left == old(m.left) && m.right == old(m.right)
  }

  /** `c`, once valid, has gained `p` and possibly new nodes, and stays
      partitioned if it was. */
  twostate predicate Regrown(c: Node, p: Point)
    reads c, c.Repr
  {
    old(c.Valid()) && c.Valid() && c.Points() == old(c.Points()) + multiset{p} &&
    (old(c.Partitioned()) ==> c.Partitioned()) &&
    old(c.Repr) <= c.Repr && fresh(c.Repr - old(c.Repr))
  }

  /**
   * After `p` was added along `route`: the leaf `route[0]` has grown by `p`
   * and the new nodes `New`, every node above it has gained `New` in its
   * footprint, the nodes of the route kept their other fields, and every
   * node whose old subtree did not hold the leaf is unchanged.
   */
  twostate predicate Grew(new n: Node, new route: seq<Node>, new p: Point, new New: set<Node>)
    reads *
  {
    old(allocated(n)) && old(allocated(route)) && old(RouteLinks(n, route, p)) &&
    Regrown(route[0], p) && route[0].Repr == old(route[0].Repr) + New &&
    (forall m :: m in old(n.Repr) && m != route[0] ==> Kept(m)) &&
    (forall k :: 0 < k < |route| ==> route[k].Repr == old(route[k].Repr) + New) &&
    forall m {:trigger m in old(n.Repr)} :: m in old(n.Repr) && route[0] !in old(m.Repr) ==> unchanged(m)
  }

  /** The other child of the `i`-th node of the route is untouched. */
  twostate lemma SiblingKept(new n: Node, new route: seq<Node>, new p: Point, new New: set<Node>, i: nat)
    requires Grew(n, route, p, New) && 0 < i < |route|
    ensures var s := old(Other(route[i], route[i - 1]));
      s != null && old(s.Valid()) && s.Valid() && s.Repr == old(s.Repr) && s.Points() == old(s.Points()) &&
      (old(s.Partitioned()) ==> s.Partitioned())
  {
    var a, c := route[i], route[i - 1];
    assert old(Linked(n, route, p, i));
    var s := old(Other(a, c));
    forall m | m in old(s.Repr)
      ensures unchanged(m)
    {
      assert m in old(n.Repr) && route[0] !in old(m.Repr);
    }
    Untouched(s);
  }

  /**
   * One step of the walk back up a route: `a` was a valid split node whose
   * child on the side of `p` is `c`; `c` has regrown, gaining the new nodes
   * `New`, its sibling `s` is untouched, and the footprint of `a` has gained
   * `New`.
   */
  twostate predicate ClimbReady(new a: Node, new c: Node, new s: Node, new p: Point, new New: set<Node>)
    reads *
  {
    old(allocated(a)) && old(allocated(c)) && old(allocated(s)) &&
    old(a.Valid()) && old(a.isSplit) && c == old(a.GetChild(p)) && s == old(Other(a, c)) &&
    Kept(a) && a.Repr == old(a.Repr) + New &&
    Regrown(c, p) && c.Repr == old(c.Repr) + New &&
    s.Valid() && s.Repr == old(s.Repr) && s.Points() == old(s.Points()) && (old(s.Partitioned()) ==> s.Partitioned())
  }

  /** Such an `a` is again a split node over two valid children. */
  twostate lemma ClimbChildren(new a: Node, new c: Node, new s: Node, new p: Point, new New: set<Node>)
    requires ClimbReady(a, c, s, p, New)
    ensures Joinable(a) && a.left.Valid() && a.right.Valid()
  {
  }

  /** The footprint of such an `a` joins its two children's, which are
      disjoint and do not hold `a`. */
  twostate lemma ClimbFootprint(new a: Node, new c: Node, new s: Node, new p: Point, new New: set<Node>)
    requires ClimbReady(a, c, s, p, New)
    ensures a.left != null && a.right != null
    ensures a !in a.left.Repr && a !in a.right.Repr && a.left.Repr !! a.right.Repr
    ensures a.Repr == {a} + a.left.Repr + a.right.Repr
  {
    assert old(a.Repr) == {a} + old(a.left.Repr) + old(a.right.Repr);
  }

  /** The child of such an `a` on the side of `p` holds `p` besides its old
      points, the other child its old points, and each keeps the order of
      its points about the median. */
  twostate lemma ClimbContents(new a: Node, new c: Node, new s: Node, new p: Point, new New: set<Node>)
    requires ClimbReady(a, c, s, p, New)
    ensures var L, R := old(a.left.Points()), old(a.right.Points());
      (p.coords[a.dimensionIndex] <= a.median ==> a.left.Points() == L + multiset{p} && a.right.Points() == R) &&
      (p.coords[a.dimensionIndex] > a.median ==> a.left.Points() == L && a.right.Points() == R + multiset{p})
    ensures old(a.Partitioned()) ==> a.left.Partitioned() && a.right.Partitioned()
    ensures old(a.Partitioned()) ==> forall x :: x in old(a.left.Points()) ==> x.coords[a.dimensionIndex] <= a.median
    ensures old(a.Partitioned()) ==> forall x :: x in old(a.right.Points()) ==> a.median <= x.coords[a.dimensionIndex]
  {
  }

  /** Hence such an `a` has regrown too. */
  twostate lemma ClimbStep(new a: Node, new c: Node, new s: Node, new p: Point, new New: set<Node>)
    requires ClimbReady(a, c, s, p, New)
    ensures Regrown(a, p)
  {
    ClimbChildren(a, c, s, p, New);
    ClimbFootprint(a, c, s, p, New);
    ClimbContents(a, c, s, p, New);
    Rejoined(a, p, old(a.left.Points()), old(a.right.Points()), old(a.Partitioned()));
  }

  /** Within a grown route, the `i`-th node is ready to climb to once the
      node below it has regrown. */
  twostate lemma ReadyAt(new n: Node, new route: seq<Node>, new p: Point, new New: set<Node>, i: nat)
    requires Grew(n, route, p, New) && 0 < i < |route|
    requires Regrown(route[i - 1], p) && route[i - 1].Repr == old(route[i - 1].Repr) + New
    ensures old(Other(route[i], route[i - 1])) != null
    ensures ClimbReady(route[i], route[i - 1], old(Other(route[i], route[i - 1])), p, New)
    ensures route[i].Repr == old(route[i].Repr) + New
  {
    assert old(Linked(n, route, p, i));
    SiblingKept(n, route, p, New, i);
  }

  /** Hence the `i`-th node regrows once the node below it has. */
  twostate lemma ClimbAt(new n: Node, new route: seq<Node>, new p: Point, new New: set<Node>, i: nat)
    requires Grew(n, route, p, New) && 0 < i < |route|
    requires Regrown(route[i - 1], p) && route[i - 1].Repr == old(route[i - 1].Repr) + New
    ensures Regrown(route[i], p) && route[i].Repr == old(route[i].Repr) + New
  {
    ReadyAt(n, route, p, New, i);
    ClimbStep(route[i], route[i - 1], old(Other(route[i], route[i - 1])), p, New);
  }

  /** The walk back up a route from its `i`-th node: once that node has
      regrown, so has the node at the top. */
  twostate lemma {:induction false} ClimbFrom(new n: Node, new route: seq<Node>, new p: Point, new New: set<Node>, i: nat)
    requires Grew(n, route, p, New) && i < |route|
    requires Regrown(route[i], p) && route[i].Repr == old(route[i].Repr) + New
    ensures Regrown(route[|route| - 1], p)
    decreases |route| - i
  {
    if i < |route| - 1 {
      ClimbAt(n, route, p, New, i + 1);
      ClimbFrom(n, route, p, New, i + 1);
    }
  }

  /**
   * A leaf whose bucket was `before` after `p` was added to it: it is split
   * exactly when the bucket overflowed, and a leaf that stays one has `p` at
   * the end of its bucket. It reads only those two fields of the leaf.
   */
  ghost predicate Grown(leaf: Node, before: seq<Point>, p: Point)
    reads leaf`isSplit, leaf`storedData
  {
    (leaf.isSplit <==> |before| + 1 > leaf.bucketSize) &&
    (!leaf.isSplit ==> leaf.storedData == before + [p])
  }

  /**
   * After the leaf of a linked route has regrown, gaining the nodes `New`,
   * and the footprint of every node above it has gained `New` while nothing
   * else changed, the top of the route has regrown.
   */
  twostate lemma Settle(new n: Node, new route: seq<Node>, new p: Point, new New: set<Node>, new above: set<Node>)
    requires old(allocated(n)) && old(allocated(route)) && old(RouteLinks(n, route, p))
    requires above == set k | 0 < k < |route| :: route[k]
    requires Regrown(route[0], p) && route[0].Repr == old(route[0].Repr) + New
    requires forall a :: a in above ==> a.Repr == old(a.Repr) + New
    requires forall m :: m in old(n.Repr) && m != route[0] ==> Kept(m)
    requires forall m :: m in old(n.Repr) && m != route[0] && m !in above ==> unchanged(m)
    ensures Regrown(n, p)
  {
    assert Grew(n, route, p, New) by {
      forall k | 0 < k < |route|
        ensures route[k].Repr == old(route[k].Repr) + New
      {
        assert route[k] in above;
      }
      forall m | m in old(n.Repr) && route[0] !in old(m.Repr)
        ensures unchanged(m)
      {
        assert forall k :: 0 <= k < |route| ==> m != route[k];
        assert m !in above;
      }
    }
    ClimbFrom(n, route, p, New, 0);
  }

  /** Extends the footprint of every node in `above` by the nodes `New`;
      nothing else changes, so a valid subtree `below` disjoint from `above`
      keeps its footprint, validity, points and partition. */
  ghost method Extend(above: set<Node>, New: set<Node>, below: Node)
    requires below.Valid() && above !! below.Repr
    modifies above`Repr
    ensures forall a :: a in above ==> a.Repr == old(a.Repr) + New
    ensures below.Valid() && below.Repr == old(below.Repr) && below.Points() == old(below.Points())
    ensures old(below.Partitioned()) ==> below.Partitioned()
  {
    forall a | a in above {
      a.Repr := a.Repr + New;
    }
    Untouched(below);
  }

  /** `Inserter`: adds a point to the leaf it routes to. */
  class Inserter {
    const visitor: Visitor

    constructor ()
      ensures fresh(visitor) && visitor.nodePath == []
    {
      visitor := new Visitor();
    }

    /**
     * `Insert`: records the route to `p` and adds `p` to the leaf at its front,
     * which splits when it overflows. A route always ends in a leaf, so the
     * point is always added; no other node's bucket, split flag, median or
     * children change.
     */
    method Insert(n: Node, p: Point) returns (added: bool)
      requires n.Valid()
      requires forall m :: m in visitor.nodePath ==> m in n.Repr
      modifies visitor, n.Repr
      ensures added
      ensures visitor.nodePath == old(Route(n, p)) + old(visitor.nodePath)
      ensures forall m :: m in visitor.nodePath ==> m in n.Repr
      ensures n.Valid() && n.Points() == old(n.Points()) + multiset{p}
      ensures old(n.Repr) <= n.Repr && fresh(n.Repr - old(n.Repr))
      ensures old(n.Partitioned()) ==> n.Partitioned()
      ensures var leaf := old(RouteLeaf(n, p));
        leaf in n.Repr && leaf.Valid() && leaf.Points() == multiset(old(leaf.storedData)) + multiset{p} &&
        Grown(leaf, old(leaf.storedData), p) &&
        forall m :: m in old(n.Repr) && m != leaf ==>
          m.storedData == old(m.storedData) && m.isSplit == old(m.isSplit) && m.median == old(m.median) &&
          m.left == old(m.left) && m.right == old(m.right)
    {
      label Start:
      var nodes := visitor.Visit(n, p);
      Untouched@Start(n);
      ValidClosed(n, nodes[0]);
      added := AddAlong(n, p, nodes[0]);
      ValidClosed(n, nodes[0]);
    }

    /**
     * Adds `p` to the leaf `leaf`, which may split, and extends the footprint
     * of every node in `above` by the nodes the split created. Only `leaf`
     * and those footprints change.
     */
    static method AddToLeaf(leaf: Node, p: Point, ghost above: set<Node>) returns (added: bool)
      requires leaf.Valid() && !leaf.isSplit && leaf !in above
      modifies leaf, above`Repr
      ensures added && Regrown(leaf, p) && Grown(leaf, old(leaf.storedData), p)
      ensures forall a :: a in above ==> a.Repr == old(a.Repr) + (leaf.Repr - old(leaf.Repr))
    {
      added := leaf.AddPoint(p);
      ghost var New := leaf.Repr - old(leaf.Repr);
      assert above !! leaf.Repr;
      Extend(above, New, leaf);
    }

    /**
     * `nodes.front()->AddPoint(point)`: adds `p` directly to `leaf`, the leaf
     * `p` routes to from `n`. The leaf may split; the footprint
     * of every node above it on the route gains the nodes the split created,
     * and `Settle` walks the route back up in proof only. Only `leaf` and the
     * footprints change.
     */
    static method AddAlong(n: Node, p: Point, leaf: Node) returns (added: bool)
      requires n.Valid() && leaf == RouteLeaf(n, p)
      modifies leaf, n.Repr`Repr
      ensures added
      ensures n.Valid() && n.Points() == old(n.Points()) + multiset{p}
      ensures old(n.Repr) <= n.Repr && fresh(n.Repr - old(n.Repr))
      ensures old(n.Partitioned()) ==> n.Partitioned()
      ensures leaf.Valid() && leaf.Points() == multiset(old(leaf.storedData)) + multiset{p}
      ensures Grown(leaf, old(leaf.storedData), p)
      ensures forall m :: m in old(n.Repr) && m != leaf ==> Kept(m)
    {
      ghost var route := LinkRoute(n, p);
      ghost var above := set k | 0 < k < |route| :: route[k];
      assert above <= n.Repr && leaf !in above by {
        forall k | 0 < k < |route|
          ensures route[k] != leaf
        {
          assert Linked(n, route, p, k);
        }
      }
      added := AddToLeaf(leaf, p, above);
      ghost var New := leaf.Repr - old(leaf.Repr);
      forall m | m in old(n.Repr) && m != leaf
        ensures Kept(m)
      {
      }
      forall m | m in old(n.Repr) && m != leaf && m !in above
        ensures unchanged(m)
      {
      }
      Settle(n, route, p, New, above);
    }
  }

  /** `Deleter`: removes a point from the leaf it routes to. */
  class Deleter {
    const visitor: Visitor

    constructor ()
      ensures fresh(visitor) && visitor.nodePath == []
    {
      visitor := new Visitor();
    }

    /**
     * `Remove`: records the route to `p` and erases every copy of `p` from the
     * leaf at its front, reporting whether there was one. No other bucket
     * changes, so copies of `p` stored in other leaves stay.
     */
    method Remove(n: Node, p: Point) returns (removed: bool)
      requires n.Valid()
      requires forall m :: m in visitor.nodePath ==> m in n.Repr
      modifies visitor, n.Repr`storedData
      ensures visitor.nodePath == old(Route(n, p)) + old(visitor.nodePath)
      ensures forall m :: m in visitor.nodePath ==> m in n.Repr
      ensures var leaf := old(RouteLeaf(n, p));
        (removed <==> exists x :: x in old(leaf.storedData) && Equal(x, p)) &&
        leaf.storedData == RemoveAll(old(leaf.storedData), p) &&
        (forall m :: m in n.Repr && m != leaf ==> m.storedData == old(m.storedData)) &&
        n.Points() + old(multiset(leaf.storedData)) == old(n.Points()) + multiset(leaf.storedData)
      ensures n.Valid()
      ensures old(n.Partitioned()) ==> n.Partitioned()
    {
      label Start:
      var nodes := visitor.Visit(n, p);
      Untouched@Start(n);
      removed := RemoveFrom(n, nodes[0], p);
    }

    /** Erases every copy of `p` from the bucket of `leaf`, a leaf under `n`,
        and accounts for the points and the partitioning under `n`. */
    static method RemoveFrom(n: Node, leaf: Node, p: Point) returns (removed: bool)
      requires n.Valid() && leaf in n.Repr && !leaf.isSplit
      modifies leaf`storedData
      ensures removed <==> exists x :: x in old(leaf.storedData) && Equal(x, p)
      ensures leaf.storedData == RemoveAll(old(leaf.storedData), p)
      ensures n.Points() + old(multiset(leaf.storedData)) == old(n.Points()) + multiset(leaf.storedData)
      ensures n.Valid()
      ensures old(n.Partitioned()) ==> n.Partitioned()
    {
      ghost var before, rest, total := multiset(leaf.storedData), PointsWith(n, leaf, multiset{}), n.Points();
      BucketAccounting(n, leaf);
      ghost var parted := n.Partitioned();
      removed := RemoveFromBucket(n, leaf, p);
      BucketShrunk(n, leaf, before, rest, total, parted);
    }

    /** The bucket update itself; the views of `n` that skip the bucket of
        `leaf` see no change. */
    static method RemoveFromBucket(n: Node, leaf: Node, p: Point) returns (removed: bool)
      requires n.Valid() && leaf in n.Repr && !leaf.isSplit
      modifies leaf`storedData
      ensures removed <==> exists x :: x in old(leaf.storedData) && Equal(x, p)
      ensures leaf.storedData == RemoveAll(old(leaf.storedData), p)
      ensures n.Valid()
      ensures PointsWith(n, leaf, multiset{}) == old(PointsWith(n, leaf, multiset{}))
      ensures PartitionedWith(n, leaf, old(multiset(leaf.storedData))) == old(PartitionedWith(n, leaf, multiset(leaf.storedData)))
    {
      ValidClosed(n, leaf);
      removed := leaf.RemovePoint(p);
      BucketViewsKept(n, leaf);
    }
  }
}
