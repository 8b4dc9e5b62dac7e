/**
 * The tree itself (include/KDTree.hxx). Until it is split, the tree is a plain
 * buffer of points; splitting builds a root node from that buffer, and from
 * then on every operation goes through one of the five action objects, each
 * with its own visitor.
 */
module Trees {
  import opened Points
  import opened Metrics
  import opened Algorithms
  import opened Sorting
  import opened Nodes
  import opened Actions

  /** `sumElems` in `size()`: the sizes of the leaf buckets under `n`, added up. */
  function SumSizes(n: Node): nat
    reads n.Repr
    requires n.Shape()
    decreases n.Repr
  {
    if n.isSplit then SumSizes(n.left) + SumSizes(n.right) else |n.storedData|
  }

  /** Adding up the bucket sizes counts every point of the subtree once. */
  lemma {:induction false} SumSizesCountsPoints(n: Node)
    requires n.Shape()
    ensures SumSizes(n) == |n.Points()|
    decreases n.Repr
  {
    if n.isSplit {
      SumSizesCountsPoints(n.left);
      SumSizesCountsPoints(n.right);
    }
  }

  /** The counts of a removal: when `p`'s copies leave one bucket, the total
      loses exactly those copies and keeps every other point. */
  lemma RemovalCounts(total: multiset<Point>, total': multiset<Point>, b: multiset<Point>, b': multiset<Point>, p: Point)
    requires total' + b == total + b'
    requires forall x :: b'[x] == if Equal(x, p) then 0 else b[x]
    ensures forall x :: total'[x] == if Equal(x, p) then total[x] as int - b[x] else total[x]
    ensures b' == b ==> total' == total
  {
    forall x
      ensures total'[x] == if Equal(x, p) then total[x] as int - b[x] else total[x]
    {
      assert (total' + b)[x] == (total + b')[x];
    }
  }

  /** The points under the anchor of a visit lie in the tree. */
  lemma {:induction false} PointsBelow(n: Node, a: Node)
    requires n.Shape() && a in n.Repr
    ensures a.Shape() && a.Points() <= n.Points()
    decreases n.Repr
  {
    if a != n {
      if a in n.left.Repr {
        PointsBelow(n.left, a);
      } else {
        PointsBelow(n.right, a);
      }
    }
  }

  /** What the distance finder collects under a node `a` of the tree: every
      point of `a` within `dist` of `q`, as often as it is stored, and nothing else. */
  lemma WithinBelow(n: Node, a: Node, q: Point, dist: real)
    requires n.Valid() && a in n.Repr
    ensures a.Shape() && a.Points() <= n.Points()
    ensures forall x ::
      multiset(WithinOver(BucketsBelow(n, a), q, dist))[x] == if SquaredDist(q, x) <= dist then a.Points()[x] else 0
  {
    ValidClosed(n, a);
    PointsBelow(n, a);
    WithinOverIsFilter(Buckets(a), q, dist);
    BucketsHoldPoints(a);
  }

  /** Every node the visitor `v` has recorded lies in `s`. */
  ghost predicate PathWithin(v: Visitor, s: set<Node>)
    reads v
  {
    forall m :: m in v.nodePath ==> m in s
  }

  /** `KDTree`: a point buffer that turns into a K-D tree once split. */
  class KDTree {
    var isSplit: bool
    const bucketSize: nat
    const maxSizeBeforeSplit: nat
    var storedData: seq<Point>
    var root: Node?
    const inserter: Inserter
    const deleter: Deleter
    const nearestFinder: NearestFinder
    const nNearestFinder: NNearestFinder
    const distanceFinder: DistanceFinder

    /** The visitors of the five action objects. */
    ghost function Visitors(): set<Visitor> {
      {inserter.visitor, deleter.visitor, nearestFinder.visitor, nNearestFinder.visitor, distanceFinder.visitor}
    }

    /** Every action object owns a visitor of its own. */
    ghost predicate VisitorsDistinct() {
      inserter.visitor != deleter.visitor && inserter.visitor != nearestFinder.visitor &&
      inserter.visitor != nNearestFinder.visitor && inserter.visitor != distanceFinder.visitor &&
      deleter.visitor != nearestFinder.visitor && deleter.visitor != nNearestFinder.visitor &&
      deleter.visitor != distanceFinder.visitor && nearestFinder.visitor != nNearestFinder.visitor &&
      nearestFinder.visitor != distanceFinder.visitor && nNearestFinder.visitor != distanceFinder.visitor
    }

    /** Every node any visitor has recorded lies in `s`. */
    ghost predicate PathsWithin(s: set<Node>)
      reads Visitors()
    {
      PathWithin(inserter.visitor, s) && PathWithin(deleter.visitor, s) && PathWithin(nearestFinder.visitor, s) &&
      PathWithin(nNearestFinder.visitor, s) && PathWithin(distanceFinder.visitor, s)
    }

    /**
     * The tree's structure: an unsplit tree has no root and no visitor has
     * walked anywhere; a split tree has a valid, partitioned root at depth 0
     * with the tree's bucket size, and its buffer was moved into the root; the
     * visitors only ever recorded nodes under the root.
     */
    ghost predicate Wf()
      reads this, root, Visitors(), Nodes()
    {
      bucketSize >= 1 && VisitorsDistinct() &&
      (isSplit <==> root != null) &&
      (root != null ==>
        root.Valid() && root.Partitioned() && root.depth == 0 && root.bucketSize == bucketSize && storedData == []) &&
      PathsWithin(Nodes())
    }

    /** The structure, and an unsplit tree buffers at most
        `maxSizeBeforeSplit` points. */
    ghost predicate Valid()
      reads this, root, Visitors(), Nodes()
    {
      Wf() && (root == null ==> |storedData| <= maxSizeBeforeSplit)
    }

    /** The points the tree holds: the buffer, or the points under the root. */
    ghost function Contents(): multiset<Point>
      reads this, root, if root == null then {} else root.Repr
      requires root != null ==> root.Shape()
    {
      if root == null then multiset(storedData) else root.Points()
    }

    /** The nodes under the root, none before the split. */
    ghost function Nodes(): set<Node>
      reads this, root
    {
      if root == null then {} else root.Repr
    }

    /**
     * Builds a tree with the given bucket size and split threshold, holding
     * `data`; it splits at once when `data` exceeds the threshold. A bucket
     * size of zero would make the first split recurse forever.
     */
    constructor (bucketSize: nat, maxSize: nat := 10000, data: seq<Point> := [])
      requires bucketSize >= 1
      ensures Valid() && fresh(Nodes())
      ensures fresh(inserter.visitor) && fresh(deleter.visitor) && fresh(nearestFinder.visitor) && fresh(nNearestFinder.visitor) && fresh(distanceFinder.visitor)
      ensures inserter.visitor.nodePath == [] && deleter.visitor.nodePath == [] && nearestFinder.visitor.nodePath == [] && nNearestFinder.visitor.nodePath == [] && distanceFinder.visitor.nodePath == []
      ensures this.bucketSize == bucketSize && maxSizeBeforeSplit == maxSize
      ensures Contents() == multiset(data)
      ensures isSplit <==> |data| > maxSize
      ensures !isSplit ==> storedData == data
    {
      isSplit := false;
      this.bucketSize := bucketSize;
      maxSizeBeforeSplit := maxSize;
      storedData := data;
      root := null;
      inserter := new Inserter();
      deleter := new Deleter();
      nearestFinder := new NearestFinder();
      nNearestFinder := new NNearestFinder();
      distanceFinder := new DistanceFinder();
      new;
      UnsplitWf();
      SplitIfOverfull();
    }

    /** A tree with no root whose visitors have walked nowhere is well formed. */
    lemma UnsplitWf()
      requires bucketSize >= 1 && VisitorsDistinct() && !isSplit && root == null
      requires forall v :: v in Visitors() ==> v.nodePath == []
      ensures Wf()
    {
    }

    /** The check the constructor and `AddPoint` make on an unsplit tree: it
        is split once its buffer holds more than `maxSizeBeforeSplit` points. */
    method SplitIfOverfull()
      requires Wf() && root == null
      modifies this
      ensures Valid() && fresh(Nodes())
      ensures Contents() == old(Contents())
      ensures isSplit <==> |old(storedData)| > maxSizeBeforeSplit
      ensures !isSplit ==> storedData == old(storedData)
    {
      if |storedData| > maxSizeBeforeSplit {
        SplitTree();
      }
    }

    /**
     * `SplitTree`: marks the tree split and, when it has no root yet, builds
     * one at depth 0 from the buffer, which is left empty. Splitting a split
     * tree changes nothing.
     */
    method SplitTree()
      requires Wf()
      modifies this
      ensures Valid() && fresh(Nodes() - old(Nodes()))
      ensures isSplit && Contents() == old(Contents())
      ensures old(isSplit) ==> root == old(root) && storedData == old(storedData)
      ensures !old(isSplit) ==>
        storedData == [] && fresh(root.Repr) && (root.isSplit <==> |old(storedData)| > bucketSize)
    {
      if root == null {
        BuildRoot();
      } else {
        isSplit := true;
      }
    }

    /** The first split: a root at depth 0 built from the buffer, which is
        left empty. */
    method BuildRoot()
      requires Wf() && root == null
      modifies this
      ensures Valid()
      ensures isSplit && root != null && root.Points() == old(multiset(storedData))
      ensures storedData == [] && fresh(root.Repr) && (root.isSplit <==> |old(storedData)| > bucketSize)
    {
      var r := new Node(storedData, 0, bucketSize);
      assert PathsWithin(r.Repr);
      label Built:
      isSplit, root, storedData := true, r, [];
      Untouched@Built(r);
      RootedValid();
    }

    /** A split tree whose root is a fresh, valid, partitioned depth-0 node is
        valid. */
    lemma RootedValid()
      requires bucketSize >= 1 && VisitorsDistinct() && isSplit && storedData == []
      requires root != null && root.Valid() && root.Partitioned()
      requires root.depth == 0 && root.bucketSize == bucketSize && PathsWithin(root.Repr)
      ensures Valid()
    {
    }

    /**
     * `AddPoint`: an unsplit tree buffers the point and splits once the buffer
     * exceeds the threshold; a split tree hands the point to its inserter.
     * Either way the point is added.
     */
    method AddPoint(p: Point) returns (added: bool)
      requires Valid()
      modifies this, inserter.visitor, Nodes()
      ensures Valid() && fresh(Nodes() - old(Nodes()))
      ensures added && Contents() == old(Contents()) + multiset{p}
      ensures isSplit <==> old(isSplit) || |old(storedData)| + 1 > maxSizeBeforeSplit
      ensures !isSplit ==> storedData == old(storedData) + [p]
      ensures unchanged(deleter.visitor, nearestFinder.visitor, nNearestFinder.visitor, distanceFinder.visitor)
      ensures !old(isSplit) ==> unchanged(inserter.visitor)
      ensures old(isSplit) ==>
        root == old(root) && inserter.visitor.nodePath == old(Route(root, p)) + old(inserter.visitor.nodePath) &&
        var leaf := old(RouteLeaf(root, p));
        leaf in root.Repr && leaf.Valid() && leaf.Points() == multiset(old(leaf.storedData)) + multiset{p} &&
        Grown(leaf, old(leaf.storedData), p) &&
        forall m :: m in old(root.Repr) && m != leaf ==>
          m.storedData == old(m.storedData) && m.isSplit == old(m.isSplit) && m.median == old(m.median) &&
          m.left == old(m.left) && m.right == old(m.right)
    {
      if root == null {
        BufferPoint(p);
        return true;
      }
      added := InsertPoint(p);
    }

    /** `AddPoint` before the split: the point joins the buffer, which is
        split once it exceeds the threshold. */
    method BufferPoint(p: Point)
      requires Valid() && root == null
      modifies this
      ensures Valid() && fresh(Nodes())
      ensures Contents() == old(Contents()) + multiset{p}
      ensures isSplit <==> |old(storedData)| + 1 > maxSizeBeforeSplit
      ensures !isSplit ==> storedData == old(storedData) + [p]
    {
      storedData := storedData + [p];
      SplitIfOverfull();
    }

    /** `AddPoint` after the split: the inserter adds the point to the leaf
        it routes to; only its own visitor walks, and no other node changes. */
    method InsertPoint(p: Point) returns (added: bool)
      requires Valid() && root != null
      modifies inserter.visitor, Nodes()
      ensures Valid() && fresh(Nodes() - old(Nodes()))
      ensures added && root == old(root) && isSplit && Contents() == old(Contents()) + multiset{p}
      ensures inserter.visitor.nodePath == old(Route(root, p)) + old(inserter.visitor.nodePath)
      ensures unchanged(deleter.visitor, nearestFinder.visitor, nNearestFinder.visitor, distanceFinder.visitor)
      ensures var leaf := old(RouteLeaf(root, p));
        leaf in root.Repr && leaf.Valid() && leaf.Points() == multiset(old(leaf.storedData)) + multiset{p} &&
        Grown(leaf, old(leaf.storedData), p) &&
        forall m :: m in old(root.Repr) && m != leaf ==>
          m.storedData == old(m.storedData) && m.isSplit == old(m.isSplit) && m.median == old(m.median) &&
          m.left == old(m.left) && m.right == old(m.right)
    {
      added := inserter.Insert(root, p);
    }

    /**
     * `RemovePoint`: an unsplit tree erases every copy of `p` from its buffer;
     * a split tree hands the point to its deleter, which erases the copies in
     * the leaf `p` routes to. Either way the answer says whether a copy was
     * erased, and no other point is touched.
     */
    method RemovePoint(p: Point) returns (removed: bool)
      requires Valid()
      modifies this`storedData, deleter.visitor, Nodes()`storedData
      ensures Valid() && root == old(root) && isSplit == old(isSplit)
      ensures forall x :: !Equal(x, p) ==> Contents()[x] == old(Contents())[x]
      ensures !removed ==> Contents() == old(Contents())
      ensures unchanged(inserter.visitor, nearestFinder.visitor, nNearestFinder.visitor, distanceFinder.visitor)
      ensures !isSplit ==>
        storedData == RemoveAll(old(storedData), p) &&
        (removed <==> exists x :: x in old(storedData) && Equal(x, p)) &&
        unchanged(deleter.visitor)
      ensures isSplit ==>
        deleter.visitor.nodePath == old(Route(root, p)) + old(deleter.visitor.nodePath) &&
        var leaf := old(RouteLeaf(root, p));
        (removed <==> exists x :: x in old(leaf.storedData) && Equal(x, p)) &&
        leaf.storedData == RemoveAll(old(leaf.storedData), p) &&
        (forall m :: m in root.Repr && m != leaf ==> m.storedData == old(m.storedData)) &&
        forall x :: Equal(x, p) ==> Contents()[x] == old(Contents())[x] as int - old(multiset(leaf.storedData))[x]
    {
      if root == null {
        removed := RemoveBuffered(p);
      } else {
        ghost var leaf := RouteLeaf(root, p);
        removed := DeleteFromLeaf(p);
        RemovalCounts(old(root.Points()), root.Points(), old(multiset(leaf.storedData)), multiset(leaf.storedData), p);
      }
    }

    /** `RemovePoint` before the split: every copy of `p` is erased from the
        buffer, and the answer says whether there was one. */
    method RemoveBuffered(p: Point) returns (removed: bool)
      requires Valid() && root == null
      modifies this`storedData
      ensures Valid() && storedData == RemoveAll(old(storedData), p)
      ensures removed <==> exists x :: x in old(storedData) && Equal(x, p)
      ensures forall x :: !Equal(x, p) ==> Contents()[x] == old(Contents())[x]
      ensures !removed ==> Contents() == old(Contents())
    {
      var kept := RemoveAll(storedData, p);
      if |kept| == |storedData| {
        return false;
      }
      storedData := kept;
      return true;
    }

    /** The deleter's work on the tree: only the bucket of the leaf `p` routes
        to changes, and the points of the tree change as that bucket does. */
    method DeleteFromLeaf(p: Point) returns (removed: bool)
      requires Valid() && root != null
      modifies deleter.visitor, root.Repr`storedData
      ensures Valid() && root == old(root) && isSplit
      ensures deleter.visitor.nodePath == old(Route(root, p)) + old(deleter.visitor.nodePath)
      ensures unchanged(inserter.visitor, nearestFinder.visitor, nNearestFinder.visitor, distanceFinder.visitor)
      ensures var leaf := old(RouteLeaf(root, p));
        (removed <==> exists x :: x in old(leaf.storedData) && Equal(x, p)) &&
        leaf.storedData == RemoveAll(old(leaf.storedData), p) &&
        (forall m :: m in root.Repr && m != leaf ==> m.storedData == old(m.storedData)) &&
        root.Points() + old(multiset(leaf.storedData)) == old(root.Points()) + multiset(leaf.storedData)
    {
      removed := deleter.Remove(root, p);
    }

    /**
     * `FindNearest`: an unsplit tree answers with the default point; a split
     * tree asks its nearest finder, which scans the leaves under the anchor of
     * its visitor's path and leaves those buckets sorted by distance.
     */
    method FindNearest(q: Point) returns (r: Point)
      requires Valid()
      modifies nearestFinder.visitor, Nodes()`storedData
      ensures Valid() && Contents() == old(Contents())
      ensures root == null ==> r == DefaultPoint() && unchanged(nearestFinder.visitor)
      ensures root != null ==>
        nearestFinder.visitor.nodePath == old(Route(root, q)) + old(nearestFinder.visitor.nodePath) &&
        var a := Anchor(nearestFinder.visitor.nodePath);
        a in root.Repr && Some(r) == old(NearestOver(BucketsBelow(root, a), q, None)) &&
        forall m :: m in root.Repr ==>
          m.storedData == if m in a.Repr then SortBy(old(m.storedData), ByDistanceFrom(q)) else old(m.storedData)
    {
      if root == null {
        return DefaultPoint();
      }
      r := nearestFinder.Find(root, q);
    }

    /**
     * `FindNNearest`: an unsplit tree answers with nothing; a split tree asks
     * its N-nearest finder, which sorts what the leaves under the anchor
     * return and keeps the first `k`, a sorted selection of those points with
     * none left out nearer.
     */
    method FindNNearest(q: Point, k: nat) returns (r: seq<Point>)
      requires Valid()
      modifies nNearestFinder.visitor, Nodes()`storedData
      ensures Valid() && Contents() == old(Contents())
      ensures root == null ==> r == [] && unchanged(nNearestFinder.visitor)
      ensures root != null ==>
        nNearestFinder.visitor.nodePath == old(Route(root, q)) + old(nNearestFinder.visitor.nodePath) &&
        var a := Anchor(nNearestFinder.visitor.nodePath);
        a in root.Repr && r == NNearestIn(old(NNearestOver(BucketsBelow(root, a), q, k)), q, k) &&
        forall m :: m in root.Repr ==>
          m.storedData == if m in a.Repr then SortBy(old(m.storedData), ByDistanceFrom(q)) else old(m.storedData)
    {
      if root == null {
        return [];
      }
      r := nNearestFinder.Find(root, q, k);
    }

    /**
     * `FindWithinDistance`: an unsplit tree answers with nothing; a split tree
     * asks its distance finder, whose answer holds every point under the
     * anchor within `dist` of `q`, as often as it is stored, and nothing else.
     */
    method FindWithinDistance(q: Point, dist: real) returns (r: seq<Point>)
      requires Valid()
      modifies distanceFinder.visitor
      ensures Valid() && Contents() == old(Contents())
      ensures root == null ==> r == [] && unchanged(distanceFinder.visitor)
      ensures root != null ==>
        distanceFinder.visitor.nodePath == old(Route(root, q)) + old(distanceFinder.visitor.nodePath) &&
        var a := Anchor(distanceFinder.visitor.nodePath);
        a in root.Repr && a.Shape() && a.Points() <= Contents() &&
        forall x :: multiset(r)[x] == if SquaredDist(q, x) <= dist then a.Points()[x] else 0
    {
      if root == null {
        return [];
      }
      label Before:
      r := distanceFinder.Find(root, q, dist);
      Untouched@Before(root);
      WithinBelow(root, Anchor(distanceFinder.visitor.nodePath), q, dist);
    }

    /** `size()`: the buffer's length, or the bucket sizes added up over the
        leaves; either way the number of points the tree holds. */
    function Size(): (s: nat)
      reads this, root, Visitors(), Nodes()
      requires Valid()
      ensures s == |Contents()|
    {
      if root == null then |storedData|
      else
        SumSizesCountsPoints(root);
        SumSizes(root)
    }

    /** `GetBucketSize`: the leaf capacity, shared by every node. */
    function GetBucketSize(): (r: nat)
      reads this, root, Visitors(), Nodes()
      requires Valid()
      ensures r >= 1 && (root != null ==> r == root.bucketSize)
    {
      bucketSize
    }

    /** `GetMaxSizeBeforeSplit`: the threshold, which an unsplit tree never
        exceeds. */
    function GetMaxSizeBeforeSplit(): (r: nat)
      reads this, root, Visitors(), Nodes()
      requires Valid()
      ensures root == null ==> |Contents()| <= r
    {
      maxSizeBeforeSplit
    }

    /** `IsSplit`: whether the tree has been split, which is whether it has a
        root. */
    function IsSplit(): (r: bool)
      reads this, root, Visitors(), Nodes()
      requires Valid()
      ensures r <==> root != null
    {
      isSplit
    }
  }

  /**
   * A tree with threshold 2 built from two points stays unsplit; adding a
   * third point splits it, and it then holds three points.
   */
  method SplitsOnThirdPoint(a: Point, b: Point, c: Point) returns (before: bool, after: bool, size: nat)
    ensures !before && after && size == 3
  {
    var t := new KDTree(32, 2, [a, b]);
    before := t.IsSplit();
    var added := t.AddPoint(c);
    after := t.IsSplit();
    size := t.Size();
  }

  /**
   * Removing one of three buffered points with distinct payloads from an
   * unsplit tree succeeds and leaves two points; removing it again fails.
   */
  method RemoveFromBuffer(a: Point, b: Point, c: Point) returns (first: bool, second: bool, size: nat)
    requires !Equal(a, c) && !Equal(b, c)
    ensures first && !second && size == 2
  {
    var t := new KDTree(32, 10000, [a, b, c]);
    assert !t.isSplit && t.storedData == [a, b, c];
    first := t.RemovePoint(c);
    assert t.storedData == [a, b];
    second := t.RemovePoint(c);
    size := t.Size();
  }
}
