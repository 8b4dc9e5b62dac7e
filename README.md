# A verified model of a header-only K-D tree

This project models the core of a C++ header-only K-D tree library in Dafny.
The tree stores points: a payload plus `Dims` coordinates. It answers three
kinds of query: the nearest point, the `k` nearest points, and the points
within a distance.

The model follows the library file by file:

- `points.dfy` (module `Points`): the `Point` struct and its payload-only
  equality (`include/Point.hxx`). `Dims` is a module constant that is left
  unspecified, so every result holds for any positive dimension count.
  Coordinates are exact `real`s and the payload is an integer id.
- `metrics.dfy` (module `Metrics`): the `SquaredDist` metric
  (`include/Metrics.hxx`). It is a loop over dimensions, proved against a
  recursive sum.
- `utils.dfy` (module `JJUtils`): `split` and the bounded FIFO
  `fixed_size_deque` (`include/JJUtils.hxx`).
- `algorithms.dfy` and `sorting.dfy`: the standard-library algorithms the core
  calls.
  - `std::remove` with `erase`, and `std::copy_if`, are an order-keeping
    `Filter`.
  - `std::sort` is an insertion sort `SortBy`, proved to return a sorted
    permutation. `SortBy` keeps equal keys in input order. That is one of
    the orders `std::sort` may produce, but not the only one, so the
    contracts that name `SortBy` fix a tie order the library leaves open
    (see "Left out").
- `node.dfy` (module `Nodes`): the `Node` class (`include/Node.hxx`), with the
  fields the source updates in place and a ghost footprint `Repr`.
  - `Valid` holds the tree shape and the bucket bounds.
  - `Partitioned` says every median separates its two subtrees.
  - `Points` is the multiset of stored points.
- `actions.dfy` (module `Actions`): the `Visitor` and the five action objects
  (`include/Actions.hxx`).
  - Each visitor keeps its recorded path as a field. `Visit` prepends the new
    route to that field and never clears it.
  - Each finder is proved against a function over the leaf buckets, taken in
    left-to-right order.
- `kdtree.dfy` (module `Trees`): the `KDTree` class (`include/KDTree.hxx`).
  - An unsplit tree buffers its points.
  - Splitting builds a root node at depth 0 from the buffer.
  - From then on, every operation goes through an action object.

Some behaviour of the code is modelled as written and proved as such:

- The finders search under the *anchor*: entry `min(|path|, Dims) - 1` of the
  visitor's whole recorded path. When the new route is shorter than `Dims`,
  the anchor is a node recorded by an earlier query, and it can miss the
  query's own leaf (`Actions.StaleAnchorMissesLeaf`). The model proves what each finder
  returns relative to the points under the anchor, and nothing about points
  outside it.
- An empty leaf answers a nearest-point query with the default point, whose
  coordinates are all zero. The nearest finder weighs that answer like a
  stored point, so a query can return a point the tree does not hold
  (`Actions.EmptyLeafCompetes`). When no bucket is empty, the answer is a
  stored point of least distance (`Actions.NearestOverStored`).
- `RemovePoint` erases *every* point whose payload equals the argument's,
  from the buffer or from the one leaf the point routes to. Copies stored in
  other leaves stay.
- A split of an odd number of points takes as median the coordinate of the
  first point of the upper half, and that point goes to the right child.
  `GetChild` sends a point right only when it lies strictly above the median,
  so that point routes left, to a leaf that does not hold it. For three
  points at 0, 1 and 2 on the axis and bucket size 2, removing the point at 1
  erases nothing and the tree keeps it (`Actions.MedianPointRoutesLeft`).
- The N-nearest finder collects each leaf's own top `k` rather than all the
  points. This still yields `k` points nearest to the query among all the
  points under the anchor (`Actions.NNearestOverIsNearest`).

## Model

| member | source | states |
|---|---|---|
| Points.EqualIgnoresCoords | include/Point.hxx:22 | replacing the coordinates of both points, with any coordinates at all, never changes whether they compare equal |
| Points.EqualIsEquivalence | include/Point.hxx:22 | payload equality is reflexive, symmetric and transitive |
| Metrics.Distance | include/Metrics.hxx:19-29 | the loop over dimensions returns the sum of squared coordinate differences over all `Dims` dimensions |
| Metrics.DistanceSymmetric | include/Metrics.hxx:19-29 | `distance(a, b) == distance(b, a)` |
| Metrics.DistanceZero | include/Metrics.hxx:19-29 | the distance is never negative, and it is zero exactly when the coordinate arrays are equal |
| Metrics.DistanceIgnoresPayload | include/Metrics.hxx:25 | the distance depends on the coordinates only, never on the payloads |
| Metrics.UnitCubeDiagonal | tests/testDistance.cxx:18 | in three dimensions the distance from (0,0,0) to (1,1,1) is 3 |
| JJUtils.Split | include/JJUtils.hxx:11-19 | `left + right` is the input in order; `left` has the floor half and `right` the rest. The sizes differ by 0 or 1 and are equal exactly when the length is even. Both halves are shorter than an input of length at least 2 |
| JJUtils.FixedSizeDeque.constructor | include/JJUtils.hxx:34 | the default buffer is empty and bounded by the largest 64-bit `size_t` |
| JJUtils.FixedSizeDeque.WithMaxSize | include/JJUtils.hxx:40 | the buffer is empty and bounded by the given size |
| JJUtils.FixedSizeDeque.Copy | include/JJUtils.hxx:46 | the copy has the same bound and the same contents |
| JJUtils.FixedSizeDeque.Size | include/JJUtils.hxx:58 | the size is the number of buffered elements, never more than the bound or the number of pushes |
| JJUtils.FixedSizeDeque.Empty | include/JJUtils.hxx:101 | `empty()` holds exactly when `size() == 0` |
| JJUtils.FixedSizeDeque.PushBack | include/JJUtils.hxx:88-94 | appends, then drops the front exactly when the bound is exceeded. The buffer always holds the last `min(pushes, bound)` elements pushed, in order. A size within the bound stays within it |
| Algorithms.Filter | include/Node.hxx:143 | the kept elements are exactly the input's elements that the predicate accepts, and there are no more of them than inputs |
| Algorithms.FilterCounts | include/Node.hxx:143 | every accepted element is kept with its multiplicity, and every rejected one is dropped |
| Algorithms.FilterKeepsAll | include/Node.hxx:104-105 | filtering shortens the sequence exactly when some element is rejected; otherwise it returns the input unchanged |
| Algorithms.FilterAppend | include/Node.hxx:143 | filtering distributes over concatenation, so the relative order of kept elements is preserved |
| Sorting.SortByIsSortedPermutation | include/Node.hxx:53-57 | the sort returns a permutation of its input in non-decreasing key order |
| Sorting.SortedFrontIsLeast | include/Node.hxx:118-119 | the front of a sorted permutation of a non-empty bucket is one of its points with the least key |
| Sorting.SortedPrefix | include/Node.hxx:131 | a prefix of a sorted permutation is sorted and drawn from the input, and no point outside it has a smaller key |
| Nodes.RemoveAll | include/Node.hxx:104-107 | after `std::remove` and `erase`, the points left are exactly those whose payload differs from the argument's, with their multiplicities. The length is unchanged exactly when nothing matched, and then so is the sequence |
| Nodes.MedianSeparates | include/Node.hxx:62-70 | on points sorted on the axis, the median is at least every coordinate of the lower half and at most every coordinate of the upper half |
| Nodes.NearestIn | include/Node.hxx:110-121 | on an empty bucket the result is the default point; otherwise it is a stored point, and no stored point is nearer to the query |
| Nodes.NNearestIn | include/Node.hxx:122-133 | returns `min(n, size)` points, sorted by non-decreasing distance and drawn from the bucket |
| Nodes.NNearestInIsNearest | include/Node.hxx:130-131 | no stored point left out is nearer to the query than one returned |
| Nodes.NearestIsFirstOfNNearest | include/Node.hxx:110-133 | on a non-empty bucket, `FindNNearest(q, 1)` is exactly `[FindNearest(q)]` |
| Nodes.WithinDistance | include/Node.hxx:134-146 | returns exactly the stored points within `dist` of the query, each as often as it is stored |
| Nodes.TwoPointMedian | tests/testNode.cxx:52-65 | two points at (0,..,0) and (1,..,1) sorted on axis 0 keep their order, and their median is 0.5 |
| Nodes.Halve | include/Node.hxx:52-70 | the halves are the first `n/2` and the remaining `n - n/2` points of the bucket sorted on the axis, so together they hold its points. The median is `MedianOf` the sorted bucket and separates them |
| Nodes.Node.constructor | include/Node.hxx:33-47 | the node is valid and partitioned, with axis `depth % Dims`. It is split exactly when the data exceeds the bucket size; a leaf keeps the data and median `T()`, and a split node holds no data and the median of its sorted data. The node holds exactly the data |
| Nodes.Node.Split | include/Node.hxx:48-74 | the node becomes split and holds no data, and its median is `MedianOf` the bucket sorted on its axis. The new children sit one level deeper. The left holds the first `n/2` points of the sorted bucket and the right the other `n - n/2`, each split exactly when over capacity. The node is valid and partitioned, and the points are conserved |
| Nodes.Node.Attach | include/Node.hxx:72-73 | hanging two separated, valid children under the node gives a valid, partitioned split node holding their points |
| Nodes.Node.MakeChildren | include/Node.hxx:72-73 | the two new children are fresh, disjoint, valid and partitioned. They hold exactly their halves, and each is split exactly when its half exceeds the bucket size |
| Nodes.Node.GetChild | include/Node.hxx:75-85 | on a split node, the right child is returned exactly when the coordinate on the axis is strictly above the median, so ties go left |
| Nodes.Node.AddPoint | include/Node.hxx:86-101 | a split node returns false and changes nothing. A leaf appends the point and returns true, and it splits exactly when it now exceeds the bucket size. The points grow by the one point, and validity and partitioning are kept |
| Nodes.Node.RemovePoint | include/Node.hxx:102-109 | erases every point with the argument's payload, and returns true exactly when there was one |
| Nodes.Node.FindNearest | include/Node.hxx:110-121 | the answer is `NearestIn` of the bucket; a non-empty bucket is left sorted by distance and keeps its points |
| Nodes.Node.FindNNearest | include/Node.hxx:122-133 | the answer is `NNearestIn` of the bucket; a non-empty bucket is left sorted by distance and keeps its points |
| Nodes.Node.FindWithinDistance | include/Node.hxx:134-146 | the answer is `WithinDistance` of the bucket, in stored order |
| Actions.Route | include/Actions.hxx:27-40 | a route ends at the start node and begins at a leaf of its subtree |
| Actions.RouteSteps | include/Actions.hxx:27-40 | every node of a route lies in the start node's subtree, and each one is `GetChild(p)` of the split node after it |
| Actions.Visitor.Visit | include/Actions.hxx:24-40 | the recorded path becomes the new route, leaf first, followed by every earlier path, and the whole path is returned. A null start records nothing |
| Actions.Anchor | include/Actions.hxx:125 | the anchor is an entry of the recorded path |
| Actions.RouteStepAt | include/Actions.hxx:27-40 | each node of a route above its leaf is a split node, and the entry before it is the child `GetChild(p)` picks |
| Actions.LinkRoute | include/Actions.hxx:27-40 | the route from a valid node ends at that node and begins at the leaf `p` routes to. Each of its nodes is a valid subtree holding that leaf, and each step goes to the child `p` routes to, whose sibling does not hold the leaf |
| Actions.RouteNested | include/Actions.hxx:27-40 | every node of a route lies in the start node's subtree, and the subtree of each one holds the leaf the route ends at |
| Actions.AnchorCoversLeaf | include/Actions.hxx:125 | on a fresh visitor, or on a route of at least `Dims` nodes, the anchor lies on the new route inside the start node's subtree, and the query's own leaf is under it. On a fresh visitor a route of at most `Dims` nodes is anchored at its start |
| Actions.StaleAnchorMissesLeaf | include/Actions.hxx:125 | with `Dims` = 3, in a root with two leaves, a query routed right after one routed left is anchored at the earlier query's leaf: that bucket is the only one scanned, and the query's own leaf is not under the anchor |
| Actions.MedianPointRoutesLeft | include/Node.hxx:62-77 | after an odd split of three points at 0, 1 and 2 with bucket size 2, the median is 1 and the right leaf holds the point at 1. That point routes to the left leaf, which does not hold it, so removing it there erases nothing while the tree still holds it |
| Actions.BucketsHoldPoints | include/Actions.hxx:101-107 | the leaf buckets under a node, in left-to-right order, hold exactly its points |
| Actions.Closer | include/Actions.hxx:110-112 | the result is the candidate or the best: the candidate exactly when there is no best yet or it is strictly nearer. A best at most as far as the candidate is kept, so ties keep the best |
| Actions.NearestOverAppend | include/Actions.hxx:103-107 | scanning the left subtree's leaves and then the right's is scanning their concatenation |
| Actions.NearestOverIsLeast | include/Actions.hxx:101-114 | after one leaf the scan has a best, which is no farther than the starting best or any leaf's answer |
| Actions.NearestOverIsFirstLeast | include/Actions.hxx:101-114 | the scan returns the starting best or the first leaf answer of least distance: strictly nearer than every earlier leaf answer and than the starting best |
| Actions.NearestOverStored | include/Actions.hxx:117-128 | with no empty bucket, the scan from no best returns a stored point, and no stored point is nearer |
| Actions.EmptyLeafCompetes | include/Actions.hxx:110-112 | an empty leaf's default point competes like a stored one, so a query at the origin can return a point that no leaf holds |
| Actions.NearestFinder.FindClosestPoint | include/Actions.hxx:101-114 | the result is the scan `NearestOver` of the leaves under the node, and every bucket under it is left sorted by distance |
| Actions.NearestFinder.ScanBelow | include/Actions.hxx:125 | scanning under the anchor gives the scan's result and sorts only the buckets under the anchor. The tree stays valid and partitioned with the same points |
| Actions.NearestFinder.Find | include/Actions.hxx:117-128 | records the route, then returns the scan from no best of the leaves under the anchor of the whole recorded path. Only those buckets change, and the tree keeps its points |
| Actions.NNearestOverAppend | include/Actions.hxx:149-150 | collecting over the left subtree and then the right is collecting over their concatenation |
| Actions.NNearestOverDrawn | include/Actions.hxx:145-157 | the collected points are drawn from the buckets, and are fewer than `k` only when they are all the points |
| Actions.NNearestOverIsNearest | include/Actions.hxx:160-173 | the first `k` of the sorted per-leaf answers are `min(k, points)` points drawn from the buckets, and no point left out is nearer than one returned |
| Actions.NNearestFinder.FindNClosestPoints | include/Actions.hxx:145-157 | appends to the accumulator each leaf's `FindNNearest` answer in leaf order, and leaves the buckets sorted by distance |
| Actions.NNearestFinder.CollectBelow | include/Actions.hxx:166 | collecting under the anchor sorts only the buckets under it. The tree stays valid and partitioned with the same points |
| Actions.NNearestFinder.Find | include/Actions.hxx:160-174 | records the route, then returns the first `k` of the per-leaf answers under the anchor, sorted by distance. Only those buckets change |
| Actions.WithinOverIsFilter | include/Actions.hxx:191-203 | collecting leaf by leaf equals filtering all the points under the node by distance, in leaf order |
| Actions.WithinOverAppend | include/Actions.hxx:195-196 | collecting over the left subtree and then the right is collecting over their concatenation |
| Actions.DistanceFinder.FindWithinDistance | include/Actions.hxx:191-203 | appends to the accumulator the leaves' within-distance answers in leaf order |
| Actions.DistanceFinder.Find | include/Actions.hxx:206-214 | records the route and returns the within-distance answers of the leaves under the anchor of the whole recorded path |
| Actions.Inserter.Insert | include/Actions.hxx:58-62 | records the route and adds the point to the leaf at its front, which always succeeds. That leaf stays valid and gains exactly the point: it appends it while it fits and is split exactly when it overflows. Every other node keeps its bucket, split flag, median and children. The tree stays valid and partitioned and gains exactly the point; only new nodes join it |
| Actions.Inserter.AddAlong | include/Actions.hxx:61 | adds the point directly to the front of the route, the leaf it routes to. The subtree gains exactly the point and stays valid and partitioned. The leaf stays valid and gains the point; it appends it while it fits and is split exactly when it overflows. Every other node keeps its bucket, split flag, median and children, and only new nodes join the subtree |
| Actions.Inserter.AddToLeaf | include/Actions.hxx:61 | the leaf's `AddPoint` always succeeds on a leaf: it gains exactly the point, stays valid and partitioned, and appends the point while it fits or splits when it overflows. The footprints of the given nodes above it gain exactly the nodes the split created |
| Actions.Deleter.Remove | include/Actions.hxx:80-84 | records the route and erases every copy of the point from the leaf at its front, reporting whether there was one. No other bucket changes, and the tree loses exactly what that bucket lost |
| Actions.Deleter.RemoveFrom | include/Actions.hxx:83 | erasing from one leaf changes the tree's points by that bucket's change and keeps the tree valid and partitioned |
| Trees.SumSizesCountsPoints | include/KDTree.hxx:233-246 | adding up the leaf sizes counts every point of the tree once |
| Trees.KDTree.constructor | include/KDTree.hxx:84-98 | stores the bucket size and the threshold (10000 by default) and holds exactly the data. It is split exactly when the data exceeds the threshold; otherwise the buffer is the data. The five visitors are fresh and have recorded no path |
| Trees.KDTree.SplitIfOverfull | include/KDTree.hxx:96-97 | an unsplit tree is split exactly when its buffer exceeds the threshold, and keeps its points |
| Trees.KDTree.SplitTree | include/KDTree.hxx:104-111 | the tree is split afterwards and keeps its points. The first call moves the buffer into a fresh root, which is split exactly when the buffer exceeds the bucket size; later calls change nothing |
| Trees.KDTree.BuildRoot | include/KDTree.hxx:109 | the root holds exactly the former buffer, and the buffer is left empty |
| Trees.KDTree.AddPoint | include/KDTree.hxx:119-133 | always adds exactly the point. An unsplit tree appends it to the buffer and splits exactly when the buffer then exceeds the threshold, and no visitor walks. A split tree keeps its root, and the inserter records the route; the routed leaf gains the point, appending it while it fits and splitting exactly when it overflows, and every other node keeps its bucket, split flag, median and children. The other four visitors are unchanged |
| Trees.KDTree.BufferPoint | include/KDTree.hxx:123-127 | the buffer gains the point and is split exactly when it now exceeds the threshold |
| Trees.KDTree.InsertPoint | include/KDTree.hxx:131 | the inserter records the route and adds exactly the point at the routed leaf, which appends it while it fits and splits exactly when it overflows. The root stays, every other node keeps its bucket, split flag, median and children, and the other four visitors are unchanged |
| Trees.KDTree.RemovePoint | include/KDTree.hxx:141-155 | only points equal to the argument leave the tree, and a false answer changes no point. Unsplit, every copy leaves the buffer, the answer says whether there was one, and no visitor walks. Split, the deleter records the route; every copy leaves the routed leaf, whose removal count each copy loses, the answer says whether that leaf held one, and every other bucket is unchanged. The other four visitors are unchanged |
| Trees.KDTree.RemoveBuffered | include/KDTree.hxx:145-149 | every copy of the point leaves the buffer, and the answer says whether there was one |
| Trees.KDTree.DeleteFromLeaf | include/KDTree.hxx:153 | the deleter records the route and erases every copy from the routed leaf, answering whether there was one. Every other bucket is unchanged, the tree's points change as that bucket does, and the other four visitors are unchanged |
| Trees.KDTree.FindNearest | include/KDTree.hxx:162-173 | unsplit, the default point is returned and nothing changes. Split, the nearest finder's answer under the anchor is returned and the tree keeps its points |
| Trees.KDTree.FindNNearest | include/KDTree.hxx:181-192 | unsplit, nothing is returned and nothing changes. Split, the N-nearest finder's answer under the anchor is returned and the tree keeps its points |
| Trees.KDTree.FindWithinDistance | include/KDTree.hxx:200-211 | unsplit, nothing is returned and nothing changes. Split, every tree point under the anchor within `dist` is returned as often as it is stored, and nothing else |
| Trees.KDTree.Size | include/KDTree.hxx:225-248 | the size is the number of points the tree holds, whether counted in the buffer or summed over the leaves |
| Trees.KDTree.GetBucketSize | include/KDTree.hxx:254 | the bucket size is at least 1 and is the root's bucket size |
| Trees.KDTree.GetMaxSizeBeforeSplit | include/KDTree.hxx:260 | an unsplit tree never holds more points than the threshold |
| Trees.KDTree.IsSplit | include/KDTree.hxx:267 | the tree is split exactly when it has a root |
| Trees.SplitsOnThirdPoint | tests/testTree.cxx:83-98 | a tree with threshold 2 built from two points is unsplit; a third point splits it, and it then holds three points |
| Trees.RemoveFromBuffer | tests/testTree.cxx:100-115 | removing one of three buffered points with distinct payloads succeeds and leaves two; removing it again fails |

## Left out

- `Print` and the console messages on queries of an unsplit tree are output only. The model keeps the returned values.
- `RootSquaredDist` needs a floating-point square root, so only `SquaredDist` is modelled.
- `main.cxx` is a demonstration program and is not part of this model.
- Floating-point coordinates are modelled as exact reals. The model does not capture rounding of the median average, infinities or NaN.
- The finder's sentinel with infinite coordinates is "no best yet" (`None`), which every candidate beats, as the infinite sentinel does.
- Shared-pointer reference counting and lifetime are not modelled. Children are owned object references tracked by a ghost footprint.
- `std::sort` leaves the order of equal keys unspecified. The model's `SortBy` is a stable insertion sort, so it fixes one tie order the library does not promise. Every post-state that names `SortBy`, `NearestIn`, `NNearestIn`, `NearestOver` or `NNearestOver` depends on it, directly or through the bucket order an earlier sort left: `Nodes.Halve`, `Nodes.Node.Split`, `Nodes.Node.AddPoint` and the node constructor; `Nodes.Node.FindNearest` and `Nodes.Node.FindNNearest`; `Actions.NearestFinder.FindClosestPoint`, `Actions.NearestFinder.ScanBelow` and `Actions.NearestFinder.Find`; `Actions.NNearestFinder.FindNClosestPoints`, `Actions.NNearestFinder.CollectBelow` and `Actions.NNearestFinder.Find`; `Trees.KDTree.FindNearest` and `Trees.KDTree.FindNNearest`. This affects which of several equally near points a leaf search returns, which of several equally distant points make the cut at position `k` of an N-nearest query, the order a search leaves a bucket in, and which child receives points whose coordinate on the axis ties across the middle of a split.
- `size_t` is modelled as unbounded `nat`. Only the default bound of the deque uses the 64-bit maximum.
- The move constructor of `fixed_size_deque` has a syntax slip (a missing comma) and is not modelled. It would do what the copy constructor does.
- The deque's iterators (`begin`/`end`) are not modelled; its contents are the `deque` field.
- The node accessors `GetData`, `size`, `IsSplit`, `GetMedian`, `GetLeftNode` and `GetRightNode` are plain field reads of the `Node` class.
- Nodes.Node.constructor: requires a bucket size of at least 1. With 0, a node holding one point splits forever.
- Trees.KDTree.constructor: requires a bucket size of at least 1. The source accepts 0, but then diverges at the first split, so such a tree is usable only while unsplit.
