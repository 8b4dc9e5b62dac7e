/** The squared Euclidean metric `SquaredDist` (include/Metrics.hxx). */
module Metrics {
  import opened Points

  function Sq(t: real): real {
    t * t
  }

  /** The sum, over the first `k` dimensions, of the squared coordinate differences. */
  function SumSq(a: seq<real>, b: seq<real>, k: nat): real
    requires k <= |a| && k <= |b|
  {
    if k == 0 then 0.0 else SumSq(a, b, k - 1) + Sq(a[k - 1] - b[k - 1])
  }

  /** `SquaredDist::distance` as a value: the sum over all `Dims` dimensions. */
  function SquaredDist(p1: Point, p2: Point): real {
    SumSq(p1.coords, p2.coords, Dims)
  }

  /** `SquaredDist::distance`: accumulates the squared differences dimension by dimension. */
  method Distance(p1: Point, p2: Point) returns (dist: real)
    ensures dist == SquaredDist(p1, p2)
  {
    dist := 0.0;
    for dim := 0 to Dims
      invariant dist == SumSq(p1.coords, p2.coords, dim)
    {
      dist := dist + Sq(p1.coords[dim] - p2.coords[dim]);
    }
  }

  lemma {:induction false} SumSqSymmetric(a: seq<real>, b: seq<real>, k: nat)
    requires k <= |a| && k <= |b|
    ensures SumSq(a, b, k) == SumSq(b, a, k)
  {
    if k > 0 {
      SumSqSymmetric(a, b, k - 1);
      assert Sq(a[k - 1] - b[k - 1]) == Sq(b[k - 1] - a[k - 1]);
    }
  }

  lemma {:induction false} SumSqNonNegative(a: seq<real>, b: seq<real>, k: nat)
    requires k <= |a| && k <= |b|
    ensures SumSq(a, b, k) >= 0.0
  {
    if k > 0 {
      SumSqNonNegative(a, b, k - 1);
      SqNonNegative(a[k - 1] - b[k - 1]);
    }
  }

  /** A square is never negative, and it is zero only for zero. */
  lemma SqNonNegative(t: real)
    ensures Sq(t) >= 0.0
    ensures Sq(t) == 0.0 <==> t == 0.0
  {
    if t < 0.0 {
      calc { Sq(t); == (-t) * (-t); > 0.0; }
    } else if t > 0.0 {
      calc { Sq(t); == t * t; > 0.0; }
    }
  }

  /** The partial sum vanishes exactly when the first `k` coordinates agree. */
  lemma {:induction false} SumSqZero(a: seq<real>, b: seq<real>, k: nat)
    requires k <= |a| && k <= |b|
    ensures SumSq(a, b, k) == 0.0 <==> forall i :: 0 <= i < k ==> a[i] == b[i]
  {
    if k > 0 {
      SumSqZero(a, b, k - 1);
      SumSqNonNegative(a, b, k - 1);
      SqNonNegative(a[k - 1] - b[k - 1]);
    }
  }

  /** The distance is symmetric. */
  lemma DistanceSymmetric(p1: Point, p2: Point)
    ensures SquaredDist(p1, p2) == SquaredDist(p2, p1)
  {
    SumSqSymmetric(p1.coords, p2.coords, Dims);
  }

  /** The distance is never negative, and it is zero exactly when the coordinates agree. */
  lemma DistanceZero(p1: Point, p2: Point)
    ensures SquaredDist(p1, p2) >= 0.0
    ensures SquaredDist(p1, p2) == 0.0 <==> p1.coords == p2.coords
  {
    SumSqNonNegative(p1.coords, p2.coords, Dims);
    SumSqZero(p1.coords, p2.coords, Dims);
  }

  /** The distance between two points depends on their coordinates only. */
  lemma DistanceIgnoresPayload(p1: Point, p2: Point, o1: Payload, o2: Payload)
    ensures SquaredDist(Point(o1, p1.coords), Point(o2, p2.coords)) == SquaredDist(p1, p2)
  {
  }

  /** Between the all-zero and the all-one coordinate arrays of length `k`,
      the partial sum over `k` dimensions is `k`. */
  lemma {:induction false} UnitDiagonal(k: nat)
    ensures SumSq(seq(k, _ => 0.0), seq(k, _ => 1.0), k) == k as real
  {
    if k > 0 {
      var a, b := seq(k, _ => 0.0), seq(k, _ => 1.0);
      var a', b' := seq(k - 1, _ => 0.0), seq(k - 1, _ => 1.0);
      UnitDiagonal(k - 1);
      SumSqPrefix(a, b, a', b', k - 1);
    }
  }

  /** The partial sum over `k` dimensions reads only the first `k` coordinates. */
  lemma {:induction false} SumSqPrefix(a: seq<real>, b: seq<real>, a': seq<real>, b': seq<real>, k: nat)
    requires k <= |a| && k <= |b| && k <= |a'| && k <= |b'|
    requires a[..k] == a'[..k] && b[..k] == b'[..k]
    ensures SumSq(a, b, k) == SumSq(a', b', k)
  {
    if k > 0 {
      assert a[..k - 1] == a[..k][..k - 1] && a'[..k - 1] == a'[..k][..k - 1];
      assert b[..k - 1] == b[..k][..k - 1] && b'[..k - 1] == b'[..k][..k - 1];
      assert a[k - 1] == a[..k][k - 1] && a'[k - 1] == a'[..k][k - 1];
      assert b[k - 1] == b[..k][k - 1] && b'[k - 1] == b'[..k][k - 1];
      SumSqPrefix(a, b, a', b', k - 1);
    }
  }

  /** In three dimensions, the squared distance from (0,0,0) to (1,1,1) is 3. */
  lemma UnitCubeDiagonal(o1: Payload, o2: Payload)
    requires Dims == 3
    ensures SquaredDist(Point(o1, seq(Dims, _ => 0.0)), Point(o2, seq(Dims, _ => 1.0))) == 3.0
  {
    UnitDiagonal(Dims);
  }
}
