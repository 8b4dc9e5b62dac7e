/** Points in `Dims`-dimensional space carrying a payload (include/Point.hxx). */
module Points {

  /** A positive count of dimensions. */
  type PosNat = n: nat | n >= 1 witness 1

  /**
   * The template parameter `Dims`: the number of dimensions over which the data
   * is divided. It is left unspecified, so everything proved holds for every
   * positive dimension count.
   */
  const Dims: PosNat

  /** A valid index into a coordinate array. */
  type Axis = i: nat | i < Dims witness 0

  /** `std::array<T, Dims>` with `T` modelled exactly as `real`. */
  type Coords = c: seq<real> | |c| == Dims witness seq(Dims, _ => 0.0)

  /**
   * The payload `Leaf`. The tests store an `Event` whose `operator==` compares
   * only its `id`, so the payload is modelled by that id.
   */
  type Payload = int

  datatype Point = Point(payload: Payload, coords: Coords)

  /** The all-zero coordinate array of a value-initialised `std::array`. */
  function Origin(): Coords {
    seq(Dims, _ => 0.0)
  }

  /** `Point{}`: a default payload and all-zero coordinates. */
  function DefaultPoint(): Point {
    Point(0, Origin())
  }

  /** `Point::operator==`: two points are equal when their payloads are. */
  predicate Equal(a: Point, b: Point) {
    a.payload == b.payload
  }

  /** Equality looks at the payload only: moving either point anywhere keeps
      the answer. */
  lemma EqualIgnoresCoords(a: Point, b: Point, c: Coords, d: Coords)
    ensures Equal(a, b) <==> Equal(Point(a.payload, c), Point(b.payload, d))
  {
  }

  /** Point equality is an equivalence relation, although points with equal
      payloads may lie anywhere. */
  lemma EqualIsEquivalence(a: Point, b: Point, c: Point)
    ensures Equal(a, a)
    ensures Equal(a, b) ==> Equal(b, a)
    ensures Equal(a, b) && Equal(b, c) ==> Equal(a, c)
  {
  }
}
