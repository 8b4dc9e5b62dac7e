/** Helpers of include/JJUtils.hxx: halving a vector and a bounded FIFO buffer. */
module JJUtils {
  import opened Algorithms

  /**
   * `split`: the upper half of `vec` (from index `|vec| / 2` on) is moved into
   * `right`, and `left` keeps what remains, so the larger half goes right.
   */
  method Split<T>(vec: seq<T>) returns (left: seq<T>, right: seq<T>)
    ensures left + right == vec
    ensures |left| == |vec| / 2 && |right| == |vec| - |vec| / 2
    ensures 0 <= |right| - |left| <= 1
    ensures |left| == |right| <==> |vec| % 2 == 0
    ensures |vec| >= 2 ==> |left| < |vec| && |right| < |vec|
  {
    right := vec[|vec| / 2..];
    left := vec;
    left := left[..|left| - |right|];
    assert left + right == vec;
  }

  /** `std::numeric_limits<std::size_t>::max()` for a 64-bit `size_t`. */
  const SizeMax: nat := 0xFFFF_FFFF_FFFF_FFFF

  /** The last `n` elements of `s`, or all of `s` when it is shorter. */
  function Last<T>(s: seq<T>, n: nat): (r: seq<T>)
    ensures |r| == Min(|s|, n)
    ensures s == s[..|s| - |r|] + r
  {
    s[|s| - Min(|s|, n)..]
  }

  /** Taking the last `n` elements of a sequence extended by `x` is the same as
      appending `x` to the last `n` elements and dropping the front on overflow. */
  lemma LastAppend<T>(s: seq<T>, x: T, n: nat)
    ensures Last(s + [x], n) ==
      if |Last(s, n)| + 1 > n then (Last(s, n) + [x])[1..] else Last(s, n) + [x]
  {
    var t := s + [x];
    if |s| + 1 <= n {
      assert Last(t, n) == t && Last(s, n) == s;
    } else {
      var m := |s| - n;
      assert Last(s, n) == s[m..];
      assert Last(t, n) == t[m + 1..];
      assert t[m + 1..] == (s[m..] + [x])[1..];
    }
  }

  /**
   * `fixed_size_deque`: a buffer of at most `maxSize` elements that appends at
   * the back and, on overflow, drops from the front. The ghost `pushed` records
   * every element ever pushed; the buffer always holds the newest `maxSize` of them.
   */
  class FixedSizeDeque<T> {
    const maxSize: nat
    var deque: seq<T>
    ghost var pushed: seq<T>

    ghost predicate Valid()
      reads this
    {
      deque == Last(pushed, maxSize)
    }

    /** The default constructor: an empty buffer bounded by the largest `size_t`. */
    constructor ()
      ensures Valid() && maxSize == SizeMax && deque == [] && pushed == []
    {
      maxSize := SizeMax;
      deque := [];
      pushed := [];
    }

    /** An empty buffer bounded by `maxSize`. */
    constructor WithMaxSize(maxSize: nat)
      ensures Valid() && this.maxSize == maxSize && deque == [] && pushed == []
    {
      this.maxSize := maxSize;
      deque := [];
      pushed := [];
    }

    /** The copy constructor: the same bound and the same contents. */
    constructor Copy(other: FixedSizeDeque<T>)
      requires other.Valid()
      ensures Valid() && maxSize == other.maxSize && deque == other.deque
    {
      maxSize := other.maxSize;
      deque := other.deque;
      pushed := other.pushed;
    }

    /** `size()`: never more than the bound nor than the number of pushes. */
    function Size(): (n: nat)
      reads this
      ensures n == |deque|
      ensures Valid() ==> n <= maxSize && n <= |pushed|
    {
      |deque|
    }

    /** `empty()` */
    function Empty(): (b: bool)
      reads this
      ensures b <==> Size() == 0
    {
      deque == []
    }

    /** `push_back`: append `value`, then pop the front if the bound is exceeded. */
    method PushBack(value: T)
      requires Valid()
      modifies this
      ensures Valid() && pushed == old(pushed) + [value]
      ensures deque == if |old(deque)| + 1 > maxSize then (old(deque) + [value])[1..]
                       else old(deque) + [value]
      ensures old(Size()) <= maxSize ==> Size() <= maxSize
    {
      deque := deque + [value];
      if |deque| > maxSize {
        deque := deque[1..];
      }
      LastAppend(pushed, value, maxSize);
      pushed := pushed + [value];
    }
  }
}
