/**
 * The element-selecting standard-library algorithms the core relies on, each
 * specified by the contract the C++ library gives it: `std::remove` followed
 * by `erase`, and `std::copy_if`, keep, in order, the elements a predicate
 * accepts.
 */
module Algorithms {

  function Min(a: nat, b: nat): nat {
    if a <= b then a else b
  }

  /**
   * `std::copy_if`, and `std::remove_if` followed by `erase`: the elements of `s`
   * that `f` accepts, in their original order.
   */
  function Filter<T(!new)>(s: seq<T>, f: T -> bool): (r: seq<T>)
    ensures forall x :: x in r <==> x in s && f(x)
    ensures |r| <= |s|
  {
    if s == [] then []
    else
      var rest := Filter(s[1..], f);
      assert s == [s[0]] + s[1..];
      (if f(s[0]) then [s[0]] else []) + rest
  }

  /** Filtering keeps every accepted element with its multiplicity and drops
      every rejected one. */
  lemma {:induction false} FilterCounts<T(!new)>(s: seq<T>, f: T -> bool)
    ensures forall x :: multiset(Filter(s, f))[x] == if f(x) then multiset(s)[x] else 0
  {
    if s != [] {
      FilterCounts(s[1..], f);
      assert s == [s[0]] + s[1..];
    }
  }

  /** Filtering shortens a sequence exactly when it rejects one of its elements,
      and otherwise returns it unchanged. */
  lemma {:induction false} FilterKeepsAll<T(!new)>(s: seq<T>, f: T -> bool)
    ensures |Filter(s, f)| == |s| <==> forall x :: x in s ==> f(x)
    ensures (forall x :: x in s ==> f(x)) ==> Filter(s, f) == s
  {
    if s != [] {
      FilterKeepsAll(s[1..], f);
      assert s == [s[0]] + s[1..];
      assert forall x :: x in s <==> x == s[0] || x in s[1..];
    }
  }

  /** Filtering is compositional over concatenation, so it keeps the relative
      order of the elements it keeps. */
  lemma {:induction false} FilterAppend<T(!new)>(s: seq<T>, t: seq<T>, f: T -> bool)
    ensures Filter(s + t, f) == Filter(s, f) + Filter(t, f)
  {
    if s == [] {
      assert s + t == t;
    } else {
      var u := s + t;
      var h: seq<T> := if f(s[0]) then [s[0]] else [];
      assert u != [] && u[0] == s[0] && u[1..] == s[1..] + t;
      FilterAppend(s[1..], t, f);
      calc {
        Filter(u, f);
        h + Filter(u[1..], f);
        h + (Filter(s[1..], f) + Filter(t, f));
        (h + Filter(s[1..], f)) + Filter(t, f);
        Filter(s, f) + Filter(t, f);
      }
    }
  }
}
