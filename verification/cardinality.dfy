/** Counting facts about finite sets used by the capacity arguments. */
module Cardinality {

  /** The handles `[0, n)`. */
  function Below(n: nat): (r: set<nat>)
    ensures forall i: nat :: i in r <==> i < n
    ensures |r| == n
  {
    if n == 0 then {} else Below(n - 1) + {n - 1}
  }

  lemma {:induction false} SubsetSize<T>(a: set<T>, b: set<T>)
    requires a <= b
    ensures |a| <= |b|
    decreases a
  {
    if a != {} {
      var x :| x in a;
      SubsetSize(a - {x}, b - {x});
    }
  }

  /** A set and its complement within `[0, n)` together have `n` elements. */
  lemma ComplementSize(n: nat, part: set<nat>, rest: set<nat>)
    requires forall x :: x in part ==> x < n
    requires forall x: nat :: x in rest <==> x < n && x !in part
    ensures |part| + |rest| == n
  {
    var all := Below(n);
    assert rest == all - part;
    assert all == rest + part;
  }

  /** A set of naturals below `n` that misses one of them has fewer than `n` elements. */
  lemma MissingOneIsSmaller(n: nat, s: set<nat>, x: nat)
    requires forall y :: y in s ==> y < n
    requires x < n && x !in s
    ensures |s| < n
  {
    var others := Below(n) - {x};
    assert s <= others;
    SubsetSize(s, others);
  }

  /** A sequence without repeated elements. */
  predicate Distinct<T(==)>(s: seq<T>) {
    forall i, j :: 0 <= i < j < |s| ==> s[i] != s[j]
  }

  /** A sequence without repeats has as many distinct elements as positions. */
  lemma {:induction false} DistinctSize<T>(s: seq<T>)
    requires Distinct(s)
    ensures |set x | x in s| == |s|
  {
    if s != [] {
      var tail := s[1..];
      assert Distinct(tail);
      DistinctSize(tail);
      assert (set x | x in s) == (set x | x in tail) + {s[0]};
      assert s[0] !in tail;
    }
  }
}
