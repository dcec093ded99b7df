/**
 Order-related notions over sequences that the entry pipeline relies on:
 subsequences, duplicate-freedom, and an order-preserving filter.
 */
module Sequences {

  /** `a` is obtained from `b` by deleting elements, never by reordering them. */
  predicate IsSubsequence<T(==)>(a: seq<T>, b: seq<T>)
    decreases |b|
  {
    if |a| == 0 then true
    else if |b| == 0 then false
    else (a[0] == b[0] && IsSubsequence(a[1..], b[1..])) || IsSubsequence(a, b[1..])
  }

  /** No value occurs twice. */
  predicate NoDuplicates<T(==)>(xs: seq<T>) {
    forall i, j :: 0 <= i < j < |xs| ==> xs[i] != xs[j]
  }

  /** The set of values occurring in `xs`. */
  function Elements<T>(xs: seq<T>): set<T> {
    set x | x in xs
  }

  /** Applies `f` to every element, keeping the order. */
  function Map<T, U>(f: T -> U, xs: seq<T>): seq<U> {
    seq(|xs|, i requires 0 <= i < |xs| => f(xs[i]))
  }

  /** The positions of `xs` whose element satisfies `p`. */
  function MatchingPositions<T>(p: T -> bool, xs: seq<T>): set<nat> {
    set i: nat | i < |xs| && p(xs[i])
  }

  /** The elements of `xs` that satisfy `p`, in their original order: the
      lazy `Iterator::filter` collected into a sequence. */
  function Filter<T>(p: T -> bool, xs: seq<T>): (r: seq<T>)
    ensures |r| <= |xs|
    ensures forall i :: 0 <= i < |r| ==> p(r[i]) && r[i] in xs
    decreases |xs|
  {
    if |xs| == 0 then []
    else (if p(xs[0]) then [xs[0]] else []) + Filter(p, xs[1..])
  }

  /** Mapping distributes over concatenation. */
  lemma MapAppend<T, U>(f: T -> U, a: seq<T>, b: seq<T>)
    ensures Map(f, a + b) == Map(f, a) + Map(f, b)
  {
    var l, r := Map(f, a + b), Map(f, a) + Map(f, b);
    assert |l| == |r|;
    forall i | 0 <= i < |l| ensures l[i] == r[i] {
      if i < |a| {
        assert (a + b)[i] == a[i];
      } else {
        assert (a + b)[i] == b[i - |a|];
      }
    }
  }

  /** One step of a filter followed by a map: the head contributes its
      image when it matches, and nothing otherwise. */
  lemma MapFilterCons<T, U>(f: T -> U, p: T -> bool, xs: seq<T>)
    requires |xs| > 0
    ensures Map(f, Filter(p, xs))
         == (if p(xs[0]) then [f(xs[0])] else []) + Map(f, Filter(p, xs[1..]))
  {
    var head := if p(xs[0]) then [xs[0]] else [];
    var tail := Filter(p, xs[1..]);
    assert Filter(p, xs) == head + tail;
    MapAppend(f, head, tail);
    assert Map(f, head) == if p(xs[0]) then [f(xs[0])] else [];
  }

  /** The filter keeps every matching value as often as it occurs, and no
      other value. */
  lemma {:induction false} FilterCounts<T(!new)>(p: T -> bool, xs: seq<T>)
    ensures forall x :: multiset(Filter(p, xs))[x] == if p(x) then multiset(xs)[x] else 0
    decreases |xs|
  {
    if |xs| > 0 {
      FilterCounts(p, xs[1..]);
      assert xs == [xs[0]] + xs[1..];
    }
  }

  /** The filter only deletes: its result is a subsequence of its input. */
  lemma {:induction false} FilterIsSubsequence<T>(p: T -> bool, xs: seq<T>)
    ensures IsSubsequence(Filter(p, xs), xs)
    decreases |xs|
  {
    if |xs| > 0 {
      FilterIsSubsequence(p, xs[1..]);
      var rest := Filter(p, xs[1..]);
      if p(xs[0]) {
        assert ([xs[0]] + rest)[1..] == rest;
      } else {
        assert |rest| > 0 ==> rest[0] != xs[0];
        assert Filter(p, xs) == rest;
      }
    }
  }

  /** Every member of `a`, moved up by one. */
  function Shift(a: set<nat>): set<nat> {
    set i | i in a :: i + 1
  }

  /** Shifting a set of naturals keeps its size. */
  lemma {:induction false} ShiftSize(a: set<nat>)
    ensures |Shift(a)| == |a|
    decreases |a|
  {
    if a != {} {
      var x :| x in a;
      var rest := a - {x};
      ShiftSize(rest);
      assert Shift(a) == Shift(rest) + {x + 1} by {
        forall i | i in Shift(a) ensures i in Shift(rest) + {x + 1} {
          var j :| j in a && i == j + 1;
          if j != x {
            assert j in rest;
          }
        }
      }
      assert x + 1 !in Shift(rest);
    }
  }

  /** The matching positions of a non-empty sequence: possibly the head,
      plus the matching positions of the tail moved up by one. */
  lemma MatchingPositionsUnfold<T>(p: T -> bool, xs: seq<T>)
    requires |xs| > 0
    ensures MatchingPositions(p, xs)
         == (if p(xs[0]) then {0} else {}) + Shift(MatchingPositions(p, xs[1..]))
  {
    var tail := MatchingPositions(p, xs[1..]);
    forall i: nat | i in MatchingPositions(p, xs)
      ensures i in (if p(xs[0]) then {0} else {}) + Shift(tail)
    {
      if i > 0 {
        assert xs[1..][i - 1] == xs[i];
        assert (i - 1) in tail;
      }
    }
    forall i: nat | i in Shift(tail)
      ensures i in MatchingPositions(p, xs)
    {
      var j :| j in tail && i == j + 1;
      assert xs[1..][j] == xs[i];
    }
  }

  /** The filter keeps exactly one element per matching position: its
      length is the number of positions whose element satisfies `p`. */
  lemma {:induction false} FilterLength<T>(p: T -> bool, xs: seq<T>)
    ensures |Filter(p, xs)| == |MatchingPositions(p, xs)|
    decreases |xs|
  {
    if |xs| > 0 {
      var tail := MatchingPositions(p, xs[1..]);
      FilterLength(p, xs[1..]);
      ShiftSize(tail);
      MatchingPositionsUnfold(p, xs);
      var head: set<nat> := if p(xs[0]) then {0} else {};
      assert 0 !in Shift(tail);
      assert |head + Shift(tail)| == |head| + |Shift(tail)|;
      assert |Filter(p, xs)| == |head| + |Filter(p, xs[1..])|;
    }
  }

  /** Filtering is a homomorphism on concatenation: it never moves an
      element across another one. */
  lemma {:induction false} FilterAppend<T>(p: T -> bool, a: seq<T>, b: seq<T>)
    ensures Filter(p, a + b) == Filter(p, a) + Filter(p, b)
    decreases |a|
  {
    if |a| > 0 {
      assert (a + b)[1..] == a[1..] + b;
      FilterAppend(p, a[1..], b);
    } else {
      assert a + b == b;
    }
  }

}
