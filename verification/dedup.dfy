/**
 Order-preserving deduplication, as `Itertools::unique` performs it: the
 iterator remembers every value it has yielded and skips any value it has
 already seen, so each value is emitted once, at its first occurrence.
 */
module Dedup {
  import opened Sequences

  /** Walks `xs` with the set of values already emitted. */
  function UniqueFrom<T(==,!new)>(xs: seq<T>, seen: set<T>): (r: seq<T>)
    ensures NoDuplicates(r)
    ensures forall x :: x in r <==> x in xs && x !in seen
    ensures IsSubsequence(r, xs)
    decreases |xs|
  {
    if |xs| == 0 then []
    else if xs[0] in seen then UniqueFrom(xs[1..], seen)
    else
      var rest := UniqueFrom(xs[1..], seen + {xs[0]});
      assert xs[0] !in rest;
      assert forall x :: x in xs <==> x == xs[0] || x in xs[1..];
      assert |rest| > 0 ==> rest[0] != xs[0];
      [xs[0]] + rest
  }

  /** Every value of `xs` once, in the order of first occurrence. */
  function Unique<T(==,!new)>(xs: seq<T>): (r: seq<T>)
    ensures NoDuplicates(r)
    ensures forall x :: x in r <==> x in xs
    ensures IsSubsequence(r, xs)
  {
    UniqueFrom(xs, {})
  }

  /** Reference definition: position `i` of `xs` is kept exactly when its
      value does not occur in `xs[..i]`. */
  function FirstOccurrences<T(==)>(xs: seq<T>): seq<T>
    decreases |xs|
  {
    if |xs| == 0 then []
    else
      var init := xs[..|xs| - 1];
      FirstOccurrences(init) + (if xs[|xs| - 1] in init then [] else [xs[|xs| - 1]])
  }

  /** Running the walk over `xs` after `prefix` has been seen yields exactly
      the first occurrences that `xs` adds to those of `prefix`. */
  lemma {:induction false} UniqueFromExtends<T(!new)>(prefix: seq<T>, xs: seq<T>)
    ensures FirstOccurrences(prefix + xs) == FirstOccurrences(prefix) + UniqueFrom(xs, Elements(prefix))
    decreases |xs|
  {
    if |xs| == 0 {
      assert prefix + xs == prefix;
    } else {
      var x := xs[0];
      var longer := prefix + [x];
      UniqueFromExtends(longer, xs[1..]);
      assert longer + xs[1..] == prefix + xs;
      assert longer[..|longer| - 1] == prefix;
      // One more step of the reference: `x` is kept iff it is new to `prefix`.
      var step := if x in prefix then [] else [x];
      assert FirstOccurrences(longer) == FirstOccurrences(prefix) + step;
      assert Elements(longer) == Elements(prefix) + {x};
      // One more step of the walk, from the memory `Elements(prefix)`.
      if x in prefix {
        assert x in Elements(prefix);
        assert Elements(longer) == Elements(prefix);
        assert UniqueFrom(xs, Elements(prefix)) == UniqueFrom(xs[1..], Elements(longer));
      } else {
        assert UniqueFrom(xs, Elements(prefix)) == [x] + UniqueFrom(xs[1..], Elements(longer));
      }
    }
  }

  /** The walk with an initially empty memory keeps exactly the first
      occurrence of every value, in the order those occurrences appear. */
  lemma UniqueIsFirstOccurrences<T(!new)>(xs: seq<T>)
    ensures Unique(xs) == FirstOccurrences(xs)
  {
    UniqueFromExtends([], xs);
    assert [] + xs == xs;
    assert Elements<T>([]) == {};
  }

  /** A sequence without duplicates passes through unchanged. */
  lemma {:induction false} UniqueFromOfDistinct<T(!new)>(xs: seq<T>, seen: set<T>)
    requires NoDuplicates(xs)
    requires forall i :: 0 <= i < |xs| ==> xs[i] !in seen
    ensures UniqueFrom(xs, seen) == xs
    decreases |xs|
  {
    if |xs| > 0 {
      var tail := xs[1..];
      assert forall i :: 0 <= i < |tail| ==> tail[i] == xs[i + 1];
      UniqueFromOfDistinct(tail, seen + {xs[0]});
    }
  }

  /** Deduplicating twice is deduplicating once. */
  lemma UniqueIdempotent<T(!new)>(xs: seq<T>)
    ensures Unique(Unique(xs)) == Unique(xs)
  {
    UniqueFromOfDistinct(Unique(xs), {});
  }
}
