/**
 * Generic sequence operations with the meaning of JavaScript's
 * `Array.prototype.filter`, `map`, `find` and `slice(0, n)`.
 */
module Seqs {
  import opened Wrappers

  /** `xs.filter(p)`: the elements satisfying `p`, in their original order. */
  function Filter<T>(xs: seq<T>, p: T -> bool): (r: seq<T>)
    ensures |r| <= |xs|
    ensures forall i :: 0 <= i < |r| ==> p(r[i])
  {
    if xs == [] then []
    else (if p(xs[0]) then [xs[0]] else []) + Filter(xs[1..], p)
  }

  /** `xs.map(f)`. */
  function Map<T, U>(xs: seq<T>, f: T -> U): (r: seq<U>)
    ensures |r| == |xs| && forall i :: 0 <= i < |xs| ==> r[i] == f(xs[i])
  {
    if xs == [] then [] else [f(xs[0])] + Map(xs[1..], f)
  }

  /** `xs.find(p)`: the first element satisfying `p`, if any. */
  function Find<T>(xs: seq<T>, p: T -> bool): (r: Option<T>)
    ensures r.Some? <==> exists i :: 0 <= i < |xs| && p(xs[i])
    ensures r.Some? ==> exists i :: 0 <= i < |xs| && xs[i] == r.value && p(xs[i]) && forall j :: 0 <= j < i ==> !p(xs[j])
  {
    if xs == [] then None
    else if p(xs[0]) then Some(xs[0])
    else
      var r := Find(xs[1..], p);
      assert forall i :: 1 <= i < |xs| ==> xs[i] == xs[1..][i - 1];
      r
  }

  /** `xs.slice(0, n)`: a negative end counts back from the end of the sequence. */
  function SliceTo<T>(xs: seq<T>, n: int): (r: seq<T>)
    ensures r <= xs
    ensures n >= 0 ==> |r| == if n < |xs| then n else |xs|
    ensures n < 0 ==> |r| == if |xs| + n > 0 then |xs| + n else 0
  {
    if n >= 0 then (if n < |xs| then xs[..n] else xs)
    else if |xs| + n > 0 then xs[..|xs| + n] else []
  }

  /** `xs` is `ys` with some elements (possibly none) deleted. */
  predicate IsSubsequence<T(==)>(xs: seq<T>, ys: seq<T>)
    decreases |ys|
  {
    xs == [] || (ys != [] && ((xs[0] == ys[0] && IsSubsequence(xs[1..], ys[1..])) || IsSubsequence(xs, ys[1..])))
  }

  /** `ys` is `xs` with elements appended, each of them an element of `pool`. */
  predicate ExtendsWithin<T(==)>(xs: seq<T>, ys: seq<T>, pool: seq<T>) {
    |xs| <= |ys| && ys[..|xs|] == xs && forall x :: x in ys[|xs|..] ==> x in pool
  }

  /** Two extensions in a row append only elements of the two pools together. */
  lemma ExtendsWithinTrans<T>(xs: seq<T>, ys: seq<T>, zs: seq<T>, a: seq<T>, b: seq<T>)
    requires ExtendsWithin(xs, ys, a) && ExtendsWithin(ys, zs, b)
    ensures ExtendsWithin(xs, zs, a + b)
  {
    assert zs[|xs|..] == ys[|xs|..] + zs[|ys|..];
  }

  /** An element satisfying `p` is kept exactly when it occurs in the input. */
  lemma {:induction false} FilterMembership<T>(xs: seq<T>, p: T -> bool)
    ensures forall x :: x in Filter(xs, p) <==> x in xs && p(x)
  {
    if xs != [] {
      FilterMembership(xs[1..], p);
      assert xs == [xs[0]] + xs[1..];
    }
  }

  /** The filter keeps the order of its input. */
  lemma {:induction false} FilterIsSubsequence<T>(xs: seq<T>, p: T -> bool)
    ensures IsSubsequence(Filter(xs, p), xs)
  {
    if xs != [] {
      FilterIsSubsequence(xs[1..], p);
      var rest := Filter(xs[1..], p);
      if p(xs[0]) {
        assert Filter(xs, p) == [xs[0]] + rest;
        assert ([xs[0]] + rest)[1..] == rest;
      } else {
        assert Filter(xs, p) == rest;
      }
    }
  }

  /** Every sequence is a subsequence of itself. */
  lemma {:induction false} SubsequenceOfItself<T>(xs: seq<T>)
    ensures IsSubsequence(xs, xs)
  {
    if xs != [] {
      SubsequenceOfItself(xs[1..]);
    }
  }

  /** Projecting both sides keeps a subsequence a subsequence. */
  lemma {:induction false} MapKeepsSubsequence<T, U>(xs: seq<T>, ys: seq<T>, f: T -> U)
    requires IsSubsequence(xs, ys)
    ensures IsSubsequence(Map(xs, f), Map(ys, f))
    decreases |ys|
  {
    if xs != [] {
      assert Map(ys, f)[1..] == Map(ys[1..], f);
      if xs[0] == ys[0] && IsSubsequence(xs[1..], ys[1..]) {
        MapKeepsSubsequence(xs[1..], ys[1..], f);
        assert Map(xs, f)[1..] == Map(xs[1..], f);
      } else {
        MapKeepsSubsequence(xs, ys[1..], f);
      }
    }
  }

  /** Appending two elements one after the other appends the pair. */
  lemma SnocTwice<T>(s: seq<T>, a: T, b: T)
    ensures s + [a] + [b] == s + [a, b]
  {
  }

  /** Filtering keeps every element the predicate accepts as often as it occurs, and drops every other one. */
  lemma {:induction false} FilterMultiplicity<T>(xs: seq<T>, p: T -> bool)
    ensures forall x :: multiset(Filter(xs, p))[x] == if p(x) then multiset(xs)[x] else 0
  {
    if xs != [] {
      FilterMultiplicity(xs[1..], p);
      assert xs == [xs[0]] + xs[1..];
      assert multiset(xs) == multiset{xs[0]} + multiset(xs[1..]);
    }
  }

  /** Filtering twice by the same predicate changes nothing more. */
  lemma {:induction false} FilterIdempotent<T>(xs: seq<T>, p: T -> bool)
    ensures Filter(Filter(xs, p), p) == Filter(xs, p)
  {
    if xs != [] {
      FilterIdempotent(xs[1..], p);
      var rest := Filter(xs[1..], p);
      if p(xs[0]) {
        var once := [xs[0]] + rest;
        assert Filter(xs, p) == once;
        assert once[0] == xs[0] && once[1..] == rest;
        assert Filter(once, p) == [xs[0]] + Filter(rest, p);
      } else {
        assert Filter(xs, p) == rest;
      }
    }
  }

  /** A sequence whose every element satisfies `p` passes the filter unchanged. */
  lemma {:induction false} FilterKeepsAll<T>(xs: seq<T>, p: T -> bool)
    requires forall i :: 0 <= i < |xs| ==> p(xs[i])
    ensures Filter(xs, p) == xs
  {
    if xs != [] {
      FilterKeepsAll(xs[1..], p);
    }
  }

  /** A sequence no element of which satisfies `p` is filtered away entirely. */
  lemma {:induction false} FilterKeepsNone<T>(xs: seq<T>, p: T -> bool)
    requires forall i :: 0 <= i < |xs| ==> !p(xs[i])
    ensures Filter(xs, p) == []
  {
    if xs != [] {
      FilterKeepsNone(xs[1..], p);
    }
  }
}
