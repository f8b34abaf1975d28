/**
 * Sequence vocabulary shared by the palette pipeline: keeping the elements
 * that satisfy a test, applying a function to every element, and being a
 * subsequence. The recursive ones look at the last element first, matching
 * loops that `push_back` one element at a time.
 */
module Seqs {

  function Filter<T>(s: seq<T>, keep: T -> bool): (r: seq<T>)
    ensures |r| <= |s|
    ensures forall x :: x in r ==> x in s && keep(x)
  {
    if s == [] then []
    else
      var r := Filter(s[..|s| - 1], keep);
      if keep(s[|s| - 1]) then r + [s[|s| - 1]] else r
  }

  function Map<T, U>(s: seq<T>, f: T -> U): (r: seq<U>)
    ensures |r| == |s|
    ensures forall i :: 0 <= i < |s| ==> r[i] == f(s[i])
  {
    seq(|s|, i requires 0 <= i < |s| => f(s[i]))
  }

  /** `r` can be obtained from `s` by deleting elements, keeping the order of the rest. */
  ghost predicate IsSubsequence<T>(r: seq<T>, s: seq<T>)
  {
    if s == [] then r == []
    else
      (r != [] && r[|r| - 1] == s[|s| - 1] && IsSubsequence(r[..|r| - 1], s[..|s| - 1]))
      || IsSubsequence(r, s[..|s| - 1])
  }

  /** Splitting a sequence by a test and its negation loses and invents nothing. */
  lemma {:induction false} FilterSplit<T>(s: seq<T>, keep: T -> bool, drop: T -> bool)
    requires forall x :: drop(x) == !keep(x)
    ensures multiset(Filter(s, keep)) + multiset(Filter(s, drop)) == multiset(s)
  {
    if s != [] {
      FilterSplit(s[..|s| - 1], keep, drop);
      assert s == s[..|s| - 1] + [s[|s| - 1]];
    }
  }

  lemma MapConcat<T, U>(a: seq<T>, b: seq<T>, f: T -> U)
    ensures Map(a + b, f) == Map(a, f) + Map(b, f)
  {
  }

  /** Deleting the element at `k` takes one copy of it out of the multiset. */
  lemma RemoveAt<T>(b: seq<T>, k: nat)
    requires k < |b|
    ensures multiset(b[..k] + b[k + 1..]) + multiset{b[k]} == multiset(b)
  {
    assert b == b[..k] + [b[k]] + b[k + 1..];
  }

  lemma MultisetCancel<T>(m: multiset<T>, n: multiset<T>, x: T)
    requires m + multiset{x} == n + multiset{x}
    ensures m == n
  {
    forall y
      ensures m[y] == n[y]
    {
      assert (m + multiset{x})[y] == (n + multiset{x})[y];
    }
  }

  lemma MapSplitAt<T, U>(b: seq<T>, k: nat, f: T -> U)
    requires k < |b|
    ensures Map(b, f) == Map(b[..k], f) + [f(b[k])] + Map(b[k + 1..], f)
  {
  }

  lemma MapRemoveAt<T, U>(b: seq<T>, k: nat, f: T -> U)
    requires k < |b|
    ensures multiset(Map(b[..k] + b[k + 1..], f)) + multiset{f(b[k])} == multiset(Map(b, f))
  {
    MapSplitAt(b, k, f);
    MapConcat(b[..k], b[k + 1..], f);
  }

  /** Applying a function elementwise to two permutations of each other gives permutations of each other. */
  lemma {:induction false} MapPreservesPermutation<T, U>(a: seq<T>, b: seq<T>, f: T -> U)
    requires multiset(a) == multiset(b)
    ensures multiset(Map(a, f)) == multiset(Map(b, f))
  {
    if a == [] {
      assert |b| == |multiset(b)| == 0;
    } else {
      var x, a' := a[|a| - 1], a[..|a| - 1];
      assert a == a' + [x];
      assert x in multiset(b);
      var k :| 0 <= k < |b| && b[k] == x;
      var b' := b[..k] + b[k + 1..];
      RemoveAt(b, k);
      MultisetCancel(multiset(a'), multiset(b'), x);
      MapPreservesPermutation(a', b', f);
      MapRemoveAt(b, k, f);
      MapConcat(a', [x], f);
    }
  }
}
