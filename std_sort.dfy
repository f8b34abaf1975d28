/**
 * `std::sort` with a comparator, as paletteutils.cpp calls it: it reorders a
 * range in place so that no element compares less than one before it. The C++
 * standard requires the comparator to be a strict weak ordering and promises
 * nothing about the order of equivalent elements; this model is an insertion
 * sort, and its contract promises exactly that and no more.
 */
module StdSort {

  /**
   * A strict weak ordering, in its asymmetric and negatively transitive form:
   * "not less" is then a total preorder.
   */
  ghost predicate StrictWeakOrder<T(!new)>(less: (T, T) -> bool)
  {
    && (forall x, y :: less(x, y) ==> !less(y, x))
    && (forall x, y, z :: !less(x, y) && !less(y, z) ==> !less(x, z))
  }

  /** No element compares less than an element before it. */
  ghost predicate SortedBy<T>(s: seq<T>, less: (T, T) -> bool)
  {
    forall i, j :: 0 <= i < j < |s| ==> !less(s[j], s[i])
  }

  method Sort<T(!new)>(a: array<T>, less: (T, T) -> bool)
    requires StrictWeakOrder(less)
    modifies a
    ensures SortedBy(a[..], less)
    ensures multiset(a[..]) == old(multiset(a[..]))
  {
    for i := 0 to a.Length
      invariant SortedBy(a[..i], less)
      invariant multiset(a[..]) == old(multiset(a[..]))
    {
      Insert(a, i, less);
    }
    assert a[..a.Length] == a[..];
  }

  /** Sinks a[i] into the sorted prefix a[..i], so that a[..i + 1] is sorted. */
  method Insert<T(!new)>(a: array<T>, i: int, less: (T, T) -> bool)
    requires StrictWeakOrder(less)
    requires 0 <= i < a.Length && SortedBy(a[..i], less)
    modifies a
    ensures SortedBy(a[..i + 1], less)
    ensures multiset(a[..]) == old(multiset(a[..]))
  {
    var j := i;
    while 0 < j && less(a[j], a[j - 1])
      invariant 0 <= j <= i
      invariant forall p, q :: 0 <= p < q <= i && p != j && q != j ==> !less(a[q], a[p])
      invariant forall q :: j < q <= i ==> !less(a[q], a[j])
      invariant multiset(a[..]) == old(multiset(a[..]))
    {
      Swap(a, j - 1, j);
      j := j - 1;
    }
  }

  method Swap<T>(a: array<T>, i: int, j: int)
    requires 0 <= i < j < a.Length
    modifies a
    ensures a[..] == old(a[..])[i := old(a[j])][j := old(a[i])]
    ensures multiset(a[..]) == old(multiset(a[..]))
  {
    a[i], a[j] := a[j], a[i];
  }
}
