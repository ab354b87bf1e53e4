/**
 * The in-place sort the archive builders call (`par_sort_unstable` and
 * `sort_unstable` in the source): any algorithm that leaves the array ordered
 * and a permutation of its old contents will do, and insertion sort is the
 * one modelled here.
 */
module Sorting {

  /** `less` is a strict weak order: asymmetric, and "not less than" is transitive. */
  ghost predicate StrictWeakOrder<T(!new)>(less: (T, T) -> bool) {
    (forall x, y :: less(x, y) ==> !less(y, x))
    && (forall x, y, z :: !less(y, x) && !less(z, y) ==> !less(z, x))
  }

  /** No element is less than one before it. */
  ghost predicate SortedBy<T>(s: seq<T>, less: (T, T) -> bool) {
    forall i, j :: 0 <= i < j < |s| ==> !less(s[j], s[i])
  }

  method InsertionSort<T(==,!new)>(a: array<T>, less: (T, T) -> bool)
    requires StrictWeakOrder(less)
    modifies a
    ensures SortedBy(a[..], less)
    ensures multiset(a[..]) == multiset(old(a[..]))
  {
    if a.Length == 0 { return; }
    for i := 1 to a.Length
      invariant SortedUpTo(a, i, less)
      invariant multiset(a[..]) == multiset(old(a[..]))
    {
      InsertAt(a, i, less);
    }
  }

  /** The first `n` elements of `a` are in order. */
  ghost predicate SortedUpTo<T>(a: array<T>, n: int, less: (T, T) -> bool)
    reads a
  {
    forall p, q :: 0 <= p < q < n && q < a.Length ==> !less(a[q], a[p])
  }

  /** Moves `a[i]` down into the ordered prefix `a[..i]`, leaving `a[..i + 1]` ordered. */
  method InsertAt<T(==,!new)>(a: array<T>, i: int, less: (T, T) -> bool)
    requires StrictWeakOrder(less) && 1 <= i < a.Length && SortedUpTo(a, i, less)
    modifies a
    ensures SortedUpTo(a, i + 1, less)
    ensures multiset(a[..]) == multiset(old(a[..]))
  {
    var j := i;
    while j > 0 && less(a[j], a[j - 1])
      invariant 0 <= j <= i
      invariant forall p, q :: 0 <= p < q <= i && q != j ==> !less(a[q], a[p])
      invariant forall q :: j < q <= i ==> less(a[j], a[q])
      invariant multiset(a[..]) == multiset(old(a[..]))
    {
      Swap(a, j);
      j := j - 1;
    }
  }

  /** Exchanges `a[j - 1]` and `a[j]`. */
  method Swap<T>(a: array<T>, j: int)
    requires 0 < j < a.Length
    modifies a
    ensures a[j] == old(a[j - 1]) && a[j - 1] == old(a[j])
    ensures forall k :: 0 <= k < a.Length && k != j && k != j - 1 ==> a[k] == old(a[k])
    ensures multiset(a[..]) == multiset(old(a[..]))
  {
    a[j], a[j - 1] := a[j - 1], a[j];
  }
}
