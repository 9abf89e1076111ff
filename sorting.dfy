/** The model of `sort.Slice`: an in-place sort of an array by a caller-supplied
    "less" relation. Go does not promise stability, so the contract is only
    "ordered and a permutation", which the insertion sort here meets. */
module Sorting {

  /** The relations `sort.Slice` can sort by: asymmetric, and "not less" is transitive. */
  ghost predicate StrictWeakOrder<T(!new)>(less: (T, T) -> bool)
  {
    && (forall x, y :: less(x, y) ==> !less(y, x))
    && (forall x, y, z :: less(x, z) ==> less(x, y) || less(y, z))
  }

  /** No element is less than one that comes before it. */
  ghost predicate SortedBy<T>(s: seq<T>, less: (T, T) -> bool)
  {
    forall p, q :: 0 <= p < q < |s| ==> !less(s[q], s[p])
  }

  /** While element `j` travels left: `s[..n+1]` is ordered once `s[j]` is ignored ... */
  ghost predicate SortedExcept<T>(s: seq<T>, n: nat, j: nat, less: (T, T) -> bool)
    requires n < |s|
  {
    forall p, q :: 0 <= p < q <= n && p != j && q != j ==> !less(s[q], s[p])
  }

  /** ... and `s[j]` is less than everything it has passed. */
  ghost predicate BelowPassed<T>(s: seq<T>, n: nat, j: nat, less: (T, T) -> bool)
    requires j <= n < |s|
  {
    forall q :: j < q <= n ==> less(s[j], s[q])
  }

  lemma SwapLeft<T>(s: seq<T>, n: nat, j: nat, less: (T, T) -> bool)
    requires 0 < j <= n < |s|
    requires SortedExcept(s, n, j, less) && BelowPassed(s, n, j, less)
    requires less(s[j], s[j - 1])
    ensures SortedExcept(s[j - 1 := s[j]][j := s[j - 1]], n, j - 1, less)
    ensures BelowPassed(s[j - 1 := s[j]][j := s[j - 1]], n, j - 1, less)
  {
  }

  lemma InsertDone<T(!new)>(s: seq<T>, n: nat, j: nat, less: (T, T) -> bool)
    requires StrictWeakOrder(less)
    requires j <= n < |s|
    requires SortedExcept(s, n, j, less) && BelowPassed(s, n, j, less)
    requires j == 0 || !less(s[j], s[j - 1])
    ensures SortedBy(s[..n + 1], less)
  {
    forall p, q | 0 <= p < q <= n
      ensures !less(s[q], s[p])
    {
      if q == j && p < j - 1 {
        assert !less(s[j - 1], s[p]);
      }
    }
  }

  method SortSlice<T(!new)>(a: array<T>, less: (T, T) -> bool)
    requires StrictWeakOrder(less)
    modifies a
    ensures SortedBy(a[..], less)
    ensures multiset(a[..]) == old(multiset(a[..]))
  {
    var i := 0;
    while i < a.Length
      invariant 0 <= i <= a.Length
      invariant SortedBy(a[..i], less)
      invariant multiset(a[..]) == old(multiset(a[..]))
    {
      var j := i;
      while 0 < j && less(a[j], a[j - 1])
        invariant 0 <= j <= i
        invariant SortedExcept(a[..], i, j, less) && BelowPassed(a[..], i, j, less)
        invariant multiset(a[..]) == old(multiset(a[..]))
      {
        SwapLeft(a[..], i, j, less);
        ghost var before := a[..];
        a[j - 1], a[j] := a[j], a[j - 1];
        assert a[..] == before[j - 1 := before[j]][j := before[j - 1]];
        j := j - 1;
      }
      InsertDone(a[..], i, j, less);
      assert a[..][..i + 1] == a[..i + 1];
      i := i + 1;
    }
    assert a[..a.Length] == a[..];
  }
}
