/**
 * The quicksort of algorithms/sorting_algorithms/quickSort.js: the Lomuto
 * partition around the last element of `arr[lo..hi]` (both ends inclusive),
 * in-place recursion on both sides of the pivot, and a sort of a copy.
 */
module QuickSort {
  import opened Sorting

  /** `b` holds the elements of `a` with only `b[lo..hi]` (inclusive)
      rearranged. */
  ghost predicate Permuted(a: seq<int>, b: seq<int>, lo: int, hi: int) {
    && 0 <= lo <= hi + 1 <= |a| == |b|
    && a[..lo] == b[..lo]
    && a[hi + 1..] == b[hi + 1..]
    && multiset(a[lo..hi + 1]) == multiset(b[lo..hi + 1])
  }

  /** `a[p]` is a pivot of `a[lo..hi]`: smaller elements before it, the
      others after it. */
  ghost predicate Partitioned(a: seq<int>, lo: int, hi: int, p: int) {
    && 0 <= lo <= p <= hi < |a|
    && (forall k :: lo <= k < p ==> a[k] < a[p])
    && (forall k :: p < k <= hi ==> a[k] >= a[p])
  }

  /** `partition`: returns the final place of the pivot `old(arr[hi])`. */
  method Partition(arr: array<int>, lo: int, hi: int) returns (p: int)
    requires 0 <= lo <= hi < arr.Length
    modifies arr
    ensures lo <= p <= hi && arr[p] == old(arr[hi])
    ensures Partitioned(arr[..], lo, hi, p)
    ensures Permuted(old(arr[..]), arr[..], lo, hi)
  {
    var pivot := arr[hi];
    var i := lo - 1;
    for j := lo to hi
      invariant lo - 1 <= i < j && arr[hi] == pivot
      invariant forall k :: lo <= k <= i ==> arr[k] < pivot
      invariant forall k :: i < k < j ==> arr[k] >= pivot
      invariant forall k :: 0 <= k < arr.Length && (k < lo || hi < k) ==> arr[k] == old(arr[k])
      invariant multiset(arr[..]) == multiset(old(arr[..]))
    {
      if arr[j] < pivot {
        i := i + 1;
        Exchange(arr, i, j);
      }
    }
    Exchange(arr, i + 1, hi);
    p := i + 1;
    PermutedOfFrame(old(arr[..]), arr[..], lo, hi);
  }

  /** The destructuring swap `[arr[x], arr[y]] = [arr[y], arr[x]]`. */
  method Exchange(arr: array<int>, x: int, y: int)
    requires 0 <= x < arr.Length && 0 <= y < arr.Length
    modifies arr
    ensures arr[x] == old(arr[y]) && arr[y] == old(arr[x])
    ensures forall k :: 0 <= k < arr.Length && k != x && k != y ==> arr[k] == old(arr[k])
    ensures multiset(arr[..]) == multiset(old(arr[..]))
  {
    arr[x], arr[y] := arr[y], arr[x];
  }

  /** Elements kept, and kept in place outside `[lo, hi]`: a rearrangement of
      the range. */
  lemma PermutedOfFrame(a: seq<int>, b: seq<int>, lo: int, hi: int)
    requires 0 <= lo <= hi + 1 <= |a| == |b| && multiset(a) == multiset(b)
    requires forall k :: 0 <= k < |a| && (k < lo || hi < k) ==> a[k] == b[k]
    ensures Permuted(a, b, lo, hi)
  {
    assert a[..lo] == b[..lo];
    assert a[hi + 1..] == b[hi + 1..];
    assert a == a[..lo] + a[lo..hi + 1] + a[hi + 1..];
    assert b == b[..lo] + b[lo..hi + 1] + b[hi + 1..];
    assert multiset(a) == multiset(a[..lo]) + multiset(a[lo..hi + 1]) + multiset(a[hi + 1..]);
    assert multiset(b) == multiset(b[..lo]) + multiset(b[lo..hi + 1]) + multiset(b[hi + 1..]);
    assert multiset(a[lo..hi + 1]) == multiset(a) - multiset(a[..lo]) - multiset(a[hi + 1..]);
    assert multiset(b[lo..hi + 1]) == multiset(b) - multiset(b[..lo]) - multiset(b[hi + 1..]);
  }

  /** `quickSortInPlace`: sorts `arr[lo..hi]` and touches nothing else; a
      range of at most one element is left as it is. */
  method QuickSortInPlace(arr: array<int>, lo: int, hi: int)
    requires 0 <= lo <= hi + 1 <= arr.Length
    modifies arr
    ensures Permuted(old(arr[..]), arr[..], lo, hi)
    ensures Sorted(arr[lo..hi + 1])
    ensures lo >= hi ==> arr[..] == old(arr[..])
    decreases hi - lo
  {
    if lo >= hi {
      return;
    }
    ghost var s0 := arr[..];
    var pivotIndex := Partition(arr, lo, hi);
    ghost var s1 := arr[..];
    QuickSortInPlace(arr, lo, pivotIndex - 1);
    ghost var s2 := arr[..];
    QuickSortInPlace(arr, pivotIndex + 1, hi);
    SortedAroundPivot(s0, s1, s2, arr[..], lo, pivotIndex, hi);
  }

  /** The two recursive calls put together: sorting the smaller side and the
      larger side of a partitioned range sorts the range. */
  lemma SortedAroundPivot(s0: seq<int>, s1: seq<int>, s2: seq<int>, s3: seq<int>, lo: int, p: int, hi: int)
    requires Partitioned(s1, lo, hi, p) && Permuted(s0, s1, lo, hi)
    requires Permuted(s1, s2, lo, p - 1) && Sorted(s2[lo..p])
    requires Permuted(s2, s3, p + 1, hi) && Sorted(s3[p + 1..hi + 1])
    ensures Permuted(s0, s3, lo, hi) && Sorted(s3[lo..hi + 1])
  {
    var pivot := s1[p];
    // The sides are rearranged in place, so the bounds still hold.
    assert AllBelow(s1[lo..p], pivot);
    BelowPermutation(s1[lo..p], s2[lo..p], pivot);
    assert s2[p + 1..hi + 1] == s1[p + 1..hi + 1] by {
      assert s2[p..] == s1[p..];
    }
    assert AllAtLeast(s2[p + 1..hi + 1], pivot);
    AtLeastPermutation(s2[p + 1..hi + 1], s3[p + 1..hi + 1], pivot);
    assert s3[..p + 1] == s2[..p + 1];
    assert s3[lo..p] == s2[lo..p] && s3[p] == s2[p] == pivot;
    SortedJoin(s3[lo..p], pivot, s3[p + 1..hi + 1]);
    assert s3[lo..hi + 1] == s3[lo..p] + [pivot] + s3[p + 1..hi + 1];
    PermutedTrans3(s0, s1, s2, s3, lo, p, hi);
  }

  /** Rearranging the whole range, then the part left of `p`, then the part
      right of it, is a rearrangement of the range. */
  lemma PermutedTrans3(s0: seq<int>, s1: seq<int>, s2: seq<int>, s3: seq<int>, lo: int, p: int, hi: int)
    requires lo <= p <= hi
    requires Permuted(s0, s1, lo, hi) && Permuted(s1, s2, lo, p - 1) && Permuted(s2, s3, p + 1, hi)
    ensures Permuted(s0, s3, lo, hi)
  {
    PermutedWiden(s1, s2, lo, p - 1, lo, hi);
    PermutedWiden(s2, s3, p + 1, hi, lo, hi);
    PermutedTrans(s0, s1, s2, lo, hi);
    PermutedTrans(s0, s2, s3, lo, hi);
  }

  lemma PermutedTrans(a: seq<int>, b: seq<int>, c: seq<int>, lo: int, hi: int)
    requires Permuted(a, b, lo, hi) && Permuted(b, c, lo, hi)
    ensures Permuted(a, c, lo, hi)
  {
  }

  /** A rearrangement of part of a range is a rearrangement of the range. */
  lemma PermutedWiden(a: seq<int>, b: seq<int>, l1: int, h1: int, lo: int, hi: int)
    requires Permuted(a, b, l1, h1) && 0 <= lo <= l1 && h1 <= hi < |a|
    ensures Permuted(a, b, lo, hi)
  {
    assert a[..lo] == a[..l1][..lo] && b[..lo] == b[..l1][..lo];
    assert a[hi + 1..] == a[h1 + 1..][hi - h1..] && b[hi + 1..] == b[h1 + 1..][hi - h1..];
    assert a[lo..l1] == a[..l1][lo..] && b[lo..l1] == b[..l1][lo..];
    assert a[h1 + 1..hi + 1] == a[h1 + 1..][..hi - h1] && b[h1 + 1..hi + 1] == b[h1 + 1..][..hi - h1];
    assert a[lo..hi + 1] == a[lo..l1] + a[l1..h1 + 1] + a[h1 + 1..hi + 1];
    assert b[lo..hi + 1] == b[lo..l1] + b[l1..h1 + 1] + b[h1 + 1..hi + 1];
  }

  /** `quickSort`: a sorted copy of `arr`; `arr` itself is not modified. */
  method QuickSort(arr: array<int>) returns (copiedArr: array<int>)
    ensures fresh(copiedArr)
    ensures Sorted(copiedArr[..]) && multiset(copiedArr[..]) == multiset(arr[..])
  {
    copiedArr := new int[arr.Length](k requires 0 <= k < arr.Length reads arr => arr[k]);
    ghost var copied := copiedArr[..];
    assert copied == arr[..];
    QuickSortInPlace(copiedArr, 0, arr.Length - 1);
    assert copiedArr[..] == copiedArr[0..arr.Length];
    assert copied == copied[0..arr.Length];
  }
}
