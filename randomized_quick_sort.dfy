/**
 * The quicksort of algorithms/sorting_algorithms/randomizedQuickSort.js:
 * the same Lomuto partition as QuickSort, after the last element of the range
 * has been exchanged with one at a random index of the range. The random
 * index is a nondeterministic choice, so every property below holds whatever
 * index is drawn.
 */
module RandomizedQuickSort {
  import opened Sorting
  import Lomuto = QuickSort

  /** `randomizedPartition`: `pivotIndex` is the index drawn, the pivot is
      the element that was there, and `p` is where it ends up. */
  method RandomizedPartition(arr: array<int>, lo: int, hi: int) returns (p: int, ghost pivotIndex: int)
    requires 0 <= lo <= hi < arr.Length
    modifies arr
    ensures lo <= p <= hi && lo <= pivotIndex <= hi && arr[p] == old(arr[pivotIndex])
    ensures Lomuto.Partitioned(arr[..], lo, hi, p)
    ensures Lomuto.Permuted(old(arr[..]), arr[..], lo, hi)
  {
    var randomIndex :| lo <= randomIndex <= hi;
    Lomuto.Exchange(arr, randomIndex, hi);
    Lomuto.PermutedOfFrame(old(arr[..]), arr[..], lo, hi);
    ghost var swapped := arr[..];
    p := Lomuto.Partition(arr, lo, hi);
    Lomuto.PermutedTrans(old(arr[..]), swapped, arr[..], lo, hi);
    pivotIndex := randomIndex;
  }

  /** `quickSortInPlace` with the randomized partition: sorts `arr[lo..hi]`
      and touches nothing else. */
  method QuickSortInPlace(arr: array<int>, lo: int, hi: int)
    requires 0 <= lo <= hi + 1 <= arr.Length
    modifies arr
    ensures Lomuto.Permuted(old(arr[..]), arr[..], lo, hi)
    ensures Sorted(arr[lo..hi + 1])
    ensures lo >= hi ==> arr[..] == old(arr[..])
    decreases hi - lo
  {
    if lo >= hi {
      return;
    }
    ghost var s0 := arr[..];
    var pivotIndex, _ := RandomizedPartition(arr, lo, hi);
    ghost var s1 := arr[..];
    QuickSortInPlace(arr, lo, pivotIndex - 1);
    ghost var s2 := arr[..];
    QuickSortInPlace(arr, pivotIndex + 1, hi);
    Lomuto.SortedAroundPivot(s0, s1, s2, arr[..], lo, pivotIndex, hi);
  }

  /** `quickSort`: a sorted copy of `arr`; `arr` itself is not modified. */
  method QuickSort(arr: array<int>) returns (copiedArr: array<int>)
    ensures fresh(copiedArr)
    ensures Sorted(copiedArr[..]) && multiset(copiedArr[..]) == multiset(arr[..])
  {
    copiedArr := new int[arr.Length](k requires 0 <= k < arr.Length reads arr => arr[k]);
    ghost var copied := copiedArr[..];
    assert copied == arr[..];
    QuickSortInPlace(copiedArr, 0, arr.Length - 1);
    assert copiedArr[..] == copiedArr[0..arr.Length];
    assert copied == copied[0..arr.Length];
  }
}
