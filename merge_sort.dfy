/**
 * The merge sort of algorithms/sorting_algorithms/mergeSort.js: `merge`
 * combines two arrays front to front into a new one, and `mergeSort` sorts
 * the two halves of a copy recursively and merges them.
 */
module MergeSort {
  import opened Sorting

  /** The merge of `a` and `b` as `merge` builds it: the smaller front
      element goes first, and on a tie the front of `b` does (the comparison
      is a strict `<`). */
  ghost function Merged(a: seq<int>, b: seq<int>): seq<int>
    decreases |a| + |b|
  {
    if a == [] then b
    else if b == [] then a
    else if a[0] < b[0] then [a[0]] + Merged(a[1..], b)
    else [b[0]] + Merged(a, b[1..])
  }

  /** The merge holds the elements of both inputs, and nothing else. */
  lemma {:induction false} MergedElements(a: seq<int>, b: seq<int>)
    ensures multiset(Merged(a, b)) == multiset(a) + multiset(b)
    decreases |a| + |b|
  {
    if a == [] {
      assert multiset(a) == multiset{};
    } else if b == [] {
      assert multiset(b) == multiset{};
    } else if a[0] < b[0] {
      MergedElements(a[1..], b);
      assert a == [a[0]] + a[1..];
      assert multiset(Merged(a, b)) == multiset{a[0]} + multiset(Merged(a[1..], b));
    } else {
      MergedElements(a, b[1..]);
      assert b == [b[0]] + b[1..];
      assert multiset(Merged(a, b)) == multiset{b[0]} + multiset(Merged(a, b[1..]));
    }
  }

  /** The merge starts with the front of one of its inputs. */
  lemma MergedFront(a: seq<int>, b: seq<int>)
    requires a != [] || b != []
    ensures Merged(a, b) != []
    ensures (a != [] && Merged(a, b)[0] == a[0]) || (b != [] && Merged(a, b)[0] == b[0])
  {
  }

  /** Merging two sorted sequences gives a sorted sequence. */
  lemma {:induction false} MergedSorted(a: seq<int>, b: seq<int>)
    requires Sorted(a) && Sorted(b)
    ensures Sorted(Merged(a, b))
    decreases |a| + |b|
  {
    if a != [] && b != [] {
      if a[0] < b[0] {
        SortedTail(a);
        MergedSorted(a[1..], b);
        if a[1..] != [] {
          MergedFront(a[1..], b);
          assert a[0] <= a[1];
        } else {
          MergedFront(a[1..], b);
        }
        SortedCons(a[0], Merged(a[1..], b));
      } else {
        SortedTail(b);
        MergedSorted(a, b[1..]);
        if b[1..] != [] {
          MergedFront(a, b[1..]);
          assert b[0] <= b[1];
        } else {
          MergedFront(a, b[1..]);
        }
        SortedCons(b[0], Merged(a, b[1..]));
      }
    }
  }

  /** `merge`: the three loops of the source, pushing onto `mergedArr`. */
  method Merge(arr1: seq<int>, arr2: seq<int>) returns (mergedArr: seq<int>)
    ensures mergedArr == Merged(arr1, arr2)
  {
    mergedArr := [];
    var i := 0;
    var j := 0;
    while i < |arr1| && j < |arr2|
      invariant Merging(arr1, arr2, i, j, mergedArr)
    {
      if arr1[i] < arr2[j] {
        TakeFirst(arr1, arr2, i, j, mergedArr);
        mergedArr := mergedArr + [arr1[i]];
        i := i + 1;
      } else {
        TakeSecond(arr1, arr2, i, j, mergedArr);
        mergedArr := mergedArr + [arr2[j]];
        j := j + 1;
      }
    }
    while i < |arr1|
      invariant Merging(arr1, arr2, i, j, mergedArr)
      invariant i < |arr1| ==> j == |arr2|
    {
      TakeFirst(arr1, arr2, i, j, mergedArr);
      mergedArr := mergedArr + [arr1[i]];
      i := i + 1;
    }
    while j < |arr2|
      invariant Merging(arr1, arr2, i, j, mergedArr) && i == |arr1|
    {
      TakeSecond(arr1, arr2, i, j, mergedArr);
      mergedArr := mergedArr + [arr2[j]];
      j := j + 1;
    }
    MergingDone(arr1, arr2, i, j, mergedArr);
  }

  /** The merge of what is left of `a` and `b` from positions `i` and `j`. */
  ghost function MergedFrom(a: seq<int>, b: seq<int>, i: int, j: int): seq<int>
    requires 0 <= i <= |a| && 0 <= j <= |b|
    decreases |a| - i + |b| - j
  {
    if i == |a| then b[j..]
    else if j == |b| then a[i..]
    else if a[i] < b[j] then [a[i]] + MergedFrom(a, b, i + 1, j)
    else [b[j]] + MergedFrom(a, b, i, j + 1)
  }

  lemma {:induction false} MergedFromIsMerged(a: seq<int>, b: seq<int>, i: int, j: int)
    requires 0 <= i <= |a| && 0 <= j <= |b|
    ensures MergedFrom(a, b, i, j) == Merged(a[i..], b[j..])
    decreases |a| - i + |b| - j
  {
    if i < |a| && j < |b| {
      assert a[i..][1..] == a[i + 1..] && b[j..][1..] == b[j + 1..];
      if a[i] < b[j] {
        MergedFromIsMerged(a, b, i + 1, j);
      } else {
        MergedFromIsMerged(a, b, i, j + 1);
      }
    }
  }

  /** The state of the loops of `merge`: what is still to come is the merge
      of what is left of both inputs. */
  ghost predicate Merging(a: seq<int>, b: seq<int>, i: int, j: int, m: seq<int>) {
    0 <= i <= |a| && 0 <= j <= |b| && m + MergedFrom(a, b, i, j) == MergedFrom(a, b, 0, 0)
  }

  /** Pushing `a[i]`, when `b` has nothing left or `a[i] < b[j]`. */
  lemma TakeFirst(a: seq<int>, b: seq<int>, i: int, j: int, m: seq<int>)
    requires Merging(a, b, i, j, m) && i < |a| && (j < |b| ==> a[i] < b[j])
    ensures Merging(a, b, i + 1, j, m + [a[i]])
  {
    if j == |b| {
      assert a[i..] == [a[i]] + a[i + 1..];
    }
    assert m + [a[i]] + MergedFrom(a, b, i + 1, j) == m + ([a[i]] + MergedFrom(a, b, i + 1, j));
  }

  /** Pushing `b[j]`, when `a` has nothing left or `a[i] >= b[j]`. */
  lemma TakeSecond(a: seq<int>, b: seq<int>, i: int, j: int, m: seq<int>)
    requires Merging(a, b, i, j, m) && j < |b| && (i < |a| ==> a[i] >= b[j])
    ensures Merging(a, b, i, j + 1, m + [b[j]])
  {
    if i == |a| {
      assert b[j..] == [b[j]] + b[j + 1..];
    }
    assert m + [b[j]] + MergedFrom(a, b, i, j + 1) == m + ([b[j]] + MergedFrom(a, b, i, j + 1));
  }

  lemma MergingDone(a: seq<int>, b: seq<int>, i: int, j: int, m: seq<int>)
    requires Merging(a, b, i, j, m) && i == |a| && j == |b|
    ensures m == Merged(a, b)
  {
    MergedFromIsMerged(a, b, 0, 0);
    assert a[0..] == a && b[0..] == b;
    assert m + [] == m;
  }

  /** `mergeSort`: a sorted permutation of `arr`; an array of at most one
      element is returned as it is. */
  method MergeSort(arr: seq<int>) returns (r: seq<int>)
    ensures Sorted(r) && multiset(r) == multiset(arr)
    ensures |arr| <= 1 ==> r == arr
    decreases |arr|
  {
    if |arr| <= 1 {
      return arr;
    }
    var mid := |arr| / 2;
    var left := MergeSort(arr[..mid]);
    var right := MergeSort(arr[mid..]);
    r := Merge(left, right);
    MergedElements(left, right);
    MergedSorted(left, right);
    assert arr == arr[..mid] + arr[mid..];
  }

  /** The repository's example. */
  method Example() returns (r: seq<int>)
    ensures r == [0, 1, 4, 19, 20, 33]
  {
    r := MergeSort([19, 1, 4, 0, 33, 20]);
    ExampleSorted();
    SortedUnique(r, [0, 1, 4, 19, 20, 33]);
  }

  lemma ExampleSorted()
    ensures Sorted([0, 1, 4, 19, 20, 33])
    ensures multiset([19, 1, 4, 0, 33, 20]) == multiset([0, 1, 4, 19, 20, 33])
  {
    SortedCons(33, []);
    SortedCons(20, [33]);
    SortedCons(19, [20, 33]);
    SortedCons(4, [19, 20, 33]);
    SortedCons(1, [4, 19, 20, 33]);
    SortedCons(0, [1, 4, 19, 20, 33]);
    assert [0] + [1, 4, 19, 20, 33] == [0, 1, 4, 19, 20, 33];
    ExampleElements();
  }

  lemma ExampleElements()
    ensures multiset([19, 1, 4, 0, 33, 20]) == multiset([0, 1, 4, 19, 20, 33])
  {
  }
}
