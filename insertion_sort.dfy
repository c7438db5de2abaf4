/**
 * The in-place insertion sort of algorithms/sorting_algorithms/insertionSort.js:
 * each element is taken out and the larger elements before it are shifted one
 * place to the right until its slot is found.
 */
module InsertionSort {
  import opened Sorting

  /** `insertionSort`: sorts `arr` in place into non-decreasing order. */
  method InsertionSort(arr: array<int>)
    modifies arr
    ensures Sorted(arr[..])
    ensures multiset(arr[..]) == multiset(old(arr[..]))
  {
    var i := 1;
    while i < arr.Length
      invariant arr.Length > 0 ==> 1 <= i <= arr.Length && Sorted(arr[..i])
      invariant multiset(arr[..]) == multiset(old(arr[..]))
    {
      ghost var _ := InsertCurrent(arr, i);
      i := i + 1;
    }
  }

  /** One step of the outer loop: `arr[i]` is moved back into the sorted
      prefix `arr[..i]`, past every element greater than it and no further,
      so that equal elements keep their order (the comparison is a strict
      `>`). */
  method InsertCurrent(arr: array<int>, i: int) returns (ghost p: int)
    requires 0 < i < arr.Length && Sorted(arr[..i])
    modifies arr
    ensures 0 <= p <= i && arr[..] == Inserted(old(arr[..]), i, p)
    ensures InsertionPoint(old(arr[..]), i, p)
    ensures Sorted(arr[..i + 1])
    ensures multiset(arr[..]) == multiset(old(arr[..]))
  {
    ghost var start := arr[..];
    var currentVal := arr[i];
    var j := i - 1;
    while j >= 0 && arr[j] > currentVal
      invariant Shifting(start, arr[..], i, j) && currentVal == start[i]
      decreases j + 1
    {
      ShiftStep(start, arr[..], i, j);
      arr[j + 1] := arr[j];
      j := j - 1;
    }
    ShiftDone(start, arr[..], i, j);
    arr[j + 1] := currentVal;
    p := j + 1;
  }

  /** The state of the shifting loop: the slot `j + 1` is a hole, the
      elements `s[j + 1..i]` have each moved one place to the right and are
      all greater than `s[i]`, and everything else is where it was. */
  ghost predicate Shifting(s: seq<int>, a: seq<int>, i: int, j: int) {
    && -1 <= j < i < |s| == |a|
    && (forall k :: 0 <= k <= j ==> a[k] == s[k])
    && (forall k :: j + 1 < k <= i ==> a[k] == s[k - 1])
    && (forall k :: i < k < |a| ==> a[k] == s[k])
    && (forall k :: j + 1 <= k < i ==> s[k] > s[i])
  }

  /** `arr[j] > currentVal`: copying `arr[j]` into the hole moves the hole left. */
  lemma ShiftStep(s: seq<int>, a: seq<int>, i: int, j: int)
    requires Shifting(s, a, i, j) && 0 <= j && a[j] > s[i]
    ensures Shifting(s, a[j + 1 := a[j]], i, j - 1)
  {
  }

  /** The loop has stopped: `currentVal` goes into the hole, which leaves `s`
      with `s[i]` moved to `j + 1`, sorted up to `i` and with the same elements. */
  lemma ShiftDone(s: seq<int>, a: seq<int>, i: int, j: int)
    requires Shifting(s, a, i, j) && (j >= 0 ==> a[j] <= s[i]) && Sorted(s[..i])
    ensures a[j + 1 := s[i]] == Inserted(s, i, j + 1)
    ensures InsertionPoint(s, i, j + 1)
    ensures Sorted(Inserted(s, i, j + 1)[..i + 1])
    ensures multiset(Inserted(s, i, j + 1)) == multiset(s)
  {
    var p := j + 1;
    var r, b := Inserted(s, i, p), a[p := s[i]];
    forall k | 0 <= k < |a|
      ensures b[k] == r[k]
    {
      if k < p {
        assert r[k] == s[k];
      } else if k == p {
        assert r[k] == s[i];
      } else if k <= i {
        assert r[k] == s[k - 1];
      } else {
        assert r[k] == s[k];
      }
    }
    InsertedSorted(s, i, p);
    InsertedElements(s, i, p);
  }

  /** `p` is where `s[i]` goes: after every element not greater than it,
      before the greater ones. */
  ghost predicate InsertionPoint(s: seq<int>, i: int, p: int)
    requires 0 <= p <= i < |s|
  {
    && (p > 0 ==> s[p - 1] <= s[i])
    && forall k :: p <= k < i ==> s[k] > s[i]
  }

  /** `s` with `s[i]` moved back to position `p`; the elements from `p` up
      to `i - 1` each move one place to the right. */
  ghost function Inserted(s: seq<int>, i: int, p: int): (r: seq<int>)
    requires 0 <= p <= i < |s|
    ensures |r| == |s|
  {
    s[..p] + [s[i]] + s[p..i] + s[i + 1..]
  }

  /** Moving `s[i]` in front of the larger elements of a sorted prefix keeps
      the prefix sorted. */
  lemma InsertedSorted(s: seq<int>, i: int, p: int)
    requires 0 <= p <= i < |s| && Sorted(s[..i])
    requires p > 0 ==> s[p - 1] <= s[i]
    requires forall k :: p <= k < i ==> s[k] > s[i]
    ensures Sorted(Inserted(s, i, p)[..i + 1])
  {
    var r := Inserted(s, i, p)[..i + 1];
    assert r == s[..p] + [s[i]] + s[p..i];
    forall a, b | 0 <= a < b < |r|
      ensures r[a] <= r[b]
    {
      if b < p {
        assert r[a] == s[..i][a] && r[b] == s[..i][b];
      } else if b == p {
        if a < p - 1 {
          assert s[..i][a] <= s[..i][p - 1];
        }
      } else if a < p {
        assert s[..i][a] <= s[..i][b - 1];
      } else if a > p {
        assert s[..i][a - 1] <= s[..i][b - 1];
      }
    }
  }

  /** Moving an element keeps the elements. */
  lemma InsertedElements(s: seq<int>, i: int, p: int)
    requires 0 <= p <= i < |s|
    ensures multiset(Inserted(s, i, p)) == multiset(s)
  {
    assert s == s[..p] + s[p..i] + [s[i]] + s[i + 1..];
  }

  /** The repository's example. */
  method Example() returns (arr: array<int>)
    ensures arr[..] == [8, 10, 17, 19, 22, 34]
  {
    arr := new int[6];
    arr[0], arr[1], arr[2], arr[3], arr[4], arr[5] := 34, 8, 22, 10, 19, 17;
    assert arr[..] == [34, 8, 22, 10, 19, 17];
    InsertionSort(arr);
    ExampleSorted();
    SortedUnique(arr[..], [8, 10, 17, 19, 22, 34]);
  }

  lemma ExampleSorted()
    ensures Sorted([8, 10, 17, 19, 22, 34])
    ensures multiset([34, 8, 22, 10, 19, 17]) == multiset([8, 10, 17, 19, 22, 34])
  {
    SortedCons(34, []);
    SortedCons(22, [34]);
    SortedCons(19, [22, 34]);
    SortedCons(17, [19, 22, 34]);
    SortedCons(10, [17, 19, 22, 34]);
    SortedCons(8, [10, 17, 19, 22, 34]);
    assert [8] + [10, 17, 19, 22, 34] == [8, 10, 17, 19, 22, 34];
    ExampleElements();
  }

  lemma ExampleElements()
    ensures multiset([34, 8, 22, 10, 19, 17]) == multiset([8, 10, 17, 19, 22, 34])
  {
  }
}
