/** What the sorting algorithms of the repository promise: non-decreasing order. */
module Sorting {

  /** `s` is in non-decreasing order. */
  ghost predicate Sorted(s: seq<int>) {
    forall i, j :: 0 <= i < j < |s| ==> s[i] <= s[j]
  }

  /** Every element of `s` is less than `x`. */
  ghost predicate AllBelow(s: seq<int>, x: int) {
    forall k :: 0 <= k < |s| ==> s[k] < x
  }

  /** Every element of `s` is at least `x`. */
  ghost predicate AllAtLeast(s: seq<int>, x: int) {
    forall k :: 0 <= k < |s| ==> x <= s[k]
  }

  /** A sorted sequence is determined by its elements: two sorted permutations
      of each other are equal. This pins down the result of every sort. */
  lemma {:induction false} SortedUnique(a: seq<int>, b: seq<int>)
    requires Sorted(a) && Sorted(b) && multiset(a) == multiset(b)
    ensures a == b
  {
    assert |a| == |multiset(a)| == |multiset(b)| == |b|;
    if a != [] {
      SortedHead(a, b[0]);
      SortedHead(b, a[0]);
      TailElements(a);
      TailElements(b);
      SortedTail(a);
      SortedTail(b);
      assert a[0] == b[0];
      assert multiset(a[1..]) == multiset(b[1..]);
      SortedUnique(a[1..], b[1..]);
      assert a == [a[0]] + a[1..] && b == [b[0]] + b[1..];
    }
  }

  /** The first element of a sorted sequence is its least. */
  lemma SortedHead(s: seq<int>, x: int)
    requires Sorted(s) && x in multiset(s)
    ensures s[0] <= x
  {
    var k :| 0 <= k < |s| && s[k] == x;
    assert s[0] <= s[k];
  }

  lemma SortedTail(s: seq<int>)
    requires s != [] && Sorted(s)
    ensures Sorted(s[1..])
  {
  }

  /** Dropping the first element of a sequence. */
  lemma TailElements(s: seq<int>)
    requires s != []
    ensures multiset(s[1..]) == multiset(s) - multiset{s[0]}
  {
    assert s == [s[0]] + s[1..];
  }

  /** Putting a smallest element in front keeps a sequence sorted. */
  lemma SortedCons(x: int, s: seq<int>)
    requires Sorted(s) && (s != [] ==> x <= s[0])
    ensures Sorted([x] + s)
  {
  }

  /** Two sorted pieces, all of the first at most all of the second, around
      a middle element make a sorted whole. */
  lemma SortedJoin(left: seq<int>, pivot: int, right: seq<int>)
    requires Sorted(left) && Sorted(right)
    requires AllBelow(left, pivot) && AllAtLeast(right, pivot)
    ensures Sorted(left + [pivot] + right)
  {
  }

  /** The same with the first piece only at most the middle element. */
  lemma SortedAround(left: seq<int>, mid: int, right: seq<int>)
    requires Sorted(left) && Sorted(right)
    requires forall k :: 0 <= k < |left| ==> left[k] <= mid
    requires AllAtLeast(right, mid)
    ensures Sorted(left + [mid] + right)
  {
  }

  /** A permutation keeps every element below a bound. */
  lemma BelowPermutation(s: seq<int>, t: seq<int>, x: int)
    requires multiset(s) == multiset(t) && AllBelow(s, x)
    ensures AllBelow(t, x)
  {
    forall k | 0 <= k < |t|
      ensures t[k] < x
    {
      assert t[k] in multiset(s);
    }
  }

  /** A permutation keeps every element above a bound. */
  lemma AtLeastPermutation(s: seq<int>, t: seq<int>, x: int)
    requires multiset(s) == multiset(t) && AllAtLeast(s, x)
    ensures AllAtLeast(t, x)
  {
    forall k | 0 <= k < |t|
      ensures x <= t[k]
    {
      assert t[k] in multiset(s);
    }
  }
}
