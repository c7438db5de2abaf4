/**
 * The binary-heap priority queue of data-structures/PriorityQueue.js.
 *
 * The JavaScript class takes a three-way comparator; every use in the
 * repository (Dijkstra's algorithm) compares the `distanceToSource` numbers
 * of its elements, so an element here is an `Entry` carrying a payload and an
 * integer key, and `compare(a, b) < 0` is `a.key < b.key`.
 */
module PriorityQueue {
  import opened Wrappers

  datatype Entry<T> = Entry(value: T, key: int)

  /** Heap order: no element has a smaller key than its parent at (i - 1) / 2. */
  ghost predicate IsHeap<T>(h: seq<Entry<T>>) {
    forall p, c :: 0 <= p < |h| && 0 < c < |h| && p == (c - 1) / 2 ==> h[p].key <= h[c].key
  }

  /** Heap order except between `k` and its parent; the parent of `k` is no larger
      than the children of `k` (the state that sift-up repairs). */
  ghost predicate HeapExceptUp<T>(h: seq<Entry<T>>, k: nat) {
    && (forall p, c :: 0 <= p < |h| && 0 < c < |h| && p == (c - 1) / 2 && c != k ==> h[p].key <= h[c].key)
    && (0 < k && 2 * k + 1 < |h| ==> h[(k - 1) / 2].key <= h[2 * k + 1].key)
    && (0 < k && 2 * k + 2 < |h| ==> h[(k - 1) / 2].key <= h[2 * k + 2].key)
  }

  /** Heap order except between `k` and its children; the parent of `k` is no larger
      than the children of `k` (the state that sift-down repairs). */
  ghost predicate HeapExceptDown<T>(h: seq<Entry<T>>, k: nat) {
    && (forall p, c :: 0 <= p < |h| && 0 < c < |h| && p == (c - 1) / 2 && p != k ==> h[p].key <= h[c].key)
    && (0 < k && 2 * k + 1 < |h| ==> h[(k - 1) / 2].key <= h[2 * k + 1].key)
    && (0 < k && 2 * k + 2 < |h| ==> h[(k - 1) / 2].key <= h[2 * k + 2].key)
  }

  /** A swapped copy of `h`, as `#swap` leaves the backing array. */
  function Swapped<T>(h: seq<Entry<T>>, i: nat, j: nat): (r: seq<Entry<T>>)
    requires i < |h| && j < |h|
    ensures |r| == |h| && multiset(r) == multiset(h)
    ensures r[i] == h[j] && r[j] == h[i]
    ensures forall k :: 0 <= k < |h| && k != i && k != j ==> r[k] == h[k]
  {
    h[i := h[j]][j := h[i]]
  }

  lemma AppendExceptUp<T>(h: seq<Entry<T>>, e: Entry<T>)
    requires IsHeap(h)
    ensures HeapExceptUp(h + [e], |h|)
  {
  }

  lemma SiftUpStep<T>(h: seq<Entry<T>>, k: nat)
    requires 0 < k < |h| && HeapExceptUp(h, k) && h[k].key < h[(k - 1) / 2].key
    ensures HeapExceptUp(Swapped(h, (k - 1) / 2, k), (k - 1) / 2)
  {
    var q := (k - 1) / 2;
    var r := Swapped(h, q, k);
    SiftUpStepOrder(h, k);
    if 0 < q {
      var g := (q - 1) / 2;
      assert g != q && g != k && r[g] == h[g];
      assert h[g].key <= h[q].key;
      if 2 * q + 1 < |r| {
        var c := 2 * q + 1;
        if c == k {
          assert r[c] == h[q];
        } else {
          assert r[c] == h[c] && h[q].key <= h[c].key;
        }
      }
      if 2 * q + 2 < |r| {
        var c := 2 * q + 2;
        if c == k {
          assert r[c] == h[q];
        } else {
          assert r[c] == h[c] && h[q].key <= h[c].key;
        }
      }
    }
  }

  lemma SiftUpStepOrder<T>(h: seq<Entry<T>>, k: nat)
    requires 0 < k < |h| && HeapExceptUp(h, k) && h[k].key < h[(k - 1) / 2].key
    ensures var r := Swapped(h, (k - 1) / 2, k);
      forall p, c :: 0 <= p < |r| && 0 < c < |r| && p == (c - 1) / 2 && c != (k - 1) / 2 ==> r[p].key <= r[c].key
  {
    var q := (k - 1) / 2;
    var r := Swapped(h, q, k);
    forall p, c | 0 <= p < |r| && 0 < c < |r| && p == (c - 1) / 2 && c != q
      ensures r[p].key <= r[c].key
    {
      if c == k {
        assert p == q && r[p] == h[k] && r[c] == h[q];
      } else if p == k {
        assert r[p] == h[q] && r[c] == h[c];
      } else if p == q {
        assert r[p] == h[k] && r[c] == h[c] && h[q].key <= h[c].key;
      } else {
        assert r[p] == h[p] && r[c] == h[c];
      }
    }
  }

  lemma SiftUpDone<T>(h: seq<Entry<T>>, k: nat)
    requires k < |h| && HeapExceptUp(h, k)
    requires k > 0 ==> h[(k - 1) / 2].key <= h[k].key
    ensures IsHeap(h)
  {
  }

  lemma SiftDownStep<T>(h: seq<Entry<T>>, k: nat, m: nat)
    requires k < |h| && HeapExceptDown(h, k)
    requires m < |h| && (m == 2 * k + 1 || m == 2 * k + 2) && h[m].key < h[k].key
    requires 2 * k + 1 < |h| ==> h[m].key <= h[2 * k + 1].key
    requires 2 * k + 2 < |h| ==> h[m].key <= h[2 * k + 2].key
    ensures HeapExceptDown(Swapped(h, m, k), m)
  {
    var r := Swapped(h, m, k);
    SiftDownStepChildren(h, k, m);
    assert (m - 1) / 2 == k;
    forall p, c | 0 <= p < |r| && 0 < c < |r| && p == (c - 1) / 2 && p != m
      ensures r[p].key <= r[c].key
    {
      if c == m {
        assert p == k;
      } else if p == k {
        assert c == 2 * k + 1 || c == 2 * k + 2;
        assert r[p] == h[m] && r[c] == h[c];
      } else if c == k {
        assert 0 < k && p == (k - 1) / 2 && r[p] == h[p] && r[c] == h[m];
        assert h[p].key <= h[m].key;
      } else {
        assert r[p] == h[p] && r[c] == h[c];
      }
    }
  }

  lemma SiftDownStepChildren<T>(h: seq<Entry<T>>, k: nat, m: nat)
    requires k < |h| && HeapExceptDown(h, k)
    requires m < |h| && (m == 2 * k + 1 || m == 2 * k + 2)
    ensures 2 * m + 1 < |h| ==> Swapped(h, m, k)[k].key <= Swapped(h, m, k)[2 * m + 1].key
    ensures 2 * m + 2 < |h| ==> Swapped(h, m, k)[k].key <= Swapped(h, m, k)[2 * m + 2].key
  {
    var r := Swapped(h, m, k);
    assert (m - 1) / 2 == k;
    if 2 * m + 1 < |r| {
      var c := 2 * m + 1;
      assert r[k] == h[m] && r[c] == h[c];
      assert m == (c - 1) / 2 && m != k;
      assert h[m].key <= h[c].key;
    }
    if 2 * m + 2 < |r| {
      var c := 2 * m + 2;
      assert r[k] == h[m] && r[c] == h[c];
      assert m == (c - 1) / 2 && m != k;
      assert h[m].key <= h[c].key;
    }
  }


  lemma SiftDownDone<T>(h: seq<Entry<T>>, k: nat)
    requires k < |h| && HeapExceptDown(h, k)
    requires 2 * k + 1 < |h| ==> h[k].key <= h[2 * k + 1].key
    requires 2 * k + 2 < |h| ==> h[k].key <= h[2 * k + 2].key
    ensures IsHeap(h)
  {
  }

  lemma DropRootExceptDown<T>(h: seq<Entry<T>>)
    requires IsHeap(h) && |h| > 1
    ensures HeapExceptDown(Swapped(h, 0, |h| - 1)[..|h| - 1], 0)
  {
  }

  /** The slot sift-down moves the entry at `k` to: the child with the smaller key
      when that key is strictly below `h[k].key` (the left child on a tie), else `k`. */
  function Swappable<T>(h: seq<Entry<T>>, k: nat): (m: nat)
    requires k < |h|
    ensures m < |h| && (m == k || m == 2 * k + 1 || m == 2 * k + 2)
    ensures h[m].key <= h[k].key && (m != k ==> h[m].key < h[k].key)
    ensures 2 * k + 1 < |h| ==> h[m].key <= h[2 * k + 1].key
    ensures 2 * k + 2 < |h| ==> h[m].key <= h[2 * k + 2].key
  {
    var left := 2 * k + 1;
    var right := 2 * k + 2;
    var m := if left < |h| && h[left].key < h[k].key then left else k;
    if right < |h| && h[right].key < h[m].key then right else m
  }

  /** In a heap the root has the smallest key. */
  lemma {:induction false} RootIsMinimal<T>(h: seq<Entry<T>>, k: nat)
    requires IsHeap(h) && k < |h|
    ensures h[0].key <= h[k].key
    decreases k
  {
    if k > 0 {
      RootIsMinimal(h, (k - 1) / 2);
    }
  }

  class PriorityQueue<T> {
    /** The backing array, a complete binary tree stored level by level. */
    var heap: seq<Entry<T>>

    ghost predicate Valid()
      reads this
    {
      IsHeap(heap)
    }

    constructor ()
      ensures Valid() && heap == []
    {
      heap := [];
    }

    /** Appends `element` and sifts it up. */
    method Insert(element: Entry<T>)
      requires Valid()
      modifies this
      ensures Valid()
      ensures |heap| == |old(heap)| + 1
      ensures multiset(heap) == multiset(old(heap)) + multiset{element}
    {
      AppendExceptUp(heap, element);
      heap := heap + [element];
      var heapSize := Size();
      if heapSize == 1 {
        return;
      }
      HeapifyUp(heapSize - 1);
    }

    /** Removes and returns the head (the entry with the smallest key), or
        `None` on an empty queue. */
    method Pull() returns (r: Option<Entry<T>>)
      requires Valid()
      modifies this
      ensures Valid()
      ensures old(heap) == [] ==> r == None && heap == []
      ensures old(heap) != [] ==> r == Some(old(heap)[0]) && r.value in old(heap)
      ensures old(heap) != [] ==> |heap| == |old(heap)| - 1
      ensures old(heap) != [] ==> multiset(heap) == multiset(old(heap)) - multiset{old(heap)[0]}
      ensures r.Some? ==> forall e :: e in old(heap) ==> r.value.key <= e.key
    {
      var heapSize := Size();
      if heapSize <= 1 {
        if heapSize == 0 {
          r := None;
        } else {
          r := Some(heap[0]);
          heap := [];
        }
        return;
      }
      ghost var h0 := heap;
      DropRootExceptDown(heap);
      Swap(0, heapSize - 1);
      var head := heap[heapSize - 1];
      ghost var swapped := heap;
      heap := heap[..heapSize - 1];
      assert swapped == heap + [head];
      assert multiset(h0) == multiset(heap) + multiset{head};
      HeapifyDown(0);
      r := Some(head);
      forall e | e in h0
        ensures head.key <= e.key
      {
        var k :| 0 <= k < |h0| && h0[k] == e;
        RootIsMinimal(h0, k);
      }
    }

    /** The head without removing it, or `None` on an empty queue. */
    method Peek() returns (r: Option<Entry<T>>)
      requires Valid()
      ensures heap == [] ==> r == None
      ensures heap != [] ==> r == Some(heap[0])
      ensures r.Some? ==> forall e :: e in heap ==> r.value.key <= e.key
    {
      if heap == [] {
        r := None;
      } else {
        r := Some(heap[0]);
        forall e | e in heap
          ensures heap[0].key <= e.key
        {
          var k :| 0 <= k < |heap| && heap[k] == e;
          RootIsMinimal(heap, k);
        }
      }
    }

    method Size() returns (n: nat)
      ensures n == |heap|
    {
      n := |heap|;
    }

    /** Sift-up: swaps the entry at `index` with its parent while its key is
        strictly smaller. */
    method HeapifyUp(index: nat)
      requires index < |heap| && HeapExceptUp(heap, index)
      modifies this
      ensures IsHeap(heap)
      ensures |heap| == |old(heap)| && multiset(heap) == multiset(old(heap))
      decreases index
    {
      if index == 0 {
        SiftUpDone(heap, index);
        return;
      }
      var parentIndex := (index - 1) / 2;
      if heap[index].key < heap[parentIndex].key {
        SiftUpStep(heap, index);
        Swap(parentIndex, index);
        HeapifyUp(parentIndex);
      } else {
        SiftUpDone(heap, index);
      }
    }

    /** Sift-down: swaps the entry at `parentIndex` with its smaller child while
        that child's key is strictly smaller. */
    method HeapifyDown(parentIndex: nat)
      requires parentIndex < |heap| && HeapExceptDown(heap, parentIndex)
      modifies this
      ensures IsHeap(heap)
      ensures |heap| == |old(heap)| && multiset(heap) == multiset(old(heap))
      decreases |heap| - parentIndex
    {
      var swappableIndex := Swappable(heap, parentIndex);
      if swappableIndex != parentIndex {
        SiftDownStep(heap, parentIndex, swappableIndex);
        Swap(swappableIndex, parentIndex);
        HeapifyDown(swappableIndex);
      } else {
        SiftDownDone(heap, parentIndex);
      }
    }

    /** Exchanges two slots of the backing array. */
    method Swap(i: nat, j: nat)
      requires i < |heap| && j < |heap|
      modifies this
      ensures heap == Swapped(old(heap), i, j)
    {
      heap := heap[i := heap[j]][j := heap[i]];
    }
  }
}
