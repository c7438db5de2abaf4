/**
 * The least-significant-digit radix sort of
 * algorithms/sorting-algorithms/radixSort.js on non-negative integers: one
 * stable counting sort per decimal place, from the units up to the highest
 * digit of the largest element.
 */
module RadixSort {
  import opened Sorting

  ghost predicate NonNegative(s: seq<int>) {
    forall k :: 0 <= k < |s| ==> 0 <= s[k]
  }

  /** The digit of `x` at `place`: `Math.floor(Math.floor(x / place) % 10)`,
      which on a non-negative `x` is integer division and remainder. */
  function Digit(x: int, place: int): (r: int)
    requires place > 0
    ensures 0 <= r < 10
  {
    (x / place) % 10
  }

  /** The elements of `s[..n]` whose digit at `place` is `d`, in their order. */
  ghost function Filter(s: seq<int>, place: int, d: int, n: int): seq<int>
    requires place > 0 && 0 <= n <= |s|
  {
    if n == 0 then []
    else Filter(s, place, d, n - 1) + (if Digit(s[n - 1], place) == d then [s[n - 1]] else [])
  }

  /** The elements of `s[..n]` whose digit at `place` is below `d`. */
  ghost function FilterBelow(s: seq<int>, place: int, d: int, n: int): seq<int>
    requires place > 0 && 0 <= n <= |s|
  {
    if n == 0 then []
    else FilterBelow(s, place, d, n - 1) + (if Digit(s[n - 1], place) < d then [s[n - 1]] else [])
  }

  /** Bucket `d`: the elements of `s` with digit `d`, in their order in `s`. */
  ghost function Bucket(s: seq<int>, place: int, d: int): seq<int>
    requires place > 0
  {
    Filter(s, place, d, |s|)
  }

  /** The number of elements whose digit is below `d`: where bucket `d`
      starts in the output. */
  ghost function Below(s: seq<int>, place: int, d: int): nat
    requires place > 0
  {
    |FilterBelow(s, place, d, |s|)|
  }

  /** Buckets `0` to `d - 1`, one after the other. */
  ghost function Buckets(s: seq<int>, place: int, d: int): seq<int>
    requires place > 0 && 0 <= d <= 10
  {
    if d == 0 then [] else Buckets(s, place, d - 1) + Bucket(s, place, d - 1)
  }

  /** What `countingSort(arr, place)` leaves in `arr`: the elements grouped by
      their digit at `place`, each group in its original order. */
  ghost function CountSorted(s: seq<int>, place: int): seq<int>
    requires place > 0
  {
    Buckets(s, place, 10)
  }

  /* ---------------- properties of the buckets ---------------- */

  lemma {:induction false} FilterSplit(s: seq<int>, place: int, d: int, n: int)
    requires place > 0 && 0 <= n <= |s|
    ensures |FilterBelow(s, place, d + 1, n)| == |FilterBelow(s, place, d, n)| + |Filter(s, place, d, n)|
  {
    if n > 0 {
      FilterSplit(s, place, d, n - 1);
    }
  }

  /** The elements with digit below `d + 1` are those below `d` and those
      equal to `d`; the lemma also names the three filtered sequences. */
  lemma {:induction false} FilterSplitElements(s: seq<int>, place: int, d: int, n: int) returns (u: seq<int>, v: seq<int>, w: seq<int>)
    requires place > 0 && 0 <= n <= |s|
    ensures u == FilterBelow(s, place, d + 1, n) && v == FilterBelow(s, place, d, n) && w == Filter(s, place, d, n)
    ensures multiset(u) == multiset(v) + multiset(w)
  {
    if n == 0 {
      u, v, w := [], [], [];
    } else {
      var u', v', w' := FilterSplitElements(s, place, d, n - 1);
      var x := s[n - 1];
      var up := if Digit(x, place) < d + 1 then [x] else [];
      var below := if Digit(x, place) < d then [x] else [];
      var at := if Digit(x, place) == d then [x] else [];
      assert multiset(up) == multiset(below) + multiset(at);
      MultisetStep(u', v', w', up, below, at);
      u, v, w := u' + up, v' + below, w' + at;
    }
  }

  lemma MultisetStep(u: seq<int>, v: seq<int>, w: seq<int>, a: seq<int>, b: seq<int>, c: seq<int>)
    requires multiset(u) == multiset(v) + multiset(w) && multiset(a) == multiset(b) + multiset(c)
    ensures multiset(u + a) == multiset(v + b) + multiset(w + c)
  {
  }

  /** Bucket `d + 1` starts where bucket `d` ends. */
  lemma BelowStep(s: seq<int>, place: int, d: int)
    requires place > 0
    ensures Below(s, place, d + 1) == Below(s, place, d) + |Bucket(s, place, d)|
  {
    FilterSplit(s, place, d, |s|);
  }

  lemma {:induction false} BelowZero(s: seq<int>, place: int, n: int)
    requires place > 0 && 0 <= n <= |s|
    ensures FilterBelow(s, place, 0, n) == []
  {
    if n > 0 {
      BelowZero(s, place, n - 1);
    }
  }

  /** Every digit is below 10. */
  lemma {:induction false} BelowTen(s: seq<int>, place: int, n: int)
    requires place > 0 && 0 <= n <= |s|
    ensures FilterBelow(s, place, 10, n) == s[..n]
  {
    if n > 0 {
      BelowTen(s, place, n - 1);
      assert s[..n] == s[..n - 1] + [s[n - 1]];
    }
  }

  lemma {:induction false} BucketsBelow(s: seq<int>, place: int, d: int)
    requires place > 0 && 0 <= d <= 10
    ensures |Buckets(s, place, d)| == Below(s, place, d)
  {
    if d == 0 {
      BelowZero(s, place, |s|);
    } else {
      BucketsBelow(s, place, d - 1);
      BelowStep(s, place, d - 1);
    }
  }

  lemma {:induction false} BucketsElements(s: seq<int>, place: int, d: int)
    requires place > 0 && 0 <= d <= 10
    ensures multiset(Buckets(s, place, d)) == multiset(FilterBelow(s, place, d, |s|))
  {
    if d == 0 {
      BelowZero(s, place, |s|);
    } else {
      BucketsElements(s, place, d - 1);
      var u, v, w := FilterSplitElements(s, place, d - 1, |s|);
      var p := Buckets(s, place, d - 1);
      assert Buckets(s, place, d) == p + w;
      assert multiset(p) == multiset(v);
      assert multiset(p + w) == multiset(p) + multiset(w);
      assert u == FilterBelow(s, place, d, |s|);
    }
  }

  /** `countingSort` keeps the elements of the array. */
  lemma CountSortedElements(s: seq<int>, place: int)
    requires place > 0
    ensures multiset(CountSorted(s, place)) == multiset(s)
    ensures |CountSorted(s, place)| == |s|
  {
    BucketsElements(s, place, 10);
    BelowTen(s, place, |s|);
    assert s[..|s|] == s;
  }

  lemma {:induction false} BelowMonotone(s: seq<int>, place: int, d1: int, d2: int)
    requires place > 0 && d1 <= d2
    ensures Below(s, place, d1) <= Below(s, place, d2)
    decreases d2 - d1
  {
    if d1 < d2 {
      BelowStep(s, place, d1);
      BelowMonotone(s, place, d1 + 1, d2);
    }
  }

  /** Element `k` of bucket `d` sits at `Below(d) + k`. */
  lemma {:induction false} BucketAt(s: seq<int>, place: int, top: int, d: int, k: int)
    requires place > 0 && 0 <= d < top <= 10 && 0 <= k < |Bucket(s, place, d)|
    ensures Below(s, place, d) + k < |Buckets(s, place, top)|
    ensures Buckets(s, place, top)[Below(s, place, d) + k] == Bucket(s, place, d)[k]
  {
    BucketsBelow(s, place, top - 1);
    if d < top - 1 {
      BucketAt(s, place, top - 1, d, k);
    }
  }

  /** Every position of the output lies in a bucket. */
  lemma {:induction false} BucketOf(s: seq<int>, place: int, top: int, q: int) returns (d: int, k: int)
    requires place > 0 && 0 < top <= 10 && 0 <= q < Below(s, place, top)
    ensures 0 <= d < top && 0 <= k < |Bucket(s, place, d)| && q == Below(s, place, d) + k
  {
    BelowStep(s, place, top - 1);
    if q >= Below(s, place, top - 1) {
      d, k := top - 1, q - Below(s, place, top - 1);
    } else {
      BelowZero(s, place, |s|);
      d, k := BucketOf(s, place, top - 1, q);
    }
  }

  /** ... and in only one. */
  lemma BucketsDisjoint(s: seq<int>, place: int, d1: int, k1: int, d2: int, k2: int)
    requires place > 0 && d1 != d2
    requires 0 <= k1 < |Bucket(s, place, d1)| && 0 <= k2 < |Bucket(s, place, d2)|
    ensures Below(s, place, d1) + k1 != Below(s, place, d2) + k2
  {
    BelowStep(s, place, d1);
    BelowStep(s, place, d2);
    if d1 < d2 {
      BelowMonotone(s, place, d1 + 1, d2);
    } else {
      BelowMonotone(s, place, d2 + 1, d1);
    }
  }

  /** A filtered prefix holds elements of the prefix with digit `d`. */
  lemma {:induction false} FilterMembers(s: seq<int>, place: int, d: int, n: int)
    requires place > 0 && 0 <= n <= |s|
    ensures forall k :: 0 <= k < |Filter(s, place, d, n)| ==>
              Filter(s, place, d, n)[k] in s[..n] && Digit(Filter(s, place, d, n)[k], place) == d
  {
    if n > 0 {
      FilterMembers(s, place, d, n - 1);
      assert s[..n] == s[..n - 1] + [s[n - 1]];
    }
  }

  /** Filtering a shorter prefix gives a prefix of the filtered sequence. */
  lemma {:induction false} FilterPrefix(s: seq<int>, place: int, d: int, i: int, n: int)
    requires place > 0 && 0 <= i <= n <= |s|
    ensures |Filter(s, place, d, i)| <= |Filter(s, place, d, n)|
    ensures Filter(s, place, d, i) == Filter(s, place, d, n)[..|Filter(s, place, d, i)|]
  {
    if i < n {
      FilterPrefix(s, place, d, i, n - 1);
    }
  }

  /* ---------------- order ---------------- */

  /** `s` is ordered by the remainder modulo `m`, that is, by its lowest digits. */
  ghost predicate SortedByKey(s: seq<int>, m: int)
    requires m > 0
  {
    forall i, j :: 0 <= i < j < |s| ==> s[i] % m <= s[j] % m
  }

  /** A bucket keeps the order of the input. */
  lemma {:induction false} FilterKeepsOrder(s: seq<int>, place: int, d: int, m: int, n: int)
    requires place > 0 && m > 0 && 0 <= n <= |s| && SortedByKey(s, m)
    ensures SortedByKey(Filter(s, place, d, n), m)
  {
    if n > 0 {
      FilterKeepsOrder(s, place, d, m, n - 1);
      FilterMembers(s, place, d, n - 1);
      var f := Filter(s, place, d, n - 1);
      forall k | 0 <= k < |f|
        ensures f[k] % m <= s[n - 1] % m
      {
        var at :| 0 <= at < n - 1 && s[..n - 1][at] == f[k];
        assert s[at] == f[k];
      }
    }
  }

  lemma DivModUnique(x: int, m: int, q: int, r: int)
    requires m > 0 && 0 <= r < m && x == q * m + r
    ensures x / m == q && x % m == r
  {
    var q', r' := x / m, x % m;
    if q' > q {
      MulGap(q', q, m);
    } else if q' < q {
      MulGap(q, q', m);
    }
  }

  /** `a * m` exceeds `b * m` by at least `m` when `a > b`. */
  lemma MulGap(a: int, b: int, m: int)
    requires a > b && m > 0
    ensures a * m >= b * m + m
  {
    assert a * m == b * m + m + (a - b - 1) * m;
  }

  /** The remainder modulo `10 * place` is the digit at `place` followed by
      the remainder modulo `place`. */
  lemma ModSplit(x: int, place: int)
    requires x >= 0 && place > 0
    ensures x % (10 * place) == Digit(x, place) * place + x % place
    ensures x / (10 * place) == (x / place) / 10
  {
    var q, r := x / place, x % place;
    var t, d := q / 10, q % 10;
    assert x == (t * 10 + d) * place + r;
    assert x == t * (10 * place) + (d * place + r);
    assert d * place + r < 10 * place by {
      assert d * place <= 9 * place;
    }
    DivModUnique(x, 10 * place, t, d * place + r);
  }

  /** The position `q` of the counting sort holds element `k` of bucket `d`. */
  lemma CountSortedAt(s: seq<int>, place: int, q: int) returns (d: int, k: int)
    requires place > 0 && 0 <= q < |s|
    ensures 0 <= d < 10 && 0 <= k < |Bucket(s, place, d)|
    ensures |CountSorted(s, place)| == |s| && CountSorted(s, place)[q] == Bucket(s, place, d)[k]
    ensures q == Below(s, place, d) + k && Digit(CountSorted(s, place)[q], place) == d
    ensures CountSorted(s, place)[q] in s
  {
    CountSortedElements(s, place);
    BucketsBelow(s, place, 10);
    d, k := BucketOf(s, place, 10, q);
    BucketAt(s, place, 10, d, k);
    FilterMembers(s, place, d, |s|);
    assert s[..|s|] == s;
  }

  /** Ordered bucket by bucket: the counting sort orders by the digit at
      `place`. */
  lemma CountSortedByDigit(s: seq<int>, place: int, i: int, j: int)
    requires place > 0 && 0 <= i < j < |CountSorted(s, place)|
    ensures Digit(CountSorted(s, place)[i], place) <= Digit(CountSorted(s, place)[j], place)
  {
    CountSortedElements(s, place);
    var d1, k1 := CountSortedAt(s, place, i);
    var d2, k2 := CountSortedAt(s, place, j);
    if d2 < d1 {
      BelowStep(s, place, d2);
      BelowMonotone(s, place, d2 + 1, d1);
    }
  }

  /** The step of the radix sort, and the point of stability: a counting sort
      on the digit at `place` of a sequence ordered by its digits below
      `place` orders it by its digits up to `place`. */
  lemma CountSortedRefines(s: seq<int>, place: int)
    requires place > 0 && NonNegative(s) && SortedByKey(s, place)
    ensures SortedByKey(CountSorted(s, place), 10 * place)
  {
    var r := CountSorted(s, place);
    CountSortedElements(s, place);
    forall i, j | 0 <= i < j < |r|
      ensures r[i] % (10 * place) <= r[j] % (10 * place)
    {
      OrderedPair(s, place, i, j);
    }
  }

  lemma OrderedPair(s: seq<int>, place: int, i: int, j: int)
    requires place > 0 && NonNegative(s) && SortedByKey(s, place) && 0 <= i < j < |CountSorted(s, place)|
    ensures CountSorted(s, place)[i] % (10 * place) <= CountSorted(s, place)[j] % (10 * place)
  {
    CountSortedElements(s, place);
    var d1, k1 := CountSortedAt(s, place, i);
    var d2, k2 := CountSortedAt(s, place, j);
    var x, y := CountSorted(s, place)[i], CountSorted(s, place)[j];
    assert x >= 0 && y >= 0;
    ModSplit(x, place);
    ModSplit(y, place);
    if d1 == d2 {
      FilterKeepsOrder(s, place, d1, place, |s|);
      assert x % place <= y % place;
    } else if d2 < d1 {
      BucketsDisjoint(s, place, d1, k1, d2, k2);
      BelowStep(s, place, d2);
      BelowMonotone(s, place, d2 + 1, d1);
    } else {
      MulGap(d2, d1, place);
    }
  }

  /* ---------------- countingSort ---------------- */

  /** During the first loop: `c[d]` is the number of elements of `s[..i]`
      with digit `d`. */
  ghost predicate Counted(c: seq<int>, s: seq<int>, place: int, i: int)
    requires place > 0 && 0 <= i <= |s|
  {
    |c| == 10 && forall d :: 0 <= d < 10 ==> c[d] == |Filter(s, place, d, i)|
  }

  /** `count[index]++` for the digit of `s[i]`. */
  lemma CountStep(c: seq<int>, s: seq<int>, place: int, i: int)
    requires place > 0 && 0 <= i < |s| && Counted(c, s, place, i)
    ensures Counted(c[Digit(s[i], place) := c[Digit(s[i], place)] + 1], s, place, i + 1)
  {
  }

  /** During the second loop: the counts below `i` have been summed up. */
  ghost predicate Cumulated(c: seq<int>, s: seq<int>, place: int, i: int)
    requires place > 0
  {
    && |c| == 10 && 1 <= i <= 10
    && (forall d :: 0 <= d < i ==> c[d] == Below(s, place, d + 1))
    && (forall d :: i <= d < 10 ==> c[d] == |Bucket(s, place, d)|)
  }

  lemma CumulateStart(c: seq<int>, s: seq<int>, place: int)
    requires place > 0 && Counted(c, s, place, |s|)
    ensures Cumulated(c, s, place, 1)
  {
    BelowStep(s, place, 0);
    BelowZero(s, place, |s|);
  }

  /** `count[i] += count[i - 1]`: now `count[i]` is the number of elements with
      digit at most `i`. */
  lemma CumulateStep(c: seq<int>, s: seq<int>, place: int, i: int)
    requires place > 0 && Cumulated(c, s, place, i) && i < 10
    ensures Cumulated(c[i := c[i] + c[i - 1]], s, place, i + 1)
  {
    BelowStep(s, place, i);
  }

  /** During the third loop, which runs from the back: `c[d]` is one past
      the last free slot of bucket `d`, and the slots after it hold the
      elements of bucket `d` that come from `s[i + 1..]`. */
  ghost predicate Filling(s: seq<int>, place: int, c: seq<int>, out: seq<int>, i: int)
    requires place > 0
  {
    && |c| == 10 && |out| == |s| && -1 <= i < |s|
    && (forall d :: 0 <= d < 10 ==> c[d] == Below(s, place, d) + |Filter(s, place, d, i + 1)|)
    && (forall d, k :: 0 <= d < 10 && |Filter(s, place, d, i + 1)| <= k < |Bucket(s, place, d)| && Below(s, place, d) + k < |out| ==>
          out[Below(s, place, d) + k] == Bucket(s, place, d)[k])
  }

  lemma FillStart(c: seq<int>, s: seq<int>, place: int, out: seq<int>)
    requires place > 0 && Cumulated(c, s, place, 10) && |out| == |s|
    ensures Filling(s, place, c, out, |s| - 1)
  {
    forall d | 0 <= d < 10
      ensures c[d] == Below(s, place, d) + |Bucket(s, place, d)|
    {
      BelowStep(s, place, d);
    }
  }

  /** `output[count[index] - 1] = arr[i]; count[index]--`: `s[i]` is the last
      element of its bucket not placed yet, and goes to the last free slot. */
  lemma FillStep(s: seq<int>, place: int, c: seq<int>, out: seq<int>, i: int)
    requires place > 0 && Filling(s, place, c, out, i) && 0 <= i
    ensures 0 <= c[Digit(s[i], place)] - 1 < |out|
    ensures Filling(s, place, c[Digit(s[i], place) := c[Digit(s[i], place)] - 1],
                    out[c[Digit(s[i], place)] - 1 := s[i]], i - 1)
  {
    var d0 := Digit(s[i], place);
    FilterGrow(s, place, i);
    var m := |Filter(s, place, d0, i)|;
    FilterPrefix(s, place, d0, i + 1, |s|);
    assert Bucket(s, place, d0)[m] == s[i];
    BelowStep(s, place, d0);
    BelowMonotone(s, place, d0 + 1, 10);
    BelowTen(s, place, |s|);
    var q := Below(s, place, d0) + m;
    assert c[d0] - 1 == q;
    FillStepOut(s, place, out, i, d0, m);
  }

  /** One more element of `s` seen: only the filter of its own digit grows. */
  lemma FilterGrow(s: seq<int>, place: int, i: int)
    requires place > 0 && 0 <= i < |s|
    ensures forall d :: Filter(s, place, d, i + 1) == Filter(s, place, d, i) + (if Digit(s[i], place) == d then [s[i]] else [])
  {
  }

  /** Writing `s[i]` into slot `m` of its bucket `d0` keeps the other slots
      already filled. */
  lemma FillStepOut(s: seq<int>, place: int, out: seq<int>, i: int, d0: int, m: int)
    requires place > 0 && 0 <= i < |s| == |out| && d0 == Digit(s[i], place)
    requires m == |Filter(s, place, d0, i)| && m < |Bucket(s, place, d0)| && Bucket(s, place, d0)[m] == s[i]
    requires Below(s, place, d0) + m < |out|
    requires forall d :: Filter(s, place, d, i + 1) == Filter(s, place, d, i) + (if d0 == d then [s[i]] else [])
    requires forall d, k :: 0 <= d < 10 && |Filter(s, place, d, i + 1)| <= k < |Bucket(s, place, d)| && Below(s, place, d) + k < |out| ==>
               out[Below(s, place, d) + k] == Bucket(s, place, d)[k]
    ensures forall d, k :: 0 <= d < 10 && |Filter(s, place, d, i)| <= k < |Bucket(s, place, d)| && Below(s, place, d) + k < |out| ==>
              out[Below(s, place, d0) + m := s[i]][Below(s, place, d) + k] == Bucket(s, place, d)[k]
  {
    var out' := out[Below(s, place, d0) + m := s[i]];
    forall d, k | 0 <= d < 10 && |Filter(s, place, d, i)| <= k < |Bucket(s, place, d)| && Below(s, place, d) + k < |out|
      ensures out'[Below(s, place, d) + k] == Bucket(s, place, d)[k]
    {
      if d != d0 {
        BucketsDisjoint(s, place, d, k, d0, m);
      }
    }
  }

  lemma FillDone(s: seq<int>, place: int, c: seq<int>, out: seq<int>)
    requires place > 0 && Filling(s, place, c, out, -1)
    ensures out == CountSorted(s, place)
  {
    CountSortedElements(s, place);
    forall q | 0 <= q < |s|
      ensures out[q] == CountSorted(s, place)[q]
    {
      var d, k := CountSortedAt(s, place, q);
    }
  }

  /** `countingSort`: a stable sort of `arr` by the digit at `place`. Its
      first three loops are the methods below. */
  method CountingSort(arr: array<int>, place: int)
    requires place > 0 && NonNegative(arr[..])
    modifies arr
    ensures arr[..] == CountSorted(old(arr[..]), place)
  {
    var arrLen := arr.Length;
    var output := new int[arrLen](_ => 0);
    var count := new int[10](_ => 0);
    CountDigits(arr, place, count);
    Accumulate(arr[..], place, count);
    PlaceByDigit(arr, place, count, output);
    for i := 0 to arrLen
      invariant output[..] == CountSorted(old(arr[..]), place)
      invariant forall k :: 0 <= k < i ==> arr[k] == output[k]
      invariant forall k :: i <= k < arrLen ==> arr[k] == old(arr[k])
    {
      arr[i] := output[i];
    }
  }

  /** The first loop of `countingSort`: `count[d]` becomes the number of
      elements with digit `d`. */
  method CountDigits(arr: array<int>, place: int, count: array<int>)
    requires place > 0 && count.Length == 10 && count != arr
    requires forall d :: 0 <= d < 10 ==> count[d] == 0
    modifies count
    ensures Counted(count[..], arr[..], place, arr.Length)
  {
    for i := 0 to arr.Length
      invariant Counted(count[..], arr[..], place, i)
    {
      CountStep(count[..], arr[..], place, i);
      var index := arr[i] / place;
      index := index % 10;
      count[index] := count[index] + 1;
    }
  }

  /** The second loop: `count[d]` becomes the number of elements with digit
      at most `d`. */
  method Accumulate(ghost s: seq<int>, place: int, count: array<int>)
    requires place > 0 && Counted(count[..], s, place, |s|)
    modifies count
    ensures Cumulated(count[..], s, place, 10)
  {
    CumulateStart(count[..], s, place);
    for i := 1 to 10
      invariant Cumulated(count[..], s, place, i)
    {
      CumulateStep(count[..], s, place, i);
      count[i] := count[i] + count[i - 1];
    }
  }

  /** The third loop, from the back of `arr`: each element goes to the last
      free slot of its bucket, which keeps equal digits in their order. */
  method PlaceByDigit(arr: array<int>, place: int, count: array<int>, output: array<int>)
    requires place > 0 && output.Length == arr.Length
    requires count != arr && count != output && output != arr
    requires Cumulated(count[..], arr[..], place, 10)
    modifies count, output
    ensures output[..] == CountSorted(arr[..], place)
  {
    ghost var s := arr[..];
    FillStart(count[..], s, place, output[..]);
    var i := arr.Length - 1;
    while i >= 0
      invariant Filling(s, place, count[..], output[..], i)
      decreases i + 1
    {
      ghost var c, out := count[..], output[..];
      FillStep(s, place, c, out, i);
      var index := arr[i] / place;
      index := index % 10;
      assert index == Digit(s[i], place);
      output[count[index] - 1] := arr[i];
      assert output[..] == out[c[index] - 1 := s[i]];
      count[index] := count[index] - 1;
      assert count[..] == c[index := c[index] - 1];
      i := i - 1;
    }
    FillDone(s, place, count[..], output[..]);
  }

  /* ---------------- radixSort ---------------- */

  /** `Math.max(...arr)`; on an empty array it is -Infinity, which -1 stands
      for here: both stop the outer loop before its first pass. */
  function Max(s: seq<int>): (r: int)
    ensures s == [] ==> r == -1
    ensures forall k :: 0 <= k < |s| ==> s[k] <= r
    ensures s != [] ==> r in s
  {
    if s == [] then -1
    else if |s| == 1 then s[0]
    else if s[0] > Max(s[1..]) then s[0]
    else Max(s[1..])
  }

  /** The number of decimal digits of `n`; none for `n <= 0`. */
  function DecimalDigits(n: int): nat
    decreases if n <= 0 then 0 else n
  {
    if n <= 0 then 0 else 1 + DecimalDigits(n / 10)
  }

  /** `radixSort`: sorts `arr` in place, with one counting sort per decimal
      digit of its largest element. */
  method RadixSort(arr: array<int>) returns (ghost passes: nat)
    requires NonNegative(arr[..])
    modifies arr
    ensures Sorted(arr[..]) && multiset(arr[..]) == multiset(old(arr[..]))
    ensures passes == DecimalDigits(Max(old(arr[..])))
  {
    var max := Max(arr[..]);
    var place := 1;
    passes := 0;
    SortedByOne(arr[..]);
    while max / place > 0
      invariant place > 0 && passes + DecimalDigits(max / place) == DecimalDigits(max)
      invariant NonNegative(arr[..]) && multiset(arr[..]) == multiset(old(arr[..]))
      invariant AllBelow(arr[..], max + 1) && SortedByKey(arr[..], place)
      decreases DecimalDigits(max / place)
    {
      ghost var before := arr[..];
      CountingSort(arr, place);
      CountSortedElements(before, place);
      CountSortedRefines(before, place);
      RadixPass(before, arr[..], max, place);
      place := place * 10;
      passes := passes + 1;
    }
    RadixDone(arr[..], max, place);
  }

  lemma SortedByOne(s: seq<int>)
    ensures SortedByKey(s, 1)
  {
  }

  /** What one pass of the outer loop keeps. */
  lemma RadixPass(before: seq<int>, after: seq<int>, max: int, place: int)
    requires place > 0 && max / place > 0
    requires NonNegative(before) && AllBelow(before, max + 1)
    requires multiset(after) == multiset(before)
    ensures NonNegative(after) && AllBelow(after, max + 1)
    ensures DecimalDigits(max / place) == 1 + DecimalDigits(max / (place * 10))
  {
    assert AllAtLeast(before, 0);
    AtLeastPermutation(before, after, 0);
    BelowPermutation(before, after, max + 1);
    assert max >= 0;
    ModSplit(max, place);
    assert place * 10 == 10 * place;
  }

  /** The outer loop has stopped: `place` exceeds every element, so ordering
      by the digits below `place` is ordering by value. */
  lemma RadixDone(s: seq<int>, max: int, place: int)
    requires place > 0 && max / place <= 0
    requires NonNegative(s) && AllBelow(s, max + 1) && SortedByKey(s, place)
    ensures Sorted(s)
  {
    forall k | 0 <= k < |s|
      ensures s[k] % place == s[k]
    {
      DivModUnique(s[k], place, 0, s[k]);
    }
  }
}
