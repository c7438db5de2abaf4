/**
 * The notions both Knuth-Morris-Pratt searches of the repository are proved
 * against: borders of pattern prefixes (what the LPS table records), partial
 * matches of the pattern ending at a text position, and the reference list of
 * occurrences. Positions and lengths follow the source: a prefix of length `m`
 * is `pat[0..m)`, and `lps[i]` belongs to the prefix of length `i + 1`.
 */
module Kmp {

  /** The result of `kmpSearch`: the list of match positions, or the string
      'Pattern not found.' when there is none. */
  datatype SearchResult = Found(positions: seq<nat>) | PatternNotFound

  /** `k` is the length of a proper prefix of `pat[0..m)` that is also its
      suffix: the pattern matches itself `k` characters back from `m`. */
  ghost predicate Border(pat: seq<char>, m: int, k: int) {
    k < m && Matched(pat, pat, m, k)
  }

  /** `v` is the longest such border, the value the LPS table stores for `pat[0..m)`. */
  ghost predicate Longest(pat: seq<char>, m: int, v: int) {
    && Border(pat, m, v)
    && forall k :: v < k < m ==> !Border(pat, m, k)
  }

  /** The first `n` entries of `lps` are correct. */
  ghost predicate LpsTable(pat: seq<char>, lps: seq<nat>, n: int)
    decreases if n < 0 then 0 else n
  {
    && 0 <= n <= |lps|
    && (n > 0 ==> LpsTable(pat, lps, n - 1) && Longest(pat, n, lps[n - 1]))
  }

  /** Reading one entry of a correct table. */
  lemma {:induction false} LpsEntry(pat: seq<char>, lps: seq<nat>, n: int, q: int)
    requires LpsTable(pat, lps, n) && 0 <= q < n
    ensures Longest(pat, q + 1, lps[q])
    decreases n
  {
    if q < n - 1 {
      LpsEntry(pat, lps, n - 1, q);
    }
  }

  /** A correct table starts with 0 and never exceeds the index. */
  lemma LpsBounds(pat: seq<char>, lps: seq<nat>, n: int)
    requires LpsTable(pat, lps, n)
    ensures n > 0 ==> lps[0] == 0
    ensures forall i :: 0 <= i < n ==> lps[i] <= i
  {
    forall i | 0 <= i < n
      ensures lps[i] <= i
    {
      LpsEntry(pat, lps, n, i);
    }
  }

  /** Appending a correct entry keeps the table correct. */
  lemma {:induction false} LpsAppend(pat: seq<char>, lps: seq<nat>, n: int, v: nat)
    requires LpsTable(pat, lps, n) && n == |lps| && Longest(pat, n + 1, v)
    ensures LpsTable(pat, lps + [v], n + 1)
  {
    LpsPrefix(pat, lps, lps + [v], n);
  }

  lemma {:induction false} LpsPrefix(pat: seq<char>, lps: seq<nat>, longer: seq<nat>, n: int)
    requires LpsTable(pat, lps, n) && |lps| <= |longer| && lps == longer[..|lps|]
    ensures LpsTable(pat, longer, n)
    decreases if n < 0 then 0 else n
  {
    if n > 0 {
      LpsPrefix(pat, lps, longer, n - 1);
    }
  }

  /** The state of the LPS loops when they compare `pat[i]` with `pat[len]`:
      `len` is a border of `pat[0..i)`, and no longer border can be extended
      by `pat[i]`. */
  ghost predicate Candidates(pat: seq<char>, i: int, len: int) {
    && i < |pat|
    && Border(pat, i, len)
    && forall k :: len < k < i && Border(pat, i, k) ==> pat[k] != pat[i]
  }

  /** The last `k` characters of `txt[0..e)` spell the first `k` of `pat`,
      compared one character at a time from the end. */
  ghost predicate Matched(txt: seq<char>, pat: seq<char>, e: int, k: int)
    decreases if k < 0 then 0 else k
  {
    && 0 <= k <= e <= |txt|
    && k <= |pat|
    && (k > 0 ==> txt[e - 1] == pat[k - 1] && Matched(txt, pat, e - 1, k - 1))
  }

  /** `Matched` compares `txt[e - k..e)` with `pat[0..k)` position by position. */
  lemma {:induction false} MatchedAt(txt: seq<char>, pat: seq<char>, e: int, k: int)
    ensures Matched(txt, pat, e, k) <==>
      && 0 <= k <= e <= |txt| && k <= |pat|
      && forall t :: 0 <= t < k ==> txt[e - k + t] == pat[t]
    decreases if k < 0 then 0 else k
  {
    if 0 < k <= e <= |txt| && k <= |pat| {
      MatchedAt(txt, pat, e - 1, k - 1);
    }
  }

  /** The state of both searches when they compare `txt[i]` with `pat[j]`:
      `j` characters are matched, and no longer partial match can be
      extended by `txt[i]`. */
  ghost predicate Partial(txt: seq<char>, pat: seq<char>, i: int, j: int) {
    && 0 <= j < |pat|
    && j <= i <= |txt|
    && Matched(txt, pat, i, j)
    && forall k :: j < k < |pat| && k <= i && Matched(txt, pat, i, k) ==> i < |txt| && txt[i] != pat[k]
  }

  /** The reference result: every start of an occurrence of `pat` that ends
      within `txt[0..n)`, in increasing order. */
  ghost function Occurrences(txt: seq<char>, pat: seq<char>, n: nat): seq<nat>
    requires |pat| > 0 && n <= |txt|
  {
    if n < |pat| then []
    else Occurrences(txt, pat, n - 1) + (if Matched(txt, pat, n, |pat|) then [n - |pat|] else [])
  }

  /** `Occurrences` lists exactly the occurrences, each once and in increasing order. */
  lemma {:induction false} OccurrencesExact(txt: seq<char>, pat: seq<char>, n: nat)
    requires |pat| > 0 && n <= |txt|
    ensures forall s :: s in Occurrences(txt, pat, n) <==> s + |pat| <= n && Matched(txt, pat, s + |pat|, |pat|)
    ensures forall a, b :: 0 <= a < b < |Occurrences(txt, pat, n)| ==>
      Occurrences(txt, pat, n)[a] < Occurrences(txt, pat, n)[b]
  {
    if n >= |pat| {
      OccurrencesExact(txt, pat, n - 1);
      var prev := Occurrences(txt, pat, n - 1);
      forall a | 0 <= a < |prev|
        ensures prev[a] < n - |pat|
      {
        assert prev[a] in prev;
      }
    }
  }

  // Border and match arithmetic.

  lemma BorderStep(pat: seq<char>, m: int, k: int)
    requires 0 <= m < |pat| && 1 <= k
    ensures Border(pat, m + 1, k) <==> Border(pat, m, k - 1) && pat[m] == pat[k - 1]
  {
  }

  lemma MatchStep(txt: seq<char>, pat: seq<char>, e: int, k: int)
    requires 0 <= e < |txt| && 1 <= k <= |pat|
    ensures Matched(txt, pat, e + 1, k) <==> Matched(txt, pat, e, k - 1) && txt[e] == pat[k - 1]
  {
  }

  /** Two partial matches ending at the same place: the shorter is a border
      of the longer. */
  lemma MatchBorder(txt: seq<char>, pat: seq<char>, e: int, k: int, q: int)
    requires Matched(txt, pat, e, k)
    ensures Matched(txt, pat, e, q) && q < k ==> Border(pat, k, q)
  {
    if Matched(txt, pat, e, q) && q < k {
      MatchedAt(txt, pat, e, k);
      MatchedAt(txt, pat, e, q);
      MatchedAt(pat, pat, k, q);
      forall t | 0 <= t < q
        ensures pat[k - q + t] == pat[t]
      {
        assert txt[e - k + (k - q + t)] == pat[k - q + t];
      }
    }
  }

  /** A border of a partial match is a partial match. */
  lemma BorderMatch(txt: seq<char>, pat: seq<char>, e: int, k: int, q: int)
    requires Matched(txt, pat, e, k) && Border(pat, k, q)
    ensures Matched(txt, pat, e, q)
  {
    MatchedAt(txt, pat, e, k);
    MatchedAt(txt, pat, e, q);
    MatchedAt(pat, pat, k, q);
    forall t | 0 <= t < q
      ensures txt[e - q + t] == pat[t]
    {
      assert txt[e - k + (k - q + t)] == pat[k - q + t];
    }
  }

  // Steps of the LPS loops.

  /** `pat[i] == pat[len]`: the table entry for `pat[0..i]` is `len + 1`. */
  lemma LpsExtend(pat: seq<char>, i: int, len: int)
    requires Candidates(pat, i, len) && pat[i] == pat[len]
    ensures Longest(pat, i + 1, len + 1)
  {
    var m := i + 1;
    BorderStep(pat, i, len + 1);
    forall k | len + 1 < k < m
      ensures !Border(pat, m, k)
    {
      BorderStep(pat, i, k);
    }
  }

  /** `pat[i] != pat[0]` with only the empty border left: the entry is 0. */
  lemma LpsZero(pat: seq<char>, i: int)
    requires Candidates(pat, i, 0) && pat[i] != pat[0]
    ensures Longest(pat, i + 1, 0)
  {
    var m := i + 1;
    forall k | 0 < k < m
      ensures !Border(pat, m, k)
    {
      BorderStep(pat, i, k);
    }
  }

  /** `pat[i] != pat[len]`: falling back to `lps[len - 1]` skips no candidate. */
  lemma LpsFallback(pat: seq<char>, lps: seq<nat>, i: int, len: int)
    requires Candidates(pat, i, len) && 0 < len && pat[i] != pat[len]
    requires LpsTable(pat, lps, i)
    ensures lps[len - 1] < len && Candidates(pat, i, lps[len - 1])
  {
    LpsEntry(pat, lps, i, len - 1);
    var q := lps[len - 1];
    BorderMatch(pat, pat, i, len, q);
    forall k | q < k < i && Border(pat, i, k)
      ensures pat[k] != pat[i]
    {
      MatchBorder(pat, pat, i, len, k);
    }
  }

  // Steps of the searches.

  lemma SearchStart(txt: seq<char>, pat: seq<char>)
    requires |pat| > 0
    ensures Partial(txt, pat, 0, 0) && Occurrences(txt, pat, 0) == []
  {
  }

  /** `txt[i] == pat[j]`: one more character matched; a whole match is an
      occurrence, and no occurrence is skipped. */
  lemma AdvanceKeeps(txt: seq<char>, pat: seq<char>, i: int, j: int)
    requires Partial(txt, pat, i, j) && i < |txt| && txt[i] == pat[j]
    ensures Matched(txt, pat, i + 1, j + 1)
    ensures j + 1 < |pat| ==> Partial(txt, pat, i + 1, j + 1) && Occurrences(txt, pat, i + 1) == Occurrences(txt, pat, i)
    ensures j + 1 == |pat| ==> Occurrences(txt, pat, i + 1) == Occurrences(txt, pat, i) + [i + 1 - |pat|]
  {
    var e := i + 1;
    MatchStep(txt, pat, i, j + 1);
    forall k | j + 1 < k <= |pat| && k <= e
      ensures !Matched(txt, pat, e, k)
    {
      MatchStep(txt, pat, i, k);
    }
  }

  /** A whole match: carrying on from `lps[|pat| - 1]` skips no occurrence. */
  lemma FoundKeeps(txt: seq<char>, pat: seq<char>, lps: seq<nat>, e: int)
    requires |pat| > 0 && Matched(txt, pat, e, |pat|) && LpsTable(pat, lps, |pat|)
    ensures Partial(txt, pat, e, lps[|pat| - 1])
  {
    LpsEntry(pat, lps, |pat|, |pat| - 1);
    var q := lps[|pat| - 1];
    BorderMatch(txt, pat, e, |pat|, q);
    forall k | q < k < |pat| && k <= e
      ensures !Matched(txt, pat, e, k)
    {
      MatchBorder(txt, pat, e, |pat|, k);
    }
  }

  /** `txt[i] != pat[j]` with `j > 0`: falling back to `lps[j - 1]` skips no occurrence. */
  lemma FallbackKeeps(txt: seq<char>, pat: seq<char>, lps: seq<nat>, i: int, j: int)
    requires Partial(txt, pat, i, j) && 0 < j && i < |txt| && txt[i] != pat[j]
    requires LpsTable(pat, lps, |pat|)
    ensures lps[j - 1] < j && Partial(txt, pat, i, lps[j - 1])
  {
    LpsEntry(pat, lps, |pat|, j - 1);
    var q := lps[j - 1];
    BorderMatch(txt, pat, i, j, q);
    forall k | q < k < |pat| && k <= i && Matched(txt, pat, i, k)
      ensures i < |txt| && txt[i] != pat[k]
    {
      MatchBorder(txt, pat, i, j, k);
    }
  }

  /** `txt[i] != pat[0]` with nothing matched: move on, no occurrence ends here. */
  lemma SkipKeeps(txt: seq<char>, pat: seq<char>, i: int)
    requires Partial(txt, pat, i, 0) && i < |txt| && txt[i] != pat[0]
    ensures Partial(txt, pat, i + 1, 0) && Occurrences(txt, pat, i + 1) == Occurrences(txt, pat, i)
  {
    var e := i + 1;
    forall k | 0 < k <= |pat| && k <= e
      ensures !Matched(txt, pat, e, k)
    {
      MatchStep(txt, pat, i, k);
    }
  }

  /** The occurrences of 'AAAA' in 'AAAAABAAABA', the repository's example. */
  lemma DriverOccurrences()
    ensures Occurrences("AAAAABAAABA", "AAAA", 11) == [0, 1]
  {
    var txt, pat := "AAAAABAAABA", "AAAA";
    MatchedAt(txt, pat, 4, 4);
    MatchedAt(txt, pat, 5, 4);
    forall e | 6 <= e <= 11
      ensures !Matched(txt, pat, e, 4)
    {
      MatchedAt(txt, pat, e, 4);
      if e <= 9 {
        assert txt[e - 4 + (9 - e)] != pat[9 - e];
      } else {
        assert txt[e - 4 + (13 - e)] != pat[13 - e];
      }
    }
  }
}
