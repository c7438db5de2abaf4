/**
 * The Knuth-Morris-Pratt search of algorithms/searching_algorithms/KMPsearch.js:
 * the LPS table is a `for` loop and the search a `while` loop, each with an
 * inner `while` that falls back through the table before comparing.
 */
module KmpInnerWhile {
  import opened Kmp

  /** `computeLPSArray`: entry `i` is the length of the longest proper border
      of `pat[0..i]`. */
  method ComputeLpsArray(pat: seq<char>) returns (lps: seq<nat>)
    requires |pat| > 0
    ensures |lps| == |pat| && LpsTable(pat, lps, |pat|)
    ensures lps[0] == 0 && forall i :: 0 <= i < |lps| ==> lps[i] <= i
  {
    var len := 0;
    lps := [0];
    for i := 1 to |pat|
      invariant |lps| == i && LpsTable(pat, lps, i)
      invariant len == lps[i - 1]
    {
      while len > 0 && pat[i] != pat[len]
        invariant Candidates(pat, i, len)
        decreases len
      {
        LpsFallback(pat, lps, i, len);
        len := lps[len - 1];
      }
      if pat[i] == pat[len] {
        LpsExtend(pat, i, len);
        LpsAppend(pat, lps, i, len + 1);
        len := len + 1;
        lps := lps + [len];
      } else {
        LpsZero(pat, i);
        LpsAppend(pat, lps, i, 0);
        lps := lps + [0];
      }
    }
    LpsBounds(pat, lps, |pat|);
  }

  /** `kmpSearch`: every position where `pat` occurs in `txt`, in increasing
      order, or `PatternNotFound` when there is none (in particular when the
      text is shorter than the pattern). */
  method KmpSearch(txt: seq<char>, pat: seq<char>) returns (r: SearchResult)
    requires |pat| > 0
    ensures Occurrences(txt, pat, |txt|) == [] ==> r == PatternNotFound
    ensures Occurrences(txt, pat, |txt|) != [] ==> r == Found(Occurrences(txt, pat, |txt|))
  {
    if |txt| < |pat| {
      assert Occurrences(txt, pat, |txt|) == [];
      return PatternNotFound;
    }
    var lps := ComputeLpsArray(pat);
    var results: seq<nat> := [];
    var i := 0;
    var j := 0;
    SearchStart(txt, pat);
    while i < |txt|
      invariant Partial(txt, pat, i, j)
      invariant results == Occurrences(txt, pat, i)
      decreases |txt| - i
    {
      while j > 0 && txt[i] != pat[j]
        invariant i < |txt| && Partial(txt, pat, i, j)
        decreases j
      {
        FallbackKeeps(txt, pat, lps, i, j);
        j := lps[j - 1];
      }
      if txt[i] == pat[j] {
        AdvanceKeeps(txt, pat, i, j);
        j := j + 1;
      } else {
        SkipKeeps(txt, pat, i);
      }
      if j == |pat| {
        FoundKeeps(txt, pat, lps, i + 1);
        results := results + [i + 1 - |pat|];
        if j > 0 {
          j := lps[j - 1];
        }
      }
      i := i + 1;
    }
    assert i == |txt|;
    r := if |results| > 0 then Found(results) else PatternNotFound;
  }

  /** The repository's example: 'AAAA' occurs in 'AAAAABAAABA' at 0 and 1. */
  method DriverExample() returns (r: SearchResult)
    ensures r == Found([0, 1])
  {
    DriverOccurrences();
    r := KmpSearch("AAAAABAAABA", "AAAA");
  }
}
