/**
 * The Knuth-Morris-Pratt search of algorithms/searching-algorithms/KMPsearch.js:
 * both the LPS table and the search are single `while` loops whose body
 * either advances the index or falls back through the table, chosen by an
 * if/else.
 */
module KmpIfElse {
  import opened Kmp

  /** `computeLPSArray`: entry `i` is the length of the longest proper border
      of `pat[0..i]`. The table grows by one entry per step of `i`. */
  method ComputeLpsArray(pat: seq<char>) returns (lps: seq<nat>)
    requires |pat| > 0
    ensures |lps| == |pat| && LpsTable(pat, lps, |pat|)
    ensures lps[0] == 0 && forall i :: 0 <= i < |lps| ==> lps[i] <= i
  {
    var len := 0;
    lps := [0];
    var i := 1;
    while i < |pat|
      invariant 1 <= i <= |pat| && |lps| == i
      invariant 0 <= len < i
      invariant LpsTable(pat, lps, i)
      invariant i < |pat| ==> Candidates(pat, i, len)
      decreases |pat| - i, len
    {
      if pat[i] == pat[len] {
        LpsExtend(pat, i, len);
        LpsAppend(pat, lps, i, len + 1);
        len := len + 1;
        lps := lps + [len];
        i := i + 1;
      } else {
        if len > 0 {
          LpsFallback(pat, lps, i, len);
          len := lps[len - 1];
        } else {
          LpsZero(pat, i);
          LpsAppend(pat, lps, i, 0);
          lps := lps + [0];
          i := i + 1;
        }
      }
    }
    LpsBounds(pat, lps, |pat|);
  }

  /** `kmpSearch`: every position where `pat` occurs in `txt`, in increasing
      order, or `PatternNotFound` when there is none (in particular when the
      text is shorter than the pattern). */
  method KmpSearch(txt: seq<char>, pat: seq<char>) returns (r: SearchResult)
    requires |pat| > 0
    ensures Occurrences(txt, pat, |txt|) == [] ==> r == PatternNotFound
    ensures Occurrences(txt, pat, |txt|) != [] ==> r == Found(Occurrences(txt, pat, |txt|))
  {
    if |txt| < |pat| {
      assert Occurrences(txt, pat, |txt|) == [];
      return PatternNotFound;
    }
    var lps := ComputeLpsArray(pat);
    var results: seq<nat> := [];
    var i := 0;
    var j := 0;
    SearchStart(txt, pat);
    while i < |txt|
      invariant Partial(txt, pat, i, j)
      invariant results == Occurrences(txt, pat, i)
      decreases |txt| - i, j
    {
      if txt[i] == pat[j] {
        AdvanceKeeps(txt, pat, i, j);
        j := j + 1;
        i := i + 1;
      }
      assert || (j < |pat| && Partial(txt, pat, i, j) && results == Occurrences(txt, pat, i))
             || (j == |pat| && Matched(txt, pat, i, j) && results + [i - j] == Occurrences(txt, pat, i));
      if j == |pat| {
        FoundKeeps(txt, pat, lps, i);
        results := results + [i - j];
        j := lps[j - 1];
      } else if i < |txt| && txt[i] != pat[j] {
        if j > 0 {
          FallbackKeeps(txt, pat, lps, i, j);
          j := lps[j - 1];
        } else {
          SkipKeeps(txt, pat, i);
          i := i + 1;
        }
      }
    }
    assert i == |txt|;
    r := if |results| > 0 then Found(results) else PatternNotFound;
  }

  /** The repository's example: 'AAAA' occurs in 'AAAAABAAABA' at 0 and 1. */
  method DriverExample() returns (r: SearchResult)
    ensures r == Found([0, 1])
  {
    DriverOccurrences();
    r := KmpSearch("AAAAABAAABA", "AAAA");
  }
}
