/** Sequence helpers shared by the containers and algorithms. */
module Sequences {

  /** `s` in the opposite order, as `Array.prototype.reverse` leaves an array. */
  function Reverse<T>(s: seq<T>): (r: seq<T>)
    ensures |r| == |s|
    ensures forall i :: 0 <= i < |s| ==> r[i] == s[|s| - 1 - i]
  {
    if s == [] then [] else Reverse(s[1..]) + [s[0]]
  }

  /** No element occurs twice. */
  ghost predicate Distinct<T>(s: seq<T>) {
    forall i, j :: 0 <= i < j < |s| ==> s[i] != s[j]
  }

  /** Putting a new element anywhere keeps a sequence free of repeats. */
  lemma DistinctInsert<T>(s: seq<T>, k: nat, x: T)
    requires Distinct(s) && k <= |s| && x !in s
    ensures Distinct(s[..k] + [x] + s[k..])
  {
    var t := s[..k] + [x] + s[k..];
    forall i, j | 0 <= i < j < |t|
      ensures t[i] != t[j]
    {
      if j == k {
        assert t[i] == s[i];
      } else if i == k {
        assert t[j] == s[j - 1];
      } else {
        assert t[i] == s[if i < k then i else i - 1];
        assert t[j] == s[if j < k then j else j - 1];
      }
    }
  }

  /** Dropping one element keeps a sequence free of repeats. */
  lemma DistinctRemove<T>(s: seq<T>, k: nat)
    requires Distinct(s) && k < |s|
    ensures Distinct(s[..k] + s[k + 1..])
    ensures s[k] !in s[..k] + s[k + 1..]
  {
    var t := s[..k] + s[k + 1..];
    forall i | 0 <= i < |t|
      ensures t[i] == s[if i < k then i else i + 1]
    {
    }
  }

  /** Reversing keeps a sequence free of repeats. */
  lemma DistinctReverse<T>(s: seq<T>)
    requires Distinct(s)
    ensures Distinct(Reverse(s))
  {
    var t := Reverse(s);
    forall i, j | 0 <= i < j < |t|
      ensures t[i] != t[j]
    {
      assert t[i] == s[|s| - 1 - i] && t[j] == s[|s| - 1 - j];
    }
  }

  /** Reversing `s` followed by `x` puts `x` in front of the reversal of `s`. */
  lemma ReverseSnoc<T>(s: seq<T>, x: T)
    ensures Reverse(s + [x]) == [x] + Reverse(s)
  {
    var r, t := Reverse(s + [x]), [x] + Reverse(s);
    forall i | 0 <= i < |r|
      ensures r[i] == t[i]
    {
      if i > 0 {
        assert t[i] == Reverse(s)[i - 1] == s[|s| - i];
      }
    }
  }

  /** Reversing keeps the elements. */
  lemma ReverseMembers<T>(s: seq<T>, x: T)
    ensures x in Reverse(s) <==> x in s
  {
    var r := Reverse(s);
    if x in s {
      var i :| 0 <= i < |s| && s[i] == x;
      assert r[|s| - 1 - i] == x;
    }
  }
}
