/** Sequences without repetition. */
module Sequences {
  predicate Distinct<T(==)>(s: seq<T>) {
    forall i, j :: 0 <= i < j < |s| ==> s[i] != s[j]
  }

  lemma {:induction false} DistinctInto<T>(s: seq<T>, t: seq<T>)
    requires Distinct(s) && forall x :: x in s ==> x in t
    ensures |s| <= |t|
  {
    if s != [] {
      assert s[0] in t;
      var i :| 0 <= i < |t| && t[i] == s[0];
      var t' := t[..i] + t[i + 1..];
      forall x | x in s[1..] ensures x in t' {
        var j :| 0 <= j < |s[1..]| && s[1..][j] == x;
        assert x == s[j + 1] && x != s[0] && x in t;
        assert t == t[..i] + [t[i]] + t[i + 1..];
      }
      DistinctInto(s[1..], t');
    }
  }

  /** Two sequences of the same elements have the same length. */
  lemma SameLength<T>(s: seq<T>, t: seq<T>)
    requires Distinct(s) && Distinct(t)
    requires (forall i :: 0 <= i < |s| ==> s[i] in t) && forall i :: 0 <= i < |t| ==> t[i] in s
    ensures |s| == |t|
  {
    DistinctInto(s, t);
    DistinctInto(t, s);
  }

  /** A sequence as long as one it is contained in leaves none of its elements out. */
  lemma Exhausts<T>(s: seq<T>, t: seq<T>)
    requires Distinct(s) && |s| >= |t| && forall i :: 0 <= i < |s| ==> s[i] in t
    ensures forall i :: 0 <= i < |t| ==> t[i] in s
  {
    forall i | 0 <= i < |t| ensures t[i] in s {
      if t[i] !in s {
        DistinctInto(s + [t[i]], t);
      }
    }
  }
}
