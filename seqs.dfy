/** Optional values: the search yields no tour when its guard clause rejects the input. */
module Wrappers {
  datatype Option<T> = None | Some(value: T)
}

/** Facts about sequences used as tours: the last element, distinctness and inclusion. */
module Seqs {

  /** The last element. */
  function Last<T>(s: seq<T>): T
    requires |s| > 0
  {
    s[|s| - 1]
  }

  /** No element occurs twice. */
  predicate Distinct<T(==)>(s: seq<T>)
  {
    forall i, j :: 0 <= i < j < |s| ==> s[i] != s[j]
  }

  /** Every element of `s` also occurs in `t`. */
  predicate IncludedIn<T(==)>(s: seq<T>, t: seq<T>)
  {
    forall x :: x in s ==> x in t
  }

  /** `s` with one occurrence of `x` taken out. */
  function RemoveOne<T(==)>(s: seq<T>, x: T): (r: seq<T>)
    requires x in s
    ensures |r| == |s| - 1
    ensures forall y :: y in s && y != x ==> y in r
  {
    if s[0] == x then s[1..] else [s[0]] + RemoveOne(s[1..], x)
  }

  /** A duplicate-free sequence is no longer than any sequence holding all its elements. */
  lemma {:induction false} IncludedLength<T>(s: seq<T>, t: seq<T>)
    requires Distinct(s) && IncludedIn(s, t)
    ensures |s| <= |t|
  {
    if s != [] {
      var x := Last(s);
      var s' := s[..|s| - 1];
      assert x in t;
      var t' := RemoveOne(t, x);
      forall y | y in s' ensures y in t' {
        var k :| 0 <= k < |s'| && s'[k] == y;
        assert s[k] == y;
      }
      IncludedLength(s', t');
    }
  }

  /** A shorter sequence misses some element of a duplicate-free one. */
  lemma MissingElement<T>(s: seq<T>, t: seq<T>) returns (p: T)
    requires Distinct(t) && |s| < |t|
    ensures p in t && p !in s
  {
    if forall y :: y in t ==> y in s {
      IncludedLength(t, s);
      assert false;
    }
    p :| p in t && p !in s;
  }

  /** A duplicate-free sequence included in another of the same length holds all of its elements. */
  lemma SameLengthCovers<T>(s: seq<T>, t: seq<T>)
    requires Distinct(s) && IncludedIn(s, t) && |s| == |t|
    ensures IncludedIn(t, s)
  {
    forall p | p in t ensures p in s {
      if p !in s {
        var t' := RemoveOne(t, p);
        IncludedLength(s, t');
        assert false;
      }
    }
  }
}
