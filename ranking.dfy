/**
 * The stable sort behind `OrderBy`: the candidates of a search level, and the closed
 * beams at the end, are ranked by a key with ties left in enumeration order.  A ranking
 * is a sequence of indices into the key sequence.
 */
module Ranking {

  /** Index `a` comes before index `b`: a smaller key, or an equal key and an earlier index. */
  predicate Precedes(keys: seq<real>, a: nat, b: nat)
  {
    a < |keys| && b < |keys| && (keys[a] < keys[b] || (keys[a] == keys[b] && a < b))
  }

  /** `r` lists indices of `keys` in stable ascending order, each index at most once. */
  predicate Ordered(keys: seq<real>, r: seq<nat>)
  {
    (forall i :: 0 <= i < |r| ==> r[i] < |keys|) &&
    (forall i, j :: 0 <= i < j < |r| ==> Precedes(keys, r[i], r[j]))
  }

  /** Inserts index `k`, larger than every index in `s`, after every index whose key is not larger. */
  function Insert(keys: seq<real>, k: nat, s: seq<nat>): (r: seq<nat>)
    requires k < |keys| && Ordered(keys, s)
    requires forall x :: x in s ==> x < k
    ensures |r| == |s| + 1
    ensures forall x :: x in r <==> x in s || x == k
    ensures Ordered(keys, r)
  {
    if |s| == 0 then [k]
    else if keys[k] < keys[s[0]] then
      assert forall j :: 0 <= j < |s| ==> keys[s[0]] <= keys[s[j]] by {
        forall j | 0 < j < |s| ensures keys[s[0]] <= keys[s[j]] {
          assert Precedes(keys, s[0], s[j]);
        }
      }
      [k] + s
    else
      assert forall x :: x in s[1..] ==> x in s;
      assert s[0] in s;
      var rest := Insert(keys, k, s[1..]);
      assert forall x :: x in rest ==> Precedes(keys, s[0], x) by {
        forall x | x in rest ensures Precedes(keys, s[0], x) {
          if x != k {
            var j :| 0 <= j < |s[1..]| && s[1..][j] == x;
            assert s[j + 1] == x;
          }
        }
      }
      [s[0]] + rest
  }

  /** The stable ranking of the first `n` indices. */
  function RankPrefix(keys: seq<real>, n: nat): (r: seq<nat>)
    requires n <= |keys|
    ensures |r| == n
    ensures forall x: int :: x in r <==> 0 <= x < n
    ensures Ordered(keys, r)
  {
    if n == 0 then [] else Insert(keys, n - 1, RankPrefix(keys, n - 1))
  }

  /** `OrderBy(key)`: every index exactly once, ascending by key, ties in enumeration order. */
  function Rank(keys: seq<real>): (r: seq<nat>)
    ensures |r| == |keys|
    ensures forall x: int :: x in r <==> 0 <= x < |keys|
    ensures Ordered(keys, r)
  {
    RankPrefix(keys, |keys|)
  }

  /** Two stable orderings of the same indices coincide: stable sorting has one answer. */
  lemma {:induction false} OrderedUnique(keys: seq<real>, r1: seq<nat>, r2: seq<nat>)
    requires Ordered(keys, r1) && Ordered(keys, r2)
    requires forall x :: x in r1 <==> x in r2
    ensures r1 == r2
  {
    assert r1 == [] ==> r2 == [] by {
      if r2 != [] {
        assert r2[0] in r2;
      }
    }
    if r1 != [] {
      assert r1[0] in r2;
      assert r2 != [];
      assert r2[0] in r1;
      assert r1[0] == r2[0];
      forall x ensures x in r1[1..] <==> x in r2[1..] {
        if x in r1[1..] {
          var i :| 0 < i < |r1| && r1[i] == x;
          assert Precedes(keys, r1[0], r1[i]);
          assert x in r2;
          var j :| 0 <= j < |r2| && r2[j] == x;
          assert j != 0;
          assert r2[1..][j - 1] == x;
        }
        if x in r2[1..] {
          var j :| 0 < j < |r2| && r2[j] == x;
          assert Precedes(keys, r2[0], r2[j]);
          assert x in r1;
          var i :| 0 <= i < |r1| && r1[i] == x;
          assert i != 0;
          assert r1[1..][i - 1] == x;
        }
      }
      OrderedUnique(keys, r1[1..], r2[1..]);
    }
  }

  /** Any stable sort of the indices is `Rank`: `Rank` is a faithful model of a stable `OrderBy`. */
  lemma RankIsTheStableSort(keys: seq<real>, r: seq<nat>)
    requires Ordered(keys, r)
    requires forall x: int :: x in r <==> 0 <= x < |keys|
    ensures r == Rank(keys)
  {
    OrderedUnique(keys, r, Rank(keys));
  }

  /** `OrderBy(key).First()` picks the first index, in enumeration order, whose key is minimal. */
  lemma FirstIsFirstMinimum(keys: seq<real>)
    requires |keys| > 0
    ensures Rank(keys)[0] < |keys|
    ensures forall j :: 0 <= j < |keys| ==> keys[Rank(keys)[0]] <= keys[j]
    ensures forall j :: 0 <= j < Rank(keys)[0] ==> keys[Rank(keys)[0]] < keys[j]
  {
    var r := Rank(keys);
    forall j | 0 <= j < |keys| && j != r[0]
      ensures keys[r[0]] < keys[j] || (keys[r[0]] == keys[j] && r[0] < j)
    {
      assert j in r;
      var t :| 0 <= t < |r| && r[t] == j;
      assert Precedes(keys, r[0], r[t]);
    }
  }

  /** `Take(count)` keeps `count` elements, all of them when fewer exist, none when `count <= 0`. */
  function TakeCount(count: int, n: nat): (m: nat)
    ensures m <= n
    ensures count > 0 && n > 0 ==> m > 0
    ensures m <= count || count <= 0
  {
    if count <= 0 then 0 else if count < n then count else n
  }
}
