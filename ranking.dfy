/**
 * The stable descending ranking of indices by a key vector: what Python's
 * `sorted(range(n), key=lambda i: key[i], reverse=True)` returns. Python's
 * sort is stable and `reverse=True` keeps equal keys in their original
 * (ascending index) order, so the result is determined: index `i` comes
 * before index `j` exactly when `Before(key, i, j)`.
 */
module Ranking {

  /** Index `i` is ranked ahead of index `j`: a strictly larger key, or an equal key and a smaller index. */
  predicate Before(key: seq<real>, i: nat, j: nat) {
    i < |key| && j < |key| && (key[i] > key[j] || (key[i] == key[j] && i < j))
  }

  /** `s` lists indices of `key`, every earlier position ranked ahead of every later one. */
  predicate SortedDesc(key: seq<real>, s: seq<nat>) {
    && (forall p :: 0 <= p < |s| ==> s[p] < |key|)
    && (forall p, q :: 0 <= p < q < |s| ==> Before(key, s[p], s[q]))
  }

  /** `s` lists each of the indices 0 .. n-1 exactly once. */
  ghost predicate IsIndexPermutation(s: seq<nat>, n: nat) {
    && |s| == n
    && (forall p :: 0 <= p < |s| ==> s[p] < n)
    && (forall x: nat :: x in s <==> x < n)
    && (forall p, q :: 0 <= p < q < |s| ==> s[p] != s[q])
  }

  /** The identity order 0, 1, ..., n-1. */
  function Range(n: nat): seq<nat> {
    seq(n, j requires 0 <= j < n => j as nat)
  }

  /** `i` placed in front of the first element of `s` it is ranked ahead of. */
  function Insert(key: seq<real>, i: nat, s: seq<nat>): seq<nat> {
    if s == [] then [i]
    else if Before(key, i, s[0]) then [i] + s
    else [s[0]] + Insert(key, i, s[1..])
  }

  /** The indices 0 .. m-1 in ranked order. */
  function RankPrefix(key: seq<real>, m: nat): seq<nat>
    requires m <= |key|
  {
    if m == 0 then [] else Insert(key, m - 1, RankPrefix(key, m - 1))
  }

  /** All indices of `key`, highest key first, ties in ascending index order. */
  function StableRankDesc(key: seq<real>): (r: seq<nat>)
    ensures |r| == |key|
  {
    RankPrefixSorted(key, |key|);
    RankPrefix(key, |key|)
  }

  /** Insertion adds exactly the one index. */
  lemma {:induction false} InsertMembers(key: seq<real>, i: nat, s: seq<nat>)
    ensures |Insert(key, i, s)| == |s| + 1
    ensures forall x :: x in Insert(key, i, s) <==> x == i || x in s
  {
    if s != [] && !Before(key, i, s[0]) {
      InsertMembers(key, i, s[1..]);
      assert s == [s[0]] + s[1..];
    }
  }

  /** A sorted list minus its head is sorted. */
  lemma SortedTail(key: seq<real>, s: seq<nat>)
    requires SortedDesc(key, s) && s != []
    ensures SortedDesc(key, s[1..])
  {
    var tail := s[1..];
    forall p, q | 0 <= p < q < |tail| ensures Before(key, tail[p], tail[q]) {
      assert tail[p] == s[p + 1] && tail[q] == s[q + 1];
    }
  }

  /** An index ranked ahead of every element of a sorted list can be put in front of it. */
  lemma SortedCons(key: seq<real>, a: nat, t: seq<nat>)
    requires a < |key| && SortedDesc(key, t)
    requires forall q :: 0 <= q < |t| ==> Before(key, a, t[q])
    ensures SortedDesc(key, [a] + t)
  {
    var r := [a] + t;
    forall p, q | 0 <= p < q < |r| ensures Before(key, r[p], r[q]) {
      if p == 0 {
        assert r[q] == t[q - 1];
      } else {
        assert r[p] == t[p - 1] && r[q] == t[q - 1];
      }
    }
  }

  lemma {:induction false} InsertSorted(key: seq<real>, i: nat, s: seq<nat>)
    requires i < |key| && i !in s
    requires SortedDesc(key, s)
    ensures SortedDesc(key, Insert(key, i, s))
    ensures |Insert(key, i, s)| == |s| + 1
    ensures forall x :: x in Insert(key, i, s) <==> x == i || x in s
  {
    InsertMembers(key, i, s);
    if s == [] {
    } else if Before(key, i, s[0]) {
      forall q | 0 < q < |s| ensures Before(key, i, s[q]) {
        assert Before(key, s[0], s[q]);
      }
      SortedCons(key, i, s);
    } else {
      var tail := s[1..];
      SortedTail(key, s);
      InsertSorted(key, i, tail);
      var t := Insert(key, i, tail);
      forall q | 0 <= q < |t| ensures Before(key, s[0], t[q]) {
        assert t[q] in t;
        if t[q] != i {
          var p :| 0 <= p < |tail| && tail[p] == t[q];
          assert Before(key, s[0], s[p + 1]);
        }
      }
      SortedCons(key, s[0], t);
    }
  }

  lemma {:induction false} RankPrefixSorted(key: seq<real>, m: nat)
    requires m <= |key|
    ensures SortedDesc(key, RankPrefix(key, m))
    ensures |RankPrefix(key, m)| == m
    ensures forall x: nat :: x in RankPrefix(key, m) <==> x < m
  {
    if m > 0 {
      RankPrefixSorted(key, m - 1);
      InsertSorted(key, m - 1, RankPrefix(key, m - 1));
    }
  }

  /** A strictly sorted sequence repeats nothing, since no index is ranked ahead of itself. */
  lemma SortedDistinct(key: seq<real>, s: seq<nat>)
    requires SortedDesc(key, s)
    ensures forall p, q :: 0 <= p < q < |s| ==> s[p] != s[q]
  {
    forall p, q | 0 <= p < q < |s| ensures s[p] != s[q] {
      assert Before(key, s[p], s[q]);
    }
  }

  /** A sorted sequence lists indices by non-increasing key. */
  lemma SortedDescScores(key: seq<real>, s: seq<nat>)
    requires SortedDesc(key, s)
    ensures forall p, q :: 0 <= p < q < |s| ==> key[s[p]] >= key[s[q]]
  {
    forall p, q | 0 <= p < q < |s| ensures key[s[p]] >= key[s[q]] {
      assert Before(key, s[p], s[q]);
    }
  }

  /**
   * The ranking is a stable sort: a permutation of the indices, by
   * non-increasing key, equal keys in ascending index order.
   */
  lemma RankingIsStableSort(key: seq<real>)
    ensures SortedDesc(key, StableRankDesc(key))
    ensures IsIndexPermutation(StableRankDesc(key), |key|)
    ensures forall p, q :: 0 <= p < q < |key| ==>
      key[StableRankDesc(key)[p]] >= key[StableRankDesc(key)[q]]
  {
    var r := StableRankDesc(key);
    RankPrefixSorted(key, |key|);
    SortedDistinct(key, r);
    SortedDescScores(key, r);
  }

  /** Two strictly sorted sequences holding the same indices are equal. */
  lemma {:induction false} SortedUnique(key: seq<real>, s: seq<nat>, t: seq<nat>)
    requires SortedDesc(key, s) && SortedDesc(key, t)
    requires forall x :: x in s <==> x in t
    ensures s == t
  {
    if t != [] {
      assert t[0] in t;
    }
    if s == [] {
      assert t == [];
    } else {
      assert s[0] in t;
      assert t[0] in t;
      if s[0] != t[0] {
        assert false;
      }
      SortedDistinct(key, s);
      SortedDistinct(key, t);
      forall x ensures x in s[1..] <==> x in t[1..] {
        if x in s[1..] {
          var p :| 0 <= p < |s[1..]| && s[1..][p] == x;
          assert x != s[0] && x in t;
          var q :| 0 <= q < |t| && t[q] == x;
          assert q != 0;
          assert t[1..][q - 1] == x;
        }
        if x in t[1..] {
          var q :| 0 <= q < |t[1..]| && t[1..][q] == x;
          assert x != t[0] && x in s;
          var p :| 0 <= p < |s| && s[p] == x;
          assert p != 0;
          assert s[1..][p - 1] == x;
        }
      }
      SortedTail(key, s);
      SortedTail(key, t);
      SortedUnique(key, s[1..], t[1..]);
      assert s == [s[0]] + s[1..] && t == [t[0]] + t[1..];
    }
  }

  /**
   * Any ordering of the indices that is sorted by key with ties in index
   * order is the ranking: the result does not depend on the sort algorithm.
   */
  lemma RankingUnique(key: seq<real>, s: seq<nat>)
    requires SortedDesc(key, s)
    requires forall x: nat :: x in s <==> x < |key|
    ensures s == StableRankDesc(key)
  {
    RankPrefixSorted(key, |key|);
    SortedUnique(key, s, StableRankDesc(key));
  }
}
