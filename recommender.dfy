/**
 * Top-K recommendation lookup: resolve a title to its first catalogue row,
 * rank that row of the similarity matrix by descending score, drop the
 * first ranked position, keep the next k, and return the aligned titles,
 * poster URLs and ids of the ranked rows that lie inside the catalogue.
 */
module Recommender {
  import opened Wrappers
  import opened Seqs
  import opened Ranking
  import opened Catalogue
  import opened Posters

  /** A slice bound normalised as Python does: negative counts from the end, then clamped to 0 .. n. */
  function SliceBound(b: int, n: nat): (c: nat)
    ensures c <= n
    ensures 0 <= b <= n ==> c == b
    ensures b > n ==> c == n
    ensures b < 0 ==> c == if b + n < 0 then 0 else b + n
  {
    if b < 0 then (if b + n < 0 then 0 else b + n)
    else if b > n then n
    else b
  }

  /** Python's `s[start:stop]`. */
  function PySlice<T>(s: seq<T>, start: int, stop: int): seq<T> {
    var lo, hi := SliceBound(start, |s|), SliceBound(stop, |s|);
    if lo < hi then s[lo..hi] else []
  }

  /** Positions 1 .. k of the ranking of `row`: the slice `[1:k+1]` of the sorted (index, score) pairs. */
  function TopK(row: seq<real>, k: int): (top: seq<nat>)
    ensures |top| < |row| || |row| == 0
    ensures forall i :: i in top ==> i < |row|
  {
    RankingIsStableSort(row);
    var ranking := StableRankDesc(row);
    var top := PySlice(ranking, 1, k + 1);
    assert forall j :: 0 <= j < |top| ==> top[j] == ranking[SliceBound(1, |ranking|) + j];
    top
  }

  /** The selected indices that address a catalogue row, in ranked order. */
  function Kept(n: nat, selected: seq<nat>): seq<nat> {
    Filter(selected, (i: nat) => i < n)
  }

  /** The catalogue rows `recommend` reports, in order; empty on either error exit. */
  function Recommendations(movies: seq<Movie>, similarity: Matrix, title: string, k: int): (rows: seq<nat>)
    ensures forall j :: 0 <= j < |rows| ==> rows[j] < |movies|
  {
    match FirstMatch(movies, title)
    case None => []
    case Some(index) =>
      if index >= |similarity| then []
      else
        var rows := Kept(|movies|, TopK(similarity[index], k));
        assert forall j :: 0 <= j < |rows| ==> rows[j] in rows;
        rows
  }

  /**
   * `recommend`: the titles, poster URLs and ids of the recommended rows,
   * position by position. Both error exits return empty lists.
   */
  method Recommend(movies: seq<Movie>, similarity: Matrix, title: string, k: int, fetched: map<int, Details>)
    returns (names: seq<string>, posters: seq<string>, ids: seq<int>)
    ensures FirstMatch(movies, title).None? ==> names == [] && posters == [] && ids == []
    ensures FirstMatch(movies, title).Some? && FirstMatch(movies, title).value >= |similarity| ==>
      names == [] && posters == [] && ids == []
    ensures var rows := Recommendations(movies, similarity, title, k);
      && |names| == |rows| && |posters| == |rows| && |ids| == |rows|
      && forall j :: 0 <= j < |rows| ==>
        && names[j] == movies[rows[j]].title
        && ids[j] == movies[rows[j]].id
        && posters[j] == PosterUrl(DetailsOf(fetched, ids[j]))
  {
    var found := FirstMatch(movies, title);
    if found.None? {
      return [], [], [];
    }
    var index := found.value;
    if index >= |similarity| {
      return [], [], [];
    }
    var distances := TopK(similarity[index], k);
    names, posters, ids := [], [], [];
    ghost var rows: seq<nat> := [];
    for j := 0 to |distances|
      invariant rows == Kept(|movies|, distances[..j])
      invariant |names| == |rows| && |posters| == |rows| && |ids| == |rows|
      invariant forall p :: 0 <= p < |rows| ==>
        && rows[p] < |movies|
        && names[p] == movies[rows[p]].title
        && ids[p] == movies[rows[p]].id
        && posters[p] == PosterUrl(DetailsOf(fetched, ids[p]))
    {
      var i := distances[j];
      assert distances[..j + 1][..j] == distances[..j];
      if i >= |movies| {
        continue;
      }
      var movieId := movies[i].id;
      ids := ids + [movieId];
      posters := posters + [PosterUrl(DetailsOf(fetched, movieId))];
      names := names + [movies[i].title];
      rows := rows + [i];
    }
    assert distances[..|distances|] == distances;
  }

  /**
   * For k >= 0 the slice holds ranking positions 1 .. k: min(k, n - 1)
   * entries (none for an empty row), each the entry one position further
   * down the ranking, so the position-0 entry is never among them.
   */
  lemma TopKShape(row: seq<real>, k: int)
    requires k >= 0
    ensures var top, ranking := TopK(row, k), StableRankDesc(row);
      && |top| == (if |row| == 0 then 0 else if k < |row| - 1 then k else |row| - 1)
      && (forall j :: 0 <= j < |top| ==> top[j] == ranking[j + 1])
      && (|row| > 0 ==> ranking[0] !in top)
      && SortedDesc(row, top)
  {
    RankingIsStableSort(row);
    var top, ranking := TopK(row, k), StableRankDesc(row);
    if |row| > 0 {
      forall j | 0 <= j < |top| ensures top[j] != ranking[0] {
        assert top[j] == ranking[j + 1];
      }
    }
    forall p, q | 0 <= p < q < |top| ensures Before(row, top[p], top[q]) {
      assert top[p] == ranking[p + 1] && top[q] == ranking[q + 1];
    }
  }

  /** The result loop keeps exactly the selected indices below the catalogue length. */
  lemma KeptMembers(n: nat, selected: seq<nat>)
    ensures forall i :: i in Kept(n, selected) <==> i in selected && i < n
    ensures (forall i :: i in selected ==> i < n) ==> Kept(n, selected) == selected
  {
    forall i | i in selected && i < n ensures i in Kept(n, selected) {
      FilterKeeps<nat>(selected, (i: nat) => i < n, i);
    }
    if forall i :: i in selected ==> i < n {
      FilterAll<nat>(selected, (i: nat) => i < n);
    }
  }

  /** Skipping out-of-range indices keeps the survivors in their ranked order. */
  lemma {:induction false} KeptSorted(key: seq<real>, n: nat, selected: seq<nat>)
    requires SortedDesc(key, selected)
    ensures SortedDesc(key, Kept(n, selected))
  {
    if selected != [] {
      var init, last := selected[..|selected| - 1], selected[|selected| - 1];
      assert SortedDesc(key, init) by {
        forall p, q | 0 <= p < q < |init| ensures Before(key, init[p], init[q]) {
          assert init[p] == selected[p] && init[q] == selected[q];
        }
      }
      KeptSorted(key, n, init);
      var front := Kept(n, init);
      if last < n {
        forall p | 0 <= p < |front| ensures Before(key, front[p], last) {
          assert front[p] in front;
          var i :| 0 <= i < |init| && init[i] == front[p];
        }
      }
    }
  }

  /** The recommended rows are ranked: non-increasing score, equal scores in ascending row order. */
  lemma RecommendationsRanked(movies: seq<Movie>, similarity: Matrix, title: string, k: int, index: nat)
    requires FirstMatch(movies, title) == Some(index) && index < |similarity|
    ensures SortedDesc(similarity[index], Recommendations(movies, similarity, title, k))
    ensures var row, rows := similarity[index], Recommendations(movies, similarity, title, k);
      forall p, q :: 0 <= p < q < |rows| ==> row[rows[p]] >= row[rows[q]]
  {
    var row := similarity[index];
    var rows := Recommendations(movies, similarity, title, k);
    var top := TopK(row, k);
    assert SortedDesc(row, top) by {
      RankingIsStableSort(row);
      var ranking := StableRankDesc(row);
      var lo, hi := SliceBound(1, |ranking|), SliceBound(k + 1, |ranking|);
      forall p | 0 <= p < |top| ensures top[p] == ranking[lo + p] {}
      forall p, q | 0 <= p < q < |top| ensures Before(row, top[p], top[q]) {
        assert Before(row, ranking[lo + p], ranking[lo + q]);
      }
    }
    KeptSorted(row, |movies|, top);
    assert rows == Kept(|movies|, top);
    SortedDescScores(row, rows);
  }

  /**
   * With a consistent square matrix, nothing is skipped: a found title
   * yields min(k, n - 1) rows, exactly ranking positions 1 .. k.
   */
  lemma SquareMatrixCount(movies: seq<Movie>, similarity: Matrix, title: string, k: int, index: nat)
    requires k >= 0
    requires ShapesAgree(movies, similarity)
    requires forall i :: 0 <= i < |similarity| ==> |similarity[i]| == |movies|
    requires FirstMatch(movies, title) == Some(index)
    ensures Recommendations(movies, similarity, title, k) == TopK(similarity[index], k)
    ensures |Recommendations(movies, similarity, title, k)| == if k < |movies| - 1 then k else |movies| - 1
  {
    var top := TopK(similarity[index], k);
    TopKShape(similarity[index], k);
    KeptMembers(|movies|, top);
  }

  /**
   * When the query's self-score is strictly the highest in its row, the
   * dropped position 0 is the query, so it is never recommended to itself.
   */
  lemma SelfScoreWinsExcludesQuery(movies: seq<Movie>, similarity: Matrix, title: string, k: int)
    requires FirstMatch(movies, title).Some?
    requires var index := FirstMatch(movies, title).value;
      && index < |similarity| && index < |similarity[index]|
      && forall j :: 0 <= j < |similarity[index]| && j != index ==> similarity[index][j] < similarity[index][index]
    ensures FirstMatch(movies, title).value !in Recommendations(movies, similarity, title, k)
  {
    var index := FirstMatch(movies, title).value;
    var row := similarity[index];
    var ranking := StableRankDesc(row);
    RankingIsStableSort(row);
    assert ranking[0] == index by {
      forall p | 0 < p < |ranking| ensures ranking[p] != index {
        assert Before(row, ranking[0], ranking[p]);
      }
      assert index in ranking;
    }
    var top := TopK(row, k);
    forall j | 0 <= j < |top| ensures top[j] != index {
      var lo, hi := SliceBound(1, |ranking|), SliceBound(k + 1, |ranking|);
      assert top[j] == ranking[lo + j];
    }
    KeptMembers(|movies|, top);
  }

  /**
   * The exclusion is positional. When exactly one other row `j` ties the
   * query's self-score as the row maximum and comes before the query, `j`
   * takes position 0, the query takes position 1, and for any k >= 1 the
   * query is recommended to itself.
   */
  lemma SelfTieRecommendsQuery(movies: seq<Movie>, similarity: Matrix, title: string, k: int, j: nat)
    requires k >= 1
    requires FirstMatch(movies, title).Some?
    requires var index := FirstMatch(movies, title).value;
      && index < |similarity| && index < |similarity[index]|
      && j < index && similarity[index][j] == similarity[index][index]
      && forall x :: 0 <= x < |similarity[index]| && x != j && x != index ==>
           similarity[index][x] < similarity[index][index]
    ensures var index := FirstMatch(movies, title).value;
      && StableRankDesc(similarity[index])[0] == j
      && index in Recommendations(movies, similarity, title, k)
  {
    var index := FirstMatch(movies, title).value;
    var row := similarity[index];
    var ranking := StableRankDesc(row);
    RankingIsStableSort(row);
    assert ranking[0] == j by {
      forall p | 0 < p < |ranking| ensures ranking[p] != j {
        assert Before(row, ranking[0], ranking[p]);
      }
      assert j in ranking;
    }
    assert ranking[1] == index by {
      forall p | 1 < p < |ranking| ensures ranking[p] != index {
        assert Before(row, ranking[1], ranking[p]);
        assert ranking[1] != ranking[0];
      }
      assert index in ranking;
      assert ranking[0] != index;
    }
    var top := TopK(row, k);
    assert top[0] == index;
    KeptMembers(|movies|, top);
  }

  /** A two-movie instance: "Copy" ties "Twin", listed first, and is recommended to itself. */
  lemma SelfTieExample()
    ensures var movies := [Movie(10, "Twin", None, None), Movie(20, "Copy", None, None)];
      Recommendations(movies, [[1.0, 1.0], [1.0, 1.0]], "Copy", 1) == [1]
  {
    var row: seq<real> := [1.0, 1.0];
    RankingUnique(row, [0, 1]);
    assert TopK(row, 1) == [1];
    KeptMembers(2, [1]);
  }

  /**
   * Catalogue A, B, C, D with ids 1 .. 4 and scores 1.0, 0.9, 0.2, 0.5
   * against A: the two recommendations for A are B and D, in that order.
   */
  lemma WorkedExample()
    ensures var movies := [Movie(1, "A", None, None), Movie(2, "B", None, None),
                           Movie(3, "C", None, None), Movie(4, "D", None, None)];
      var row: seq<real> := [1.0, 0.9, 0.2, 0.5];
      Recommendations(movies, [row, row, row, row], "A", 2) == [1, 3]
  {
    var row: seq<real> := [1.0, 0.9, 0.2, 0.5];
    RankingUnique(row, [0, 1, 3, 2]);
    assert TopK(row, 2) == [1, 3];
    KeptMembers(4, [1, 3]);
  }
}
