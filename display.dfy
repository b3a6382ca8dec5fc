/**
 * The order in which the recommendations are shown: as ranked
 * ("Relevance"), or re-sorted by the popularity or the rating TMDB reports,
 * highest first, a missing value counting as 0.
 */
module Display {
  import opened Ranking
  import opened Posters

  datatype SortMode = Relevance | Popularity | Rating

  /** The value a movie is re-sorted by; "Relevance" computes no key. */
  function SortKey(mode: SortMode, d: Details): real
    requires mode != Relevance
  {
    if mode == Popularity then d.popularity.GetOr(0.0) else d.voteAverage.GetOr(0.0)
  }

  /** The sort key of each recommended id, position by position. */
  function Keys(mode: SortMode, ids: seq<int>, fetched: map<int, Details>): seq<real>
    requires mode != Relevance
  {
    seq(|ids|, j requires 0 <= j < |ids| => SortKey(mode, DetailsOf(fetched, ids[j])))
  }

  /** The positions of the recommendation lists, in display order. */
  function DisplayOrder(mode: SortMode, ids: seq<int>, fetched: map<int, Details>): seq<nat> {
    if mode == Relevance then Range(|ids|) else StableRankDesc(Keys(mode, ids, fetched))
  }

  /**
   * Every recommendation is shown exactly once. "Relevance" keeps the
   * ranked order; the other modes show non-increasing keys, equal keys in
   * ranked order.
   */
  lemma DisplayOrderSpec(mode: SortMode, ids: seq<int>, fetched: map<int, Details>)
    ensures IsIndexPermutation(DisplayOrder(mode, ids, fetched), |ids|)
    ensures mode == Relevance ==> forall j :: 0 <= j < |ids| ==> DisplayOrder(mode, ids, fetched)[j] == j
    ensures mode != Relevance ==> SortedDesc(Keys(mode, ids, fetched), DisplayOrder(mode, ids, fetched))
    ensures mode != Relevance ==> var keys, order := Keys(mode, ids, fetched), DisplayOrder(mode, ids, fetched);
      forall p, q :: 0 <= p < q < |ids| ==> keys[order[p]] >= keys[order[q]]
  {
    var order := DisplayOrder(mode, ids, fetched);
    if mode == Relevance {
      forall x: nat | x < |ids| ensures x in order {
        assert order[x] == x;
      }
    } else {
      RankingIsStableSort(Keys(mode, ids, fetched));
    }
  }
}
