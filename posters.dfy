/**
 * Poster URL construction from the movie details TMDB returns. The HTTP
 * request is not modelled: the details already fetched for each id are an
 * input map.
 */
module Posters {
  import opened Wrappers

  /** The fields of a TMDB movie-details response the application reads; None when absent or null. */
  datatype Details = Details(
    posterPath: Option<string>,
    popularity: Option<real>,
    voteAverage: Option<real>
  )

  const PosterPrefix: string := "https://image.tmdb.org/t/p/w500/"
  const Placeholder: string := "https://via.placeholder.com/500x750?text=No+Image"

  /** A response with none of the fields: what an unknown id yields (TMDB replies with an error body). */
  const NoDetails: Details := Details(None, None, None)

  /** The details fetched for `id`. */
  function DetailsOf(fetched: map<int, Details>, id: int): Details {
    if id in fetched then fetched[id] else NoDetails
  }

  /** The response carries a non-empty poster path (Python truthiness of the value). */
  predicate HasPoster(d: Details) {
    d.posterPath.Some? && d.posterPath.value != ""
  }

  /** The image URL for a movie: the TMDB prefix and the poster path, or the placeholder image. */
  function PosterUrl(d: Details): string {
    if HasPoster(d) then PosterPrefix + d.posterPath.value else Placeholder
  }

  /**
   * A poster URL is a TMDB image exactly when the details carry a poster
   * path, and then the path is what follows the prefix; otherwise it is
   * the placeholder.
   */
  lemma PosterUrlDecodes(d: Details)
    ensures var url := PosterUrl(d);
      (|url| > |PosterPrefix| && url[..|PosterPrefix|] == PosterPrefix) <==> HasPoster(d)
    ensures HasPoster(d) ==> PosterUrl(d)[|PosterPrefix|..] == d.posterPath.value
    ensures !HasPoster(d) ==> PosterUrl(d) == Placeholder
  {
    var url := PosterUrl(d);
    if HasPoster(d) {
      assert url == PosterPrefix + d.posterPath.value;
      assert url[..|PosterPrefix|] == PosterPrefix;
    } else {
      assert url[8] == 'v' && PosterPrefix[8] == 'i';
    }
  }
}
