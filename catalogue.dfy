/**
 * The loaded movie table and the similarity matrix, both read-only after
 * loading. Row `i` of the matrix holds the scores of movie `i` against every
 * movie; the two are meant to have the same number of rows.
 */
module Catalogue {
  import opened Wrappers

  /** One row of the movie table: the TMDB id, the title and the optional filter columns. */
  datatype Movie = Movie(
    id: int,
    title: string,
    genres: Option<seq<string>>,   // None when the cell is not a list
    releaseYear: Option<int>       // None when the cell is missing
  )

  type Matrix = seq<seq<real>>

  /** The load-time check: as many similarity rows as movies. */
  predicate ShapesAgree(movies: seq<Movie>, similarity: Matrix) {
    |similarity| == |movies|
  }

  /** The row of the first movie titled `title`, or None when no movie has that title. */
  function FirstMatch(movies: seq<Movie>, title: string): (r: Option<nat>)
    ensures r.None? ==> forall j :: 0 <= j < |movies| ==> movies[j].title != title
    ensures r.Some? ==> r.value < |movies| && movies[r.value].title == title
    ensures r.Some? ==> forall j :: 0 <= j < r.value ==> movies[j].title != title
  {
    if movies == [] then None
    else if movies[0].title == title then Some(0)
    else match FirstMatch(movies[1..], title)
      case None => None
      case Some(i) => Some(i + 1)
  }

  /** After a successful load check, the "similarity matrix mismatch" exit cannot be taken. */
  lemma LoadCheckRulesOutMismatch(movies: seq<Movie>, similarity: Matrix, title: string)
    requires ShapesAgree(movies, similarity)
    requires FirstMatch(movies, title).Some?
    ensures FirstMatch(movies, title).value < |similarity|
  {
  }
}
