/**
 * The sidebar filters over the catalogue: a case-insensitive title search,
 * a genre selection that keeps movies having any selected genre, and an
 * inclusive release-year range. Each filter keeps table order.
 */
module Browse {
  import opened Wrappers
  import opened Seqs
  import opened Catalogue

  /** ASCII lower-casing of one character. */
  function LowerChar(c: char): char {
    if 'A' <= c <= 'Z' then (c as int + 32) as char else c
  }

  function Lower(s: string): string {
    seq(|s|, i requires 0 <= i < |s| => LowerChar(s[i]))
  }

  /** `needle` occurs in `hay` starting at position `i`. */
  predicate OccursAt(hay: string, needle: string, i: int) {
    0 <= i && i + |needle| <= |hay| && hay[i..i + |needle|] == needle
  }

  /** `needle` occurs in `hay` as a contiguous run. */
  predicate Contains(hay: string, needle: string) {
    exists i | 0 <= i <= |hay| - |needle| :: OccursAt(hay, needle, i)
  }

  /** The title contains the search term, ignoring case. */
  predicate MatchesSearch(m: Movie, term: string) {
    Contains(Lower(m.title), Lower(term))
  }

  /** The genre cell is a list holding at least one of the selected genres. */
  predicate MatchesGenres(m: Movie, selected: seq<string>) {
    m.genres.Some? && exists g :: g in selected && g in m.genres.value
  }

  /** The release year is present and within `lo .. hi`, both ends included. */
  predicate InYears(m: Movie, lo: int, hi: int) {
    m.releaseYear.Some? && lo <= m.releaseYear.value <= hi
  }

  /**
   * The movies offered in the chooser: the search filter when a term is
   * typed, then the genre filter when genres are selected, then the year
   * range when the table has a release-year column (`years` is None
   * otherwise).
   */
  function FilterCatalogue(movies: seq<Movie>, term: string, selected: seq<string>, years: Option<(int, int)>): seq<Movie> {
    var bySearch := if term != "" then Filter(movies, m => MatchesSearch(m, term)) else movies;
    var byGenre := if selected != [] then Filter(bySearch, m => MatchesGenres(m, selected)) else bySearch;
    if years.Some? then Filter(byGenre, m => InYears(m, years.value.0, years.value.1)) else byGenre
  }

  /** The conjunction of the filters that are switched on. */
  predicate Accepts(m: Movie, term: string, selected: seq<string>, years: Option<(int, int)>) {
    && (term == "" || MatchesSearch(m, term))
    && (selected == [] || MatchesGenres(m, selected))
    && (years.None? || InYears(m, years.value.0, years.value.1))
  }

  /** The test of the search stage as the source applies it: none when the term is empty. */
  lemma SearchStage(movies: seq<Movie>, term: string)
    ensures (if term != "" then Filter(movies, m => MatchesSearch(m, term)) else movies)
         == Filter(movies, m => term == "" || MatchesSearch(m, term))
  {
    if term != "" {
      FilterSameTest(movies, m => MatchesSearch(m, term), m => term == "" || MatchesSearch(m, term));
    } else {
      FilterAll(movies, m => term == "" || MatchesSearch(m, term));
    }
  }

  lemma GenreStage(movies: seq<Movie>, term: string, selected: seq<string>)
    ensures var bySearch := Filter(movies, m => term == "" || MatchesSearch(m, term));
      (if selected != [] then Filter(bySearch, m => MatchesGenres(m, selected)) else bySearch)
      == Filter(movies, m => (term == "" || MatchesSearch(m, term)) && (selected == [] || MatchesGenres(m, selected)))
  {
    var search := m => term == "" || MatchesSearch(m, term);
    var both := m => (term == "" || MatchesSearch(m, term)) && (selected == [] || MatchesGenres(m, selected));
    if selected != [] {
      FilterThen(movies, search, m => MatchesGenres(m, selected), both);
    } else {
      FilterSameTest(movies, search, both);
    }
  }

  lemma YearStage(movies: seq<Movie>, term: string, selected: seq<string>, years: Option<(int, int)>)
    ensures var byGenre := Filter(movies, m => (term == "" || MatchesSearch(m, term)) && (selected == [] || MatchesGenres(m, selected)));
      (if years.Some? then Filter(byGenre, m => InYears(m, years.value.0, years.value.1)) else byGenre)
      == Filter(movies, m => Accepts(m, term, selected, years))
  {
    var earlier := m => (term == "" || MatchesSearch(m, term)) && (selected == [] || MatchesGenres(m, selected));
    if years.Some? {
      FilterThen(movies, earlier, m => InYears(m, years.value.0, years.value.1), m => Accepts(m, term, selected, years));
    } else {
      FilterSameTest(movies, earlier, m => Accepts(m, term, selected, years));
    }
  }

  /**
   * Applying the filters one after another is one order-preserving
   * selection by their conjunction: a movie is offered exactly when it is
   * in the table and passes every active filter.
   */
  lemma FilterCatalogueSelects(movies: seq<Movie>, term: string, selected: seq<string>, years: Option<(int, int)>)
    ensures FilterCatalogue(movies, term, selected, years) == Filter(movies, m => Accepts(m, term, selected, years))
    ensures forall m :: m in FilterCatalogue(movies, term, selected, years) <==>
      m in movies && Accepts(m, term, selected, years)
  {
    SearchStage(movies, term);
    GenreStage(movies, term, selected);
    YearStage(movies, term, selected, years);
    forall m | m in movies && Accepts(m, term, selected, years)
      ensures m in Filter(movies, m => Accepts(m, term, selected, years))
    {
      FilterKeeps(movies, m => Accepts(m, term, selected, years), m);
    }
  }

  /** An empty search term matches every title, so skipping the filter for it changes nothing. */
  lemma EmptyTermMatchesAll(m: Movie)
    ensures MatchesSearch(m, "")
  {
    assert OccursAt(Lower(m.title), Lower(""), 0);
  }

  /** The search ignores the case of the term. */
  lemma SearchIgnoresCase(m: Movie, term: string)
    ensures MatchesSearch(m, term) <==> MatchesSearch(m, Lower(term))
  {
    assert Lower(Lower(term)) == Lower(term);
  }
}
