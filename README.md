# Movie recommender: verified model of the recommendation lookup

This project models the logic of a Streamlit movie recommender (`app.py`).
The application holds a movie table (TMDB id, title, optional genre list and
release year) and a precomputed similarity matrix whose row `i` scores movie
`i` against every movie. Given a title and a count `k`, `recommend` does four
things:

- it resolves the title to the first row with that title;
- it ranks that matrix row by descending score with a stable sort;
- it keeps ranking positions 1 .. k, where position 0 is normally the movie itself;
- it returns the titles, poster URLs and ids of those ranked rows that exist in the table.

Around it are three smaller pieces: the poster URL choice (`fetch_poster`),
the sidebar filters that narrow the movie chooser, and the "Relevance /
Popularity / Rating" display order of the results.

Modules, one file each:

- `Wrappers` (`wrappers.dfy`): `Option`.
- `Seqs` (`seqs.dfy`): `Filter`, an order-preserving selection. It serves as both the table row masks and the skip-and-append result loop.
- `Ranking` (`ranking.dfy`): `StableRankDesc`, the stable descending index sort that `sorted(..., key=..., reverse=True)` performs. The predicate `Before` gives its order: a higher score first, then the lower index.
- `Catalogue` (`catalogue.dfy`): the `Movie` record, the row-count check `ShapesAgree`, and the title lookup `FirstMatch`.
- `Posters` (`posters.dfy`): the `Details` record of a TMDB response, and `PosterUrl`.
- `Recommender` (`recommender.dfy`): Python slicing, `TopK`, the reported rows `Recommendations`, and the method `Recommend` with its result loop.
- `Browse` (`browse.dfy`): the search, genre and year filters.
- `Display` (`display.dfy`): the re-sort order of the results.

Scores are `real` numbers compared as a total order. The TMDB details of
each id are an input map. An id missing from the map stands for a TMDB error
reply, which carries none of the fields.

The ranking is defined by insertion, not by Python's Timsort. `RankingUnique`
shows that any index order that is sorted by score, with ties in index
order, equals it. So the result does not depend on the sorting algorithm.

The code drops ranking position 0, not the query's own row. The two coincide
when the query's self-score is strictly the largest in its row
(`SelfScoreWinsExcludesQuery`). When exactly one earlier row ties that
maximum, that row takes position 0 and the query is recommended to itself
(`SelfTieRecommendsQuery`; `SelfTieExample` is a two-movie instance). With
more tied rows, or a tie below the maximum, other outcomes follow from the
ranking order. The model keeps the code's behaviour.

## Model

| member | source | states |
|---|---|---|
| Catalogue.ShapesAgree | app.py:66 | defines the load-time check: as many similarity rows as movies |
| Ranking.StableRankDesc | app.py:36 | defines the ranking of a similarity row: all column indices, highest score first, ties in ascending index order; it lists as many indices as the row has scores |
| Recommender.TopK | app.py:36 | defines the slice `[1:k+1]` of the ranking with Python's slice rules for any k (through `PySlice` and `SliceBound`, which clamp bounds and count negative ones from the end); it is shorter than the row and holds only column indices of the row |
| Recommender.Recommendations | app.py:25-50 | defines the table rows `recommend` reports, in order, empty on either error exit; the skip of out-of-table indices (app.py:43-45) is `Kept`; every reported row lies inside the table |
| Posters.PosterUrl | app.py:18-20 | defines the poster URL: the TMDB image prefix and the poster path when the path is present and non-empty (the truthiness test, `HasPoster`), otherwise the placeholder image |
| Browse.FilterCatalogue | app.py:78-95 | defines the movies offered in the chooser: the search, genre and year filters applied in the source's order, each only when active |
| Browse.MatchesSearch | app.py:80 | defines the search test: the lower-cased title contains the lower-cased term |
| Browse.MatchesGenres | app.py:89 | defines the genre test: the genre cell is a list holding at least one selected genre |
| Browse.InYears | app.py:94-95 | defines the year test: the release year is present and within the range, both ends included |
| Display.SortKey | app.py:112-116 | defines the re-sort key of the "Popularity" and "Rating" modes: popularity or vote average from the details, 0 when missing |
| Display.DisplayOrder | app.py:111-118 | defines the display order: the identity for "Relevance", otherwise the stable descending ranking of the keys, which `Keys` lists per recommended id as the comprehensions at app.py:112 and 115 do |
| Catalogue.FirstMatch | app.py:25-31 | the resolved row has the query title and no earlier row does; None only when no row has the title |
| Catalogue.LoadCheckRulesOutMismatch | app.py:66-67 | once the load-time row-count check passes, a resolved row always lies inside the similarity matrix |
| Recommender.Recommend | app.py:23-52 | both error exits (title not found; row beyond the matrix) return three empty lists; otherwise the three lists have equal length and entry j holds the title, the id and the poster URL of the j-th recommended row |
| Ranking.RankingIsStableSort | app.py:36 | the ranking lists every column index once, by non-increasing score, equal scores in ascending index order |
| Ranking.RankingUnique | app.py:36 | any index order that is sorted by score with ties in index order is the ranking, so Python's stable sort yields exactly it |
| Ranking.SortedUnique | app.py:36 | two orders that are both strictly sorted by the ranking order and hold the same indices are equal |
| Ranking.InsertSorted | app.py:36 | inserting a new index into a ranked list keeps it ranked and adds exactly that index |
| Recommender.TopKShape | app.py:36 | for k >= 0 the slice [1:k+1] has min(k, max(n-1, 0)) entries, entry j is ranking position j+1, the position-0 entry is never included, and the slice stays ranked |
| Recommender.KeptMembers | app.py:42-50 | the result loop keeps exactly the selected indices below the catalogue length, and keeps all of them when none is out of range |
| Recommender.KeptSorted | app.py:42-50 | skipping out-of-range indices keeps the survivors in ranked order |
| Recommender.RecommendationsRanked | app.py:36-50 | the recommended rows come by non-increasing similarity to the query, ties in row order |
| Recommender.SquareMatrixCount | app.py:36-50 | with a square matrix as large as the catalogue, nothing is skipped: a found title gets min(k, n-1) recommendations, exactly ranking positions 1..k |
| Recommender.SelfScoreWinsExcludesQuery | app.py:36 | when the query's self-score is strictly the highest in its row, the query is not among its own recommendations |
| Recommender.SelfTieRecommendsQuery | app.py:36 | when exactly one row before the query ties its self-score and that score is the row maximum, that row takes ranking position 0 and, for any k >= 1, the query is among its own recommendations |
| Recommender.SelfTieExample | app.py:36 | a two-movie instance of the above: "Copy" ties "Twin", listed first, and is recommended to itself for k = 1 |
| Recommender.WorkedExample | app.py:23-52 | catalogue A, B, C, D with scores 1.0, 0.9, 0.2, 0.5 against A and k = 2 yields rows B then D |
| Posters.PosterUrlDecodes | app.py:15-20 | the URL starts with the TMDB image prefix exactly when the details carry a non-empty poster path, which is then what follows the prefix; otherwise it is the placeholder image |
| Browse.FilterCatalogueSelects | app.py:78-95 | the three filters applied in turn form one order-preserving selection: a movie is offered exactly when it is in the table and passes every active filter (search term typed, genres selected, year column present) |
| Browse.EmptyTermMatchesAll | app.py:79-82 | an empty search term matches every title, so skipping the search filter for it changes nothing |
| Browse.SearchIgnoresCase | app.py:80 | the title search gives the same answer for a term and its lower-cased form |
| Display.DisplayOrderSpec | app.py:110-118 | the display order shows every recommendation once; "Relevance" keeps the ranked order; "Popularity" and "Rating" show non-increasing values, a missing value counting as 0, ties in ranked order |
| Seqs.FilterKeeps | app.py:42-50 | an element the test accepts is never dropped by the selection |
| Seqs.FilterAppend | app.py:42-50 | selection distributes over concatenation, so survivors keep their relative order |
| Seqs.FilterThen | app.py:88-95 | two filters in a row select what a single filter by their conjunction selects |

## Left out

- Fetching the movie details (`get_movie_details`, app.py:7-12): an HTTP request and a Streamlit cache. The details of each id are an input map.
- Fetch exceptions: `requests.get` raises on a transport failure and `.json()` raises on a body that is not JSON (app.py:11). In the source such an exception propagates through `fetch_poster` out of `recommend` (app.py:17, 49) and aborts the whole recommendation. The model has no failing fetch.
- Loading the two pickle files, converting to a DataFrame, and stopping the app on error (app.py:54-71): file I/O and process control. Only the row-count comparison is kept, as `ShapesAgree`.
- The Streamlit interface: widgets, columns, expanders, the 5-wide grid wrap and the details panel with its placeholder texts (app.py:73-137); the overview field it shows is therefore not part of `Details`.
- The diagnostic `print` for a skipped index (app.py:44).
- Floating-point scores: scores are reals in a total order. NaN and its ordering are not modelled.
- DataFrame index labels: `movies[...].index` returns labels and `iloc` uses positions. The model assumes the default index, where the two agree.
- Browse.MatchesSearch: pandas `str.contains` reads the term as a regular expression and ignores case under full Unicode rules. The model matches the term as a literal substring and lower-cases ASCII letters only.
- Recommender.Recommend: the two error exits of the source return a pair `[], []` (app.py:29, 34), while success returns a triple (app.py:52). The model returns three empty lists on both exits. In the source the caller unpacks the result into three names (app.py:107), so either exit raises a ValueError there. The "not found" exit is reachable when the filters leave no title and the chooser yields None (app.py:98), so the app crashes instead of only showing the error.
- Recommender.Recommend: the count argument is always given; the default `num_recommendations=5` (app.py:23) is not modelled, since the only caller passes it (app.py:107).
- Recommender.Recommend: the two `st.error` messages that tell the exits apart (app.py:28, 33) are not modelled; both exits return the same empty result, as in the source.
- Recommender.Recommend: the similarity scores of the kept (index, score) pairs are not carried along, because the source never reads them after the sort.
- Browse.MatchesSearch: titles are always strings; a missing (NaN) title, which `na=False` rejects (app.py:80), cannot occur in the model.
- Display.SortKey: with two or more recommendations, a key present with a null value makes the Python sort raise a comparison error. The model treats null like a missing key (0).
