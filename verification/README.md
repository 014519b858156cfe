# Movie recommender: ranking core in Dafny

This project models the recommendation logic of a small Streamlit movie
recommender. The catalog is a table of movies with a TMDB id and a title. A
precomputed similarity matrix gives one row of scores per movie. `recommend`
takes a title and does the following:

1. It finds the first movie with exactly that title.
2. It takes that movie's row of the similarity matrix.
3. It pairs each column index with its score (`enumerate`).
4. It sorts the pairs by score, descending. The sort is stable, so equal scores
   stay in ascending index order.
5. It drops the top-ranked pair and keeps at most five (`[1:6]`).
6. It returns two parallel lists: the titles of the kept movies, and the poster
   URL fetched for each of them (or `None`).

Any `IndexError` along the way gives two empty lists. This covers an unknown
title, a missing matrix row and a missing catalog row.

Modules, one per component:

- `Wrappers` (`wrappers.dfy`): `Option`, standing for Python's `None` or a value.
- `Catalog` (`catalog.dfy`): the `Movie` record and the title lookup.
- `Ranking` (`ranking.dfy`): enumerate, the stable descending sort, and the
  `[1:6]` slice, together with their properties.
- `Poster` (`poster.dfy`): turning the TMDB `poster_path` into a URL.
- `Recommender` (`recommender.dfy`): `recommend` itself, from title to the two
  lists.

Scores are `real`, because the source only ever compares them. The HTTP
outcome of the poster request is an input, `PosterResponse`: either the
request failed, or there is a JSON body whose `poster_path` is present or
absent. `recommend` receives it as a total function `fetch` from movie id to
response.

Three points of the code's behaviour shape the contracts:

- The code has no `K` argument and no `InvalidArgument` error. It hard-codes
  the slice `[1:6]`, so the result has `min(5, N - 1)` entries.
- The code does not exclude the query's own index. It drops whichever pair
  ranks first, which is the lowest index holding the row's maximum
  (`Ranking.DroppedIsFirstArgmax`, `Ranking.FirstArgmaxNotKept`). The query is
  excluded when it is that index; a strict maximum is enough
  (`Ranking.SelfExcludedWhenStrictMax`). When an earlier index ties with it,
  that index is dropped instead, and the query can come back
  (`Ranking.TiedSelfIsKept`).
- On equal scores the order is ascending index. This is what Python's
  `sorted(..., reverse=True)` keeps.

## Model

| member | source | states |
|---|---|---|
| `Catalog.FindTitle` | app.py:39 | The lookup returns the smallest position whose title equals the query exactly. It returns `None` exactly when no movie has that title. |
| `Poster.PosterUrl` | app.py:15-32 | A URL is returned exactly when the response has a non-empty `poster_path`. The URL is the TMDB image base followed by that path. A failed request or an absent or empty path gives `None`. |
| `Poster.PosterUrlInjective` | app.py:20-22 | Two responses give the same URL only when they carry the same poster path. The URL determines the path. |
| `Ranking.Insert` | app.py:47 | One step of the stable sort. The result holds the same pairs plus the inserted one, and it starts with either the inserted pair or the old head. |
| `Ranking.InsertKeepsScoreOrder` | app.py:47 | Insertion keeps a sequence in non-increasing score order. |
| `Ranking.InsertKeepsRanking` | app.py:47 | Suppose the inserted pair has a lower index than every pair already present. Then insertion keeps the sequence ordered by score descending with ties by ascending index. The inserted pair goes before equal scores, which is stability. |
| `Ranking.InsertionSort` | app.py:47 | The output is a permutation of the input with non-increasing neighbouring scores. On index-ascending input, neighbours also have equal scores in ascending index order. |
| `Ranking.SortByScore` | app.py:47 | The model of `sorted(..., reverse=True, key=score)`. The output is a permutation of the input, and its scores never increase. On input whose indices ascend, equal scores come out in ascending index order. |
| `Ranking.RankIsRankingOf` | app.py:45-47 | The ranking of a row is a permutation of `enumerate(row)` with as many entries as the row. It is ordered by score descending, ties by ascending index, and every entry is a real (index, score) pair of the row. |
| `Ranking.EnumeratePairs` | app.py:45-47 | `enumerate(row)` contains a pair exactly when the pair's index is within the row and its score is the row's score at that index. |
| `Ranking.RankedUnique` | app.py:47 | Two sequences that are permutations of each other and both ranked are equal. The ranking order has only one result. |
| `Ranking.RankIsUnique` | app.py:47 | Take any permutation of `enumerate(row)` ranked by score descending, ties by ascending index. It equals the stable sort's output, so the sort agrees with an order-based reference definition. |
| `Ranking.TopNeighbours` | app.py:47 | The `[1:6]` slice has `min(5, N - 1)` entries, and none for an empty row. It is ranked, and each entry is an (index, score) pair of the row. |
| `Ranking.DroppedIsFirstArgmax` | app.py:44-47 | The pair the slice drops is at the lowest index that holds the row's maximum score. |
| `Ranking.FirstArgmaxNotKept` | app.py:44-47 | Exactly the top-ranked pair is dropped: no kept pair has the lowest index holding the row's maximum. |
| `Ranking.TopNeighboursAreBest` | app.py:47 | Top-K selection. Every pair of the row that is neither kept nor dropped ranks after every kept pair. |
| `Ranking.SelfExcludedWhenStrictMax` | app.py:44-47 | If the query's own score is strictly greater than every other score in its row, the query's index is not among the kept pairs. |
| `Ranking.TiedSelfIsKept` | app.py:44-47 | For the row `[1.0, 1.0, 0.5]` and query index 1, the query's own pair is kept. This is because the tied index 0 ranks first and is dropped. |
| `Ranking.RankOfOrderedRow` | app.py:47 | A row whose scores never increase ranks in plain index order. This shows stability for equal scores. |
| `Recommender.Neighbours` | app.py:39-47 | The kept pairs are `None` exactly when the title is not listed or the first matching position has no matrix row; both raise `IndexError` in the code. Otherwise they are ranks 1 to 5 of that position's row. |
| `Recommender.Describe` | app.py:49-58 | The loop over the kept pairs succeeds exactly when every kept index has a catalog row. On success it gives equal-length name and poster lists. Entry `j` is the title of the `j`-th kept movie, plus the poster result for that same movie's id. |
| `Recommender.Recommend` | app.py:35-62 | An unknown title, a missing matrix row or a missing catalog row gives `[], []`. Otherwise the names and posters correspond entry by entry to the kept pairs. The two lists always have the same length, at most 5. |
| `Recommender.RecommendLength` | app.py:39-58 | On a square matrix that matches the catalog, a listed title gives exactly `min(5, N - 1)` recommendations. They are the titles and posters of ranks 1 to 5 of the first matching movie's row. |
| `Recommender.RecommendExcludesQuery` | app.py:39-58 | Suppose titles are unique and the query's own score is strictly the highest in its row. Then the query's title is not among the recommended names. |
| `Recommender.NamesIgnorePosters` | app.py:52-58 | For any failed request, and any JSON object whose `poster_path` is a string or null, the recommended titles do not depend on the image service's answers. A missing poster never removes or reorders a movie. |
| `Recommender.ExampleNeighbours` | app.py:39-47 | Catalog A, B, C, D with row `[1.0, 0.9, 0.9, 0.1]` for "A": the kept pairs are B, C, D in that order. B and C tie, and the lower position comes first. |
| `Recommender.WorkedExample` | app.py:35-58 | In the same example, where the poster request for C fails, the names are B, C, D. The posters are B's URL, `None`, then D's URL. |

## Left out

- The Streamlit interface is not modelled: header, select box, button, columns, images, captions, and the error and warning messages. It is presentation only.
- Loading the pickled catalog and matrix, and its `FileNotFoundError` handling, are not modelled. They are file I/O. The catalog and matrix are immutable sequences given as inputs.
- The HTTP request, `raise_for_status` and JSON decoding in `fetch_poster` are not modelled. They are network I/O, and their outcome is the `PosterResponse` input. `requests.get` is called without a timeout, so a request that never answers blocks `recommend` forever; the total `fetch` assumes every request yields a response. With `requests` 2.27 and later, JSON decoding errors derive from the `requests` exception type, so they fall under `RequestFailed`; earlier versions raise a `ValueError` subclass that escapes `fetch_poster` and ends in the generic branch below with `[], []`, which the model does not follow. The `KeyError` branch cannot be reached through `dict.get`, and its result is the same `None` in any case.
- The generic `except Exception` branch of `recommend` is not modelled. It catches unspecified runtime failures, such as a non-dict JSON body or a truthy non-string `poster_path` (a falsy one gives `None` without raising). Its observable behaviour is returning `[], []`. Because `PosterResponse` cannot express those two answers, the model never takes this path: for them the source returns `[], []` where the model returns the full lists, so the titles the source returns do depend on the image service in those cases.
- `Catalog.FindTitle`: returns a position, and the model uses it both as the row of the similarity matrix and as the `iloc` position. The code uses the row label from `.index[0]` for the matrix row, while `iloc` is positional. Label and position agree only when the catalog table has the default index 0..N-1, which the model assumes. With other labels the code reads a different matrix row, or raises `IndexError` and returns `[], []`.
- The debug `print` calls are not modelled. They are logging only.
- Floating-point scores are not modelled. Scores are exact reals compared with `<` and `==`, so NaN does not arise.
- The matrix row is never assumed symmetric or square except in `Recommender.RecommendLength` and `Recommender.RecommendExcludesQuery`. The code does not rely on either property. A matrix with fewer rows than the catalog can lack the query's row, and a row longer than the catalog can yield an index with no catalog row; both go down the `IndexError` path. A row shorter than the catalog just gives fewer recommendations.
