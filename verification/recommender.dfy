/**
 `recommend`: resolve the title, rank its similarity row, keep ranks 1 to 5 and
 turn each kept column back into a title and a poster URL. Every `IndexError`
 on the way (unknown title, missing matrix row, missing catalog row) yields two
 empty lists instead of an exception.
 */
module Recommender {
  import opened Wrappers
  import opened Catalog
  import opened Ranking
  import opened Poster

  /** The two parallel lists `recommend` returns: titles and poster URLs (or `None`). */
  datatype Recommendation = Recommendation(names: seq<string>, posters: seq<Option<string>>)

  /** The `[], []` returned when an `IndexError` is caught. */
  const NoRecommendation: Recommendation := Recommendation([], [])

  /**
   A catalog and matrix as the notebook that writes the pickle files produces them: one square row
   of scores per catalog movie.
   */
  predicate WellFormed(catalog: seq<Movie>, sim: seq<seq<real>>) {
    && |sim| == |catalog|
    && forall i :: 0 <= i < |sim| ==> |sim[i]| == |catalog|
  }

  /**
   The kept pairs for `title`, or `None` when resolving the title or reading
   its matrix row raises `IndexError`.
   */
  function Neighbours(catalog: seq<Movie>, sim: seq<seq<real>>, title: string): (r: Option<seq<Pair>>)
    ensures !Lists(catalog, title) ==> r.None?
    ensures Lists(catalog, title) ==>
      var q := FindTitle(catalog, title).value;
      if q < |sim| then r == Some(TopNeighbours(sim[q])) else r.None?
    ensures r.Some? ==> |r.value| <= K && Ranked(r.value)
  {
    match FindTitle(catalog, title)
    case None => None
    case Some(q) => if q < |sim| then Some(TopNeighbours(sim[q])) else None
  }

  /** Every kept index names a catalog row, so `movies.iloc` does not raise. */
  predicate InCatalog(catalog: seq<Movie>, kept: seq<Pair>) {
    forall j :: 0 <= j < |kept| ==> kept[j].index < |catalog|
  }

  /**
   `rec` lists, in ranked order, the title of each kept movie and the poster
   URL fetched for that same movie's id; a missing poster keeps its slot.
   */
  predicate Describes(catalog: seq<Movie>, kept: seq<Pair>, fetch: int -> PosterResponse, rec: Recommendation) {
    && InCatalog(catalog, kept)
    && |rec.names| == |kept|
    && |rec.posters| == |kept|
    && forall j :: 0 <= j < |kept| ==>
         && rec.names[j] == catalog[kept[j].index].title
         && rec.posters[j] == PosterUrl(fetch(catalog[kept[j].index].id))
  }

  /**
   The loop over the kept pairs: it fails on the first index with no catalog
   row, and otherwise builds the parallel name and poster lists.
   */
  function Describe(catalog: seq<Movie>, kept: seq<Pair>, fetch: int -> PosterResponse): (r: Option<Recommendation>)
    ensures r.Some? <==> InCatalog(catalog, kept)
    ensures r.Some? ==> Describes(catalog, kept, fetch, r.value)
  {
    if kept == [] then Some(NoRecommendation)
    else if kept[0].index >= |catalog| then None
    else
      var movie := catalog[kept[0].index];
      match Describe(catalog, kept[1..], fetch)
      case None =>
        assert !InCatalog(catalog, kept) by {
          var j :| 0 <= j < |kept[1..]| && kept[1..][j].index >= |catalog|;
          assert kept[j + 1] == kept[1..][j];
        }
        None
      case Some(rest) =>
        var rec := Recommendation([movie.title] + rest.names, [PosterUrl(fetch(movie.id))] + rest.posters);
        assert forall j :: 1 <= j < |kept| ==> kept[j] == kept[1..][j - 1];
        Some(rec)
  }

  /**
   `recommend(title)`, with the HTTP outcome for each movie id supplied by
   `fetch`.
   */
  function Recommend(catalog: seq<Movie>, sim: seq<seq<real>>, title: string, fetch: int -> PosterResponse): (r: Recommendation)
    ensures !Lists(catalog, title) ==> r == NoRecommendation
    ensures |r.names| == |r.posters| <= K
    ensures Neighbours(catalog, sim, title).None? ==> r == NoRecommendation
    ensures Neighbours(catalog, sim, title).Some? ==>
      var kept := Neighbours(catalog, sim, title).value;
      if InCatalog(catalog, kept) then Describes(catalog, kept, fetch, r) else r == NoRecommendation
  {
    match Neighbours(catalog, sim, title)
    case None => NoRecommendation
    case Some(kept) =>
      match Describe(catalog, kept, fetch)
      case None => NoRecommendation
      case Some(rec) => rec
  }

  /**
   On a well-formed catalog and matrix, a listed title yields `min(5, N - 1)`
   recommendations: the titles and posters of ranks 1 to 5 of the first
   matching movie's row.
   */
  lemma RecommendLength(catalog: seq<Movie>, sim: seq<seq<real>>, title: string, fetch: int -> PosterResponse)
    requires WellFormed(catalog, sim) && Lists(catalog, title)
    ensures var q := FindTitle(catalog, title).value;
      && |Recommend(catalog, sim, title, fetch).names| == Min(K, |catalog| - 1)
      && Describes(catalog, TopNeighbours(sim[q]), fetch, Recommend(catalog, sim, title, fetch))
  {
  }

  /**
   When titles are unique and the query's self-score is strictly the highest
   of its row, its own title is not recommended.
   */
  lemma RecommendExcludesQuery(catalog: seq<Movie>, sim: seq<seq<real>>, q: nat, fetch: int -> PosterResponse)
    requires WellFormed(catalog, sim) && q < |catalog|
    requires forall i, j :: 0 <= i < j < |catalog| ==> catalog[i].title != catalog[j].title
    requires forall j :: 0 <= j < |catalog| && j != q ==> sim[q][j] < sim[q][q]
    ensures catalog[q].title !in Recommend(catalog, sim, catalog[q].title, fetch).names
  {
    var title := catalog[q].title;
    assert FindTitle(catalog, title) == Some(q);
    RecommendLength(catalog, sim, title, fetch);
    SelfExcludedWhenStrictMax(sim[q], q);
    var kept := TopNeighbours(sim[q]);
    var names := Recommend(catalog, sim, title, fetch).names;
    forall j | 0 <= j < |names| ensures names[j] != title {
      assert kept[j] in kept;
      assert names[j] == catalog[kept[j].index].title;
    }
  }

  /**
   The poster outcome never removes or reorders a movie: the recommended titles
   do not depend on what the image service answers.
   */
  lemma NamesIgnorePosters(catalog: seq<Movie>, sim: seq<seq<real>>, title: string, f: int -> PosterResponse, g: int -> PosterResponse)
    ensures Recommend(catalog, sim, title, f).names == Recommend(catalog, sim, title, g).names
  {
  }

  /** The catalog of the worked example: four movies "A" to "D" with ids 1 to 4. */
  predicate IsExampleCatalog(catalog: seq<Movie>) {
    catalog == [Movie(1, "A"), Movie(2, "B"), Movie(3, "C"), Movie(4, "D")]
  }

  /** The matrix of the worked example; in row 0, "A"'s, "B" and "C" are tied. */
  predicate IsExampleSimilarity(sim: seq<seq<real>>) {
    && |sim| == 4
    && sim[0] == [1.0, 0.9, 0.9, 0.1]
  }

  /** In the worked example "A" keeps "B" and "C" (tied, lower position first) and then "D". */
  lemma ExampleNeighbours(catalog: seq<Movie>, sim: seq<seq<real>>)
    requires IsExampleCatalog(catalog) && IsExampleSimilarity(sim)
    ensures Neighbours(catalog, sim, "A") == Some([Pair(1, 0.9), Pair(2, 0.9), Pair(3, 0.1)])
  {
    assert catalog[0].title == "A";
    assert FindTitle(catalog, "A") == Some(0);
    ExampleTop(sim[0]);
  }

  /** The kept pairs of "A"'s row in the worked example. */
  lemma ExampleTop(row: seq<real>)
    requires row == [1.0, 0.9, 0.9, 0.1]
    ensures TopNeighbours(row) == [Pair(1, 0.9), Pair(2, 0.9), Pair(3, 0.1)]
  {
    RankOfOrderedRow(row);
    var e := Enumerate(row);
    assert e[1] == Pair(1, 0.9) && e[2] == Pair(2, 0.9) && e[3] == Pair(3, 0.1);
    assert e[1..4] == [Pair(1, 0.9), Pair(2, 0.9), Pair(3, 0.1)];
  }

  /**
   The worked example end to end: for "A" the result is "B", "C", "D", and a
   failed poster request for "C" (id 3) leaves "C" in place with no URL.
   */
  lemma WorkedExample(catalog: seq<Movie>, sim: seq<seq<real>>, fetch: int -> PosterResponse)
    requires IsExampleCatalog(catalog) && IsExampleSimilarity(sim)
    requires fetch(2) == Body(Some("b.jpg")) && fetch(3) == RequestFailed && fetch(4) == Body(Some("d.jpg"))
    ensures Recommend(catalog, sim, "A", fetch).names == ["B", "C", "D"]
    ensures Recommend(catalog, sim, "A", fetch).posters
         == [Some(ImageBase + "b.jpg"), None, Some(ImageBase + "d.jpg")]
  {
    ExampleNeighbours(catalog, sim);
    var kept := [Pair(1, 0.9), Pair(2, 0.9), Pair(3, 0.1)];
    assert InCatalog(catalog, kept);
    var r := Recommend(catalog, sim, "A", fetch);
    assert Describes(catalog, kept, fetch, r);
    assert r.posters[1] == None;
  }
}
