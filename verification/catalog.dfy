/**
 The movie catalog: an immutable sequence of movies whose position is also the
 row and column of the movie in the similarity matrix.
 */
module Catalog {
  import opened Wrappers

  /** One catalog row: the external TMDB identifier and the display title. */
  datatype Movie = Movie(id: int, title: string)

  /** True when some catalog row carries exactly `title`. */
  predicate Lists(catalog: seq<Movie>, title: string) {
    exists i :: 0 <= i < |catalog| && catalog[i].title == title
  }

  /**
   The position of the first movie whose title equals `title` exactly, or `None`
   when there is none (the lookup then raises `IndexError` in the source). The
   position stands for the row label the source reads, which assumes the
   catalog table carries the default labels 0..N-1.
   */
  function FindTitle(catalog: seq<Movie>, title: string): (r: Option<nat>)
    ensures r.Some? ==> r.value < |catalog| && catalog[r.value].title == title
    ensures r.Some? ==> forall j :: 0 <= j < r.value ==> catalog[j].title != title
    ensures r.None? <==> !Lists(catalog, title)
  {
    if catalog == [] then None
    else if catalog[0].title == title then Some(0)
    else
      match FindTitle(catalog[1..], title)
      case None =>
        assert forall j :: 1 <= j < |catalog| ==> catalog[j] == catalog[1..][j - 1];
        None
      case Some(i) =>
        assert catalog[i + 1] == catalog[1..][i];
        Some(i + 1)
  }
}
