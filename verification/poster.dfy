/**
 The URL assembly of the poster fetch. The HTTP request and the JSON decoding
 are not modelled: their outcome is the input `PosterResponse`.
 */
module Poster {
  import opened Wrappers

  /** The TMDB image base every poster URL starts with. */
  const ImageBase: string := "https://image.tmdb.org/t/p/w500/"

  /**
   What the movie-details request produced: a request failure (connection
   error or a 4xx/5xx status), or a JSON body whose `poster_path` field is
   present with a string or absent/null.
   */
  datatype PosterResponse = RequestFailed | Body(posterPath: Option<string>)

  /** True when the response carries a poster path Python treats as truthy. */
  predicate HasPosterPath(resp: PosterResponse) {
    resp.Body? && resp.posterPath.Some? && resp.posterPath.value != ""
  }

  /**
   The poster URL for one response: the image base followed by the path when
   the path is present and non-empty, otherwise `None`; a failed request is
   absorbed into `None` as well.
   */
  function PosterUrl(resp: PosterResponse): (r: Option<string>)
    ensures r.Some? <==> HasPosterPath(resp)
    ensures r.Some? ==> |r.value| > |ImageBase| && r.value[..|ImageBase|] == ImageBase
    ensures r.Some? ==> r.value[|ImageBase|..] == resp.posterPath.value
  {
    match resp
    case RequestFailed => None
    case Body(path) =>
      if path.Some? && path.value != "" then Some(ImageBase + path.value) else None
  }

  /** Two responses yield the same URL only when they carry the same poster path. */
  lemma PosterUrlInjective(a: PosterResponse, b: PosterResponse)
    requires PosterUrl(a).Some? && PosterUrl(a) == PosterUrl(b)
    ensures a.posterPath == b.posterPath
  {
  }
}
