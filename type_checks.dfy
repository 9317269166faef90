/** The type guards that tell which kind of list an API call produced. */
module TypeChecks {
  import opened Media

  /** `is_list_of_movies`: `bool(lst) and all(isinstance(x, Movie) for x in lst)`. */
  predicate IsListOfMovies(lst: seq<Value>) {
    |lst| > 0 && forall i | 0 <= i < |lst| :: lst[i].MovieValue?
  }

  /** `is_list_of_tvshows`: the same test for `TVShow`. */
  predicate IsListOfTvShows(lst: seq<Value>) {
    |lst| > 0 && forall i | 0 <= i < |lst| :: lst[i].TVShowValue?
  }

  /** The empty list is neither a list of movies nor a list of TV shows. */
  lemma EmptyIsNeither()
    ensures !IsListOfMovies([]) && !IsListOfTvShows([])
  {
  }

  /** A list holding both a movie and a TV show fails both guards. */
  lemma MixedIsNeither(lst: seq<Value>, i: nat, j: nat)
    requires i < |lst| && j < |lst|
    requires lst[i].MovieValue? && lst[j].TVShowValue?
    ensures !IsListOfMovies(lst) && !IsListOfTvShows(lst)
  {
  }

  /** Movies and TV shows are distinct kinds, so no list passes both guards. */
  lemma NeverBoth(lst: seq<Value>)
    ensures !(IsListOfMovies(lst) && IsListOfTvShows(lst))
  {
    if IsListOfMovies(lst) {
      assert lst[0].MovieValue?;
    }
  }

  /** Appending a movie to a list of movies keeps it one. */
  lemma MoviesExtend(lst: seq<Value>, m: Movie)
    requires IsListOfMovies(lst) || lst == []
    ensures IsListOfMovies(lst + [MovieValue(m)])
  {
  }
}
