/** The records the bot exchanges with TMDB and passes between its parts:
    the response models (`MediaBase`, `Movie`, `TVShow`, `MovieResponse`,
    `TVShowResponse`) and the discover filters (`MovieFilter`,
    `TVShowFilter`). They carry no behaviour of their own. */
module Media {
  import opened Wrappers
  import Languages

  /** The fields shared by movies and TV shows. */
  datatype MediaBase = MediaBase(
    adult: bool,
    backdropPath: Option<string>,
    genreIds: seq<int>,
    id: int,
    originalLanguage: string,
    overview: string,
    popularity: real,
    posterPath: Option<string>,
    voteAverage: real,
    voteCount: int)

  datatype Movie = Movie(
    base: MediaBase,
    originalTitle: string,
    releaseDate: string,
    title: string,
    video: bool)

  datatype TVShow = TVShow(
    base: MediaBase,
    originCountry: seq<string>,
    originalName: string,
    firstAirDate: string,
    name: string)

  datatype MovieResponse = MovieResponse(page: int, results: seq<Movie>, totalPages: int, totalResults: int)

  datatype TVShowResponse = TVShowResponse(page: int, results: seq<TVShow>, totalPages: int, totalResults: int)

  /** A list element of unknown type, as far as the bot tells them apart:
      a movie, a TV show, an HTTP status code, or anything else. */
  datatype Value = MovieValue(movie: Movie) | TVShowValue(show: TVShow) | IntValue(i: int) | OtherValue

  /** The discover filter for movies; absent fields are `None`. */
  datatype MovieFilter = MovieFilter(
    genre: int,
    year: Option<int>,
    minYear: Option<int>,
    maxYear: Option<int>,
    originalLanguage: Option<Languages.Language>)

  /** The discover filter for TV shows, with the same fields. */
  datatype TVShowFilter = TVShowFilter(
    genre: int,
    year: Option<int>,
    minYear: Option<int>,
    maxYear: Option<int>,
    originalLanguage: Option<Languages.Language>)
}
