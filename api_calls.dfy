/** The discover-movie request logic: the query parameters built from a
    `MovieFilter`, the sequence of page requests, and the aggregation of the
    responses into either the movies found or the failing status codes.
    The HTTP calls and the JSON decoding are not part of this model: the
    responses arrive as values. */
module ApiCalls {
  import opened Wrappers
  import opened Text
  import opened Media
  import Languages

  // ------------------------------------------------------------ query

  /** A value of the query dict: `str | int`. */
  datatype Param = IntParam(i: int) | StrParam(s: string)

  type Query = map<string, Param>

  /** Python truthiness of an optional year: present and not 0. */
  predicate Truthy(year: Option<int>) {
    year.Some? && year.value != 0
  }

  /** `date(y, m, d).strftime("%Y-%m-%d")` for a four-digit year and a fixed month and day. */
  function DateString(y: int, monthDay: string): (s: string)
    requires 1000 <= y <= 9999
    ensures |s| == 4 + |monthDay|
  {
    assert |NatToString(y)| == 4 by {
      NatToStringLength4(y);
    }
    NatToString(y) + monthDay
  }

  lemma NatToStringLength4(y: nat)
    requires 1000 <= y <= 9999
    ensures |NatToString(y)| == 4
  {
    assert NatToString(y) == NatToString(y / 10) + [DigitChar(y % 10)];
    assert NatToString(y / 10) == NatToString(y / 100) + [DigitChar(y / 10 % 10)];
    assert NatToString(y / 100) == NatToString(y / 1000) + [DigitChar(y / 100 % 10)];
  }

  /** The year can be read back from the first four characters of the date. */
  lemma DateStringYear(y: int, monthDay: string)
    requires 1000 <= y <= 9999
    ensures var s := DateString(y, monthDay);
      (forall i | 0 <= i < 4 :: IsDigit(s[i])) && DecimalValue(s[..4]) == y
  {
    NatToStringLength4(y);
    NatToStringRoundTrip(y);
    var s := DateString(y, monthDay);
    assert s[..4] == NatToString(y);
  }

  /** A year the query may carry: absent, 0 (falsy, so ignored) or four digits. */
  predicate FormattableYear(year: Option<int>) {
    Truthy(year) ==> 1000 <= year.value <= 9999
  }

  /** The query dict of `_request_movie_recommendation`, before any page is set. */
  method BuildQuery(filter: MovieFilter, minVoteCount: int) returns (query: Query)
    requires FormattableYear(filter.minYear) && FormattableYear(filter.maxYear)
    ensures "with_genres" in query && "sort_by" in query && "vote_count.gte" in query
    ensures query["with_genres"] == IntParam(filter.genre)
    ensures query["sort_by"] == StrParam("MIN_VOTE_COUNT")
    ensures query["vote_count.gte"] == IntParam(minVoteCount)
    ensures "primary_release_year" in query <==> Truthy(filter.year)
    ensures Truthy(filter.year) ==> query["primary_release_year"] == IntParam(filter.year.value)
    ensures "primary_release_date.gte" in query <==> Truthy(filter.minYear)
    ensures Truthy(filter.minYear) ==>
      query["primary_release_date.gte"] == StrParam(DateString(filter.minYear.value, "-01-01"))
    ensures "primary_release_date.lte" in query <==> Truthy(filter.maxYear)
    ensures Truthy(filter.maxYear) ==>
      query["primary_release_date.lte"] == StrParam(DateString(filter.maxYear.value, "-12-31"))
    ensures "with_original_language" in query <==> filter.originalLanguage.Some?
    ensures filter.originalLanguage.Some? ==>
      query["with_original_language"] == StrParam(filter.originalLanguage.value.isoCode)
    ensures query.Keys <= {"with_genres", "sort_by", "vote_count.gte", "primary_release_year",
                           "primary_release_date.gte", "primary_release_date.lte", "with_original_language"}
  {
    query := map[
      "with_genres" := IntParam(filter.genre),
      "sort_by" := StrParam("MIN_VOTE_COUNT"),
      "vote_count.gte" := IntParam(minVoteCount)
    ];
    if Truthy(filter.year) {
      query := query["primary_release_year" := IntParam(filter.year.value)];
    }
    if Truthy(filter.minYear) {
      query := query["primary_release_date.gte" := StrParam(DateString(filter.minYear.value, "-01-01"))];
    }
    if Truthy(filter.maxYear) {
      query := query["primary_release_date.lte" := StrParam(DateString(filter.maxYear.value, "-12-31"))];
    }
    if filter.originalLanguage.Some? {
      query := query["with_original_language" := StrParam(filter.originalLanguage.value.isoCode)];
    }
  }

  // ------------------------------------------------------------ pages

  /** How many requests are sent: the first one, then pages 2 up to
      `min(total_pages, MAX_API_PAGES_COUNT)`. */
  function RequestCount(totalPages: int, maxPages: int): (n: nat)
    ensures n >= 1
    ensures totalPages <= 1 || maxPages <= 1 ==> n == 1
    ensures 1 <= totalPages && 1 <= maxPages ==>
      n <= totalPages && n <= maxPages && (n == totalPages || n == maxPages)
  {
    var last := if totalPages < maxPages then totalPages else maxPages;
    if last <= 1 then 1 else last
  }

  /** The queries sent, in order: the first without a `page` key, then each
      later one with `page` set to 2, 3, ... (the key stays in the dict, so
      request `k` carries page `k + 1`). */
  method PageQueries(query: Query, totalPages: int, maxPages: int) returns (sent: seq<Query>)
    ensures |sent| == RequestCount(totalPages, maxPages)
    ensures sent[0] == query
    ensures forall k | 1 <= k < |sent| :: sent[k] == query["page" := IntParam(k + 1)]
  {
    var q := query;
    sent := [q];
    var last := if totalPages < maxPages then totalPages else maxPages;
    var i := 2;
    while i < last + 1
      invariant 2 <= i && (i <= last + 1 || i == 2)
      invariant |sent| == i - 1
      invariant sent[0] == query
      invariant forall k | 1 <= k < |sent| :: sent[k] == query["page" := IntParam(k + 1)]
      invariant q == if i == 2 then query else query["page" := IntParam(i - 1)]
      decreases last + 1 - i
    {
      assert q["page" := IntParam(i)] == query["page" := IntParam(i)];
      q := q["page" := IntParam(i)];
      sent := sent + [q];
      i := i + 1;
    }
  }

  // ------------------------------------------------------------ aggregation

  /** A response: its status code and, for status 200, the decoded body. */
  datatype Response = Response(statusCode: int, body: MovieResponse)

  /** The status codes of the failed responses, in response order. */
  function FailedCodes(responses: seq<Response>): (codes: seq<int>)
    ensures |codes| <= |responses|
    ensures forall i | 0 <= i < |codes| :: codes[i] != 200
  {
    if responses == [] then []
    else
      var init := responses[..|responses| - 1];
      var last := responses[|responses| - 1];
      FailedCodes(init) + (if last.statusCode != 200 then [last.statusCode] else [])
  }

  /** The movies of the successful responses, concatenated in response order. */
  function FoundMovies(responses: seq<Response>): seq<Movie> {
    if responses == [] then []
    else
      var init := responses[..|responses| - 1];
      var last := responses[|responses| - 1];
      FoundMovies(init) + (if last.statusCode != 200 then [] else last.body.results)
  }

  function IntValues(codes: seq<int>): (vs: seq<Value>)
    ensures |vs| == |codes|
    ensures forall i | 0 <= i < |codes| :: vs[i] == IntValue(codes[i])
  {
    seq(|codes|, i requires 0 <= i < |codes| => IntValue(codes[i]))
  }

  function MovieValues(movies: seq<Movie>): (vs: seq<Value>)
    ensures |vs| == |movies|
    ensures forall i | 0 <= i < |movies| :: vs[i] == MovieValue(movies[i])
  {
    seq(|movies|, i requires 0 <= i < |movies| => MovieValue(movies[i]))
  }

  /** What `get_recommended_movie` returns for the responses: the status
      codes when every request failed, otherwise the movies found. */
  function Aggregate(responses: seq<Response>): seq<Value> {
    var codes := FailedCodes(responses);
    if |codes| == |responses| then IntValues(codes) else MovieValues(FoundMovies(responses))
  }

  /** `get_recommended_movie`, given the responses of the page requests. */
  method GetRecommendedMovie(responses: seq<Response>) returns (result: seq<Value>)
    ensures result == Aggregate(responses)
  {
    var errorCodes: seq<int> := [];
    var moviesData: seq<Movie> := [];
    for i := 0 to |responses|
      invariant errorCodes == FailedCodes(responses[..i])
      invariant moviesData == FoundMovies(responses[..i])
    {
      var response := responses[i];
      assert responses[..i + 1][..i] == responses[..i];
      if response.statusCode != 200 {
        errorCodes := errorCodes + [response.statusCode];
      } else {
        moviesData := moviesData + response.body.results;
      }
    }
    assert responses[..|responses|] == responses;
    if |errorCodes| == |responses| {
      return IntValues(errorCodes);
    }
    return MovieValues(moviesData);
  }

  /** Every response is counted as failed exactly when none has status 200. */
  lemma {:induction false} AllFailedIff(responses: seq<Response>)
    ensures |FailedCodes(responses)| == |responses| <==>
      forall i | 0 <= i < |responses| :: responses[i].statusCode != 200
  {
    if responses != [] {
      var init := responses[..|responses| - 1];
      AllFailedIff(init);
      assert forall i | 0 <= i < |init| :: init[i] == responses[i];
    }
  }

  /** When every request failed the codes are exactly the responses' status codes. */
  lemma {:induction false} AllFailedCodes(responses: seq<Response>)
    requires forall i | 0 <= i < |responses| :: responses[i].statusCode != 200
    ensures FailedCodes(responses) == seq(|responses|, i requires 0 <= i < |responses| => responses[i].statusCode)
  {
    if responses != [] {
      var init := responses[..|responses| - 1];
      AllFailedCodes(init);
    }
  }

  /** The aggregated list is never mixed: a non-empty list of status codes
      when every request failed, otherwise only movies (possibly none). */
  lemma AggregateShape(responses: seq<Response>)
    requires responses != []
    ensures var r := Aggregate(responses);
      if forall i | 0 <= i < |responses| :: responses[i].statusCode != 200 then
        r != [] && forall i | 0 <= i < |r| :: r[i].IntValue? && r[i].i != 200
      else
        forall i | 0 <= i < |r| :: r[i].MovieValue?
  {
    AllFailedIff(responses);
  }

  /** With at least one successful response the movies of all successful
      responses are returned, in response order. */
  lemma {:induction false} FoundMoviesOfSuccesses(responses: seq<Response>, k: nat)
    requires k < |responses| && responses[k].statusCode == 200
    ensures Aggregate(responses) == MovieValues(FoundMovies(responses))
  {
    AllFailedIff(responses);
  }
}
