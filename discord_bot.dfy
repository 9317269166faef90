/** The decision logic of the bot's slash commands: the language
    autocompletion, the validation and normalisation of the year arguments of
    `/recommend_movie`, and the reply chosen for the result of the movie
    query. Discord itself (events, option declarations, sending messages) is
    not part of this model. */
module DiscordBot {
  import opened Wrappers
  import opened Text
  import opened Media
  import opened Languages
  import opened TypeChecks
  import opened ApiCalls

  // ------------------------------------------------------------ autocomplete

  /** An autocomplete option: the shown name and the submitted value. */
  datatype Choice = Choice(name: string, value: string)

  /** Discord accepts at most this many autocomplete options. */
  const ChoicesLimit: nat := 25

  /** `user_input in english.lower() or user_input in local.lower()`, where
      `local` falls back to the English name. */
  predicate Suggests(lang: Language, userInput: string) {
    IsSubstring(userInput, Lower(lang.englishName)) || IsSubstring(userInput, Lower(DisplayName(lang)))
  }

  /** The option offered for a language: its local name (or English name) and its ISO code. */
  function ChoiceFor(lang: Language): (c: Choice)
    ensures c.value == lang.isoCode
    ensures HasLocalName(lang) ==> c.name == lang.localName.value
    ensures !HasLocalName(lang) ==> c.name == lang.englishName
  {
    Choice(DisplayName(lang), lang.isoCode)
  }

  /** The positions of the suggested languages, in enumeration order. */
  function Matching(cat: Catalogue, userInput: string): (idx: seq<nat>)
    ensures forall k | 0 <= k < |idx| :: idx[k] < |cat| && Suggests(cat[idx[k]], userInput)
    ensures forall k, l | 0 <= k < l < |idx| :: idx[k] < idx[l]
    ensures forall i | 0 <= i < |cat| :: Suggests(cat[i], userInput) <==> i in idx
  {
    if cat == [] then []
    else
      var init := cat[..|cat| - 1];
      var prev := Matching(init, userInput);
      assert forall i | 0 <= i < |init| :: init[i] == cat[i];
      prev + (if Suggests(cat[|cat| - 1], userInput) then [|cat| - 1] else [])
  }

  /** The options for the given positions. */
  function ChoicesAt(cat: Catalogue, idx: seq<nat>): (choices: seq<Choice>)
    requires forall k | 0 <= k < |idx| :: idx[k] < |cat|
    ensures |choices| == |idx|
    ensures forall k | 0 <= k < |idx| :: choices[k] == ChoiceFor(cat[idx[k]])
  {
    seq(|idx|, k requires 0 <= k < |idx| => ChoiceFor(cat[idx[k]]))
  }

  /** All suggestions for the lower-cased input, before the cap. */
  function Suggestions(cat: Catalogue, userInput: string): seq<Choice> {
    ChoicesAt(cat, Matching(cat, userInput))
  }

  lemma MatchingSnoc(cat: Catalogue, i: nat, userInput: string)
    requires i < |cat|
    ensures Matching(cat[..i + 1], userInput) ==
      Matching(cat[..i], userInput) + (if Suggests(cat[i], userInput) then [i] else [])
  {
    assert cat[..i + 1][..i] == cat[..i];
  }

  lemma ChoicesAtSnoc(cat: Catalogue, idx: seq<nat>, i: nat)
    requires i < |cat| && forall k | 0 <= k < |idx| :: idx[k] < |cat|
    ensures ChoicesAt(cat, idx + [i]) == ChoicesAt(cat, idx) + [Choice(DisplayName(cat[i]), cat[i].isoCode)]
  {
  }

  /** `autocomplete_language`: every language whose English or local name
      contains the lower-cased input, in enumeration order, cut to 25. */
  method AutocompleteLanguage(cat: Catalogue, value: string) returns (choices: seq<Choice>)
    ensures var all := Suggestions(cat, Lower(value));
      choices == all[..if |all| < ChoicesLimit then |all| else ChoicesLimit]
  {
    var userInput := Lower(value);
    var matches: seq<Choice> := [];
    ghost var idx: seq<nat> := [];
    for i := 0 to |cat|
      invariant idx == Matching(cat[..i], userInput)
      invariant forall k | 0 <= k < |idx| :: idx[k] < |cat|
      invariant matches == ChoicesAt(cat, idx)
    {
      MatchingSnoc(cat, i, userInput);
      var lang := cat[i];
      var english := lang.englishName;
      var local := if HasLocalName(lang) then lang.localName.value else english;
      var code := lang.isoCode;
      if IsSubstring(userInput, Lower(english)) || IsSubstring(userInput, Lower(local)) {
        ChoicesAtSnoc(cat, idx, i);
        matches := matches + [Choice(local, code)];
        idx := idx + [i];
      }
    }
    assert cat[..|cat|] == cat;
    choices := matches[..if |matches| < ChoicesLimit then |matches| else ChoicesLimit];
  }

  /** Before the cap, a language whose names contain the input is among the
      suggestions, as its own option. */
  lemma AutocompleteOffers(cat: Catalogue, value: string, i: nat)
    requires i < |cat| && Suggests(cat[i], Lower(value))
    ensures exists k | 0 <= k < |Suggestions(cat, Lower(value))| ::
      Suggestions(cat, Lower(value))[k] == ChoiceFor(cat[i])
  {
    var idx := Matching(cat, Lower(value));
    var k :| 0 <= k < |idx| && idx[k] == i;
    assert Suggestions(cat, Lower(value))[k] == ChoiceFor(cat[i]);
  }

  /** The matches among the first `j` languages begin the matches of the whole catalogue. */
  lemma {:induction false} MatchingPrefix(cat: Catalogue, j: nat, userInput: string)
    requires j <= |cat|
    ensures Matching(cat[..j], userInput) <= Matching(cat, userInput)
    decreases |cat| - j
  {
    if j == |cat| {
      assert cat[..j] == cat;
    } else {
      MatchingPrefix(cat, j + 1, userInput);
      MatchingSnoc(cat, j, userInput);
    }
  }

  /** After the cap, a language whose names contain the input is still
      offered when fewer than 25 matching languages come before it. */
  lemma AutocompleteOffersWithinCap(cat: Catalogue, value: string, i: nat)
    requires i < |cat| && Suggests(cat[i], Lower(value))
    requires |Matching(cat[..i], Lower(value))| < ChoicesLimit
    ensures var all := Suggestions(cat, Lower(value));
      ChoiceFor(cat[i]) in all[..if |all| < ChoicesLimit then |all| else ChoicesLimit]
  {
    var u := Lower(value);
    var before := Matching(cat[..i], u);
    MatchingSnoc(cat, i, u);
    MatchingPrefix(cat, i + 1, u);
    var idx := Matching(cat, u);
    assert idx[|before|] == i;
    var all := Suggestions(cat, u);
    var capped := all[..if |all| < ChoicesLimit then |all| else ChoicesLimit];
    assert capped[|before|] == ChoiceFor(cat[i]);
  }

  /** Only languages whose names contain the input are offered. */
  lemma AutocompleteOnlyMatches(cat: Catalogue, value: string, k: nat)
    requires k < |Suggestions(cat, Lower(value))|
    ensures exists i | 0 <= i < |cat| ::
      Suggests(cat[i], Lower(value)) && Suggestions(cat, Lower(value))[k] == ChoiceFor(cat[i])
  {
    var idx := Matching(cat, Lower(value));
    assert Suggests(cat[idx[k]], Lower(value));
  }

  /** The input is matched regardless of its letter case. */
  lemma AutocompleteCaseInsensitive(cat: Catalogue, a: string, b: string)
    requires Lower(a) == Lower(b)
    ensures Suggestions(cat, Lower(a)) == Suggestions(cat, Lower(b))
  {
  }

  /** The positions `0, 1, ..., n - 1`. */
  function Indices(n: nat): (idx: seq<nat>)
    ensures |idx| == n
    ensures forall k | 0 <= k < n :: idx[k] == k
  {
    if n == 0 then [] else Indices(n - 1) + [n - 1]
  }

  /** An empty input suggests every language, so the first 25 are offered. */
  lemma {:induction false} EmptyInputSuggestsAll(cat: Catalogue)
    ensures Matching(cat, []) == Indices(|cat|)
  {
    if cat != [] {
      var init := cat[..|cat| - 1];
      EmptyInputSuggestsAll(init);
      EmptyIsSubstring(Lower(cat[|cat| - 1].englishName));
    }
  }

  // ------------------------------------------------------------ year validation

  const BothError: string := "Pick either a specific year OR a range, not both."
  const OrderError: string := "Minimum year cannot be greater than maximum year."

  /** The year arguments after validation, as the filter will carry them:
      never a year together with a bound, never an empty or inverted range. */
  predicate WellFormedYears(year: Option<int>, minYear: Option<int>, maxYear: Option<int>) {
    && !(year.Some? && (minYear.Some? || maxYear.Some?))
    && (minYear.Some? && maxYear.Some? ==> minYear.value < maxYear.value)
  }

  /** The validation prefix of `recommend_movie`: collect the errors in the
      order they are checked, and turn a one-year range into a single year. */
  method ValidateYears(year: Option<int>, minYear: Option<int>, maxYear: Option<int>)
    returns (errors: seq<string>, newYear: Option<int>, newMin: Option<int>, newMax: Option<int>)
    ensures var both := year.Some? && (minYear.Some? || maxYear.Some?);
      var inverted := minYear.Some? && maxYear.Some? && minYear.value > maxYear.value;
      errors == (if both then [BothError] else []) + (if inverted then [OrderError] else [])
    ensures minYear.Some? && maxYear.Some? && minYear.value == maxYear.value ==>
      newYear == minYear && newMin.None? && newMax.None?
    ensures !(minYear.Some? && maxYear.Some? && minYear.value == maxYear.value) ==>
      newYear == year && newMin == minYear && newMax == maxYear
    ensures errors == [] ==> WellFormedYears(newYear, newMin, newMax)
  {
    errors := [];
    newYear, newMin, newMax := year, minYear, maxYear;
    if year.Some? && (minYear.Some? || maxYear.Some?) {
      errors := errors + [BothError];
    }
    if minYear.Some? && maxYear.Some? {
      if minYear.value > maxYear.value {
        errors := errors + [OrderError];
      } else if minYear.value == maxYear.value {
        newYear := minYear;
        newMin, newMax := None, None;
      }
    }
  }

  // ------------------------------------------------------------ recommend_movie

  /** The language `Language.from_fuzzy` resolves the argument to. */
  ghost predicate ResolvesTo(cat: Catalogue, ratio: Ratio, argument: Option<string>, lang: Option<Language>) {
    match argument
    case None => lang.None?
    case Some(text) =>
      exists r: Option<nat> | IsFuzzyResult(cat, Normalize(text), ratio, r) ::
        if r.Some? then r.value < |cat| && lang == Some(cat[r.value]) else lang.None?
  }

  /** What `recommend_movie` does after validation: reply with the errors,
      or query with the filter. */
  datatype Step = ReplyErrors(text: string) | QueryMovies(filter: MovieFilter)

  /** The argument handling of `recommend_movie` up to the building of the filter. */
  method RecommendMovieArguments(cat: Catalogue, ratio: Ratio, genre: int, year: Option<int>,
                                 minYear: Option<int>, maxYear: Option<int>, originalLanguage: Option<string>)
    returns (step: Step)
    ensures var both := year.Some? && (minYear.Some? || maxYear.Some?);
      var inverted := minYear.Some? && maxYear.Some? && minYear.value > maxYear.value;
      (step.ReplyErrors? <==> both || inverted)
      && (step.ReplyErrors? ==>
            step.text == Join((if both then [BothError] else []) + (if inverted then [OrderError] else []), "\n"))
    ensures step.QueryMovies? ==>
      && step.filter.genre == genre
      && WellFormedYears(step.filter.year, step.filter.minYear, step.filter.maxYear)
      && ResolvesTo(cat, ratio, originalLanguage, step.filter.originalLanguage)
    ensures step.QueryMovies? ==>
      if minYear.Some? && maxYear.Some? && minYear.value == maxYear.value then
        step.filter.year == minYear && step.filter.minYear.None? && step.filter.maxYear.None?
      else
        step.filter.year == year && step.filter.minYear == minYear && step.filter.maxYear == maxYear
  {
    var errors, y, lo, hi := ValidateYears(year, minYear, maxYear);
    var found := FromFuzzy(cat, originalLanguage, ratio);
    var language: Option<Language> := None;
    if found.Some? {
      FromFuzzyInRange(cat, originalLanguage, ratio, found);
      language := Some(cat[found.value]);
    }
    if errors != [] {
      return ReplyErrors(Join(errors, "\n"));
    }
    step := QueryMovies(MovieFilter(genre, y, lo, hi, language));
  }

  /** A fuzzy result names a member of the catalogue. */
  lemma FromFuzzyInRange(cat: Catalogue, query: Option<string>, ratio: Ratio, r: Option<nat>)
    requires query.Some? ==> IsFuzzyResult(cat, Normalize(query.value), ratio, r)
    requires query.None? ==> r.None?
    ensures r.Some? ==> r.value < |cat|
  {
  }

  // ------------------------------------------------------------ reply

  const NoMatches: string := "\U{1F6AB} **No Matches**"
  const UnexpectedContents: string := "An error occurred. Unexpected list contents."

  /** The reply to the result of `get_recommended_movie`. */
  datatype Reply =
    | NoMatchesReply
    | StatusCodesReply(values: seq<Value>)
    | Recommend(movies: seq<Movie>)
    | UnexpectedContentsReply

  function MoviesOf(values: seq<Value>): (movies: seq<Movie>)
    requires forall i | 0 <= i < |values| :: values[i].MovieValue?
    ensures |movies| == |values|
    ensures forall i | 0 <= i < |values| :: values[i] == MovieValue(movies[i])
  {
    seq(|values|, i requires 0 <= i < |values| => values[i].movie)
  }

  /** The dispatch at the end of `recommend_movie`. */
  function Dispatch(result: seq<Value>): (reply: Reply)
    ensures result == [] <==> reply.NoMatchesReply?
    ensures reply.StatusCodesReply? <==> result != [] && result[0].IntValue?
    ensures reply.Recommend? <==> IsListOfMovies(result)
    ensures reply.Recommend? ==> MovieValues(reply.movies) == result
  {
    if |result| == 0 then NoMatchesReply
    else if result[0].IntValue? then StatusCodesReply(result)
    else if IsListOfMovies(result) then Recommend(MoviesOf(result))
    else UnexpectedContentsReply
  }

  /** `str(lst)` for a list of ints: `[a, b, c]`. */
  function IntListRepr(codes: seq<int>): string {
    "[" + Join(seq(|codes|, i requires 0 <= i < |codes| => IntToString(codes[i])), ", ") + "]"
  }

  predicate AllInts(values: seq<Value>) {
    forall i | 0 <= i < |values| :: values[i].IntValue?
  }

  function Ints(values: seq<Value>): seq<int>
    requires AllInts(values)
  {
    seq(|values|, i requires 0 <= i < |values| => values[i].i)
  }

  /** The text of a reply that is a single message (the recommendations are
      formatted elsewhere); a status-code list is shown as Python prints it. */
  function ReplyText(reply: Reply): (text: Option<string>)
    requires reply.StatusCodesReply? ==> AllInts(reply.values)
    ensures text.None? <==> reply.Recommend?
    ensures reply.NoMatchesReply? ==> text == Some(NoMatches)
  {
    match reply
    case NoMatchesReply => Some(NoMatches)
    case StatusCodesReply(values) =>
      Some("An unexpected error has occured. Status codes: " + IntListRepr(Ints(values)))
    case Recommend(_) => None
    case UnexpectedContentsReply => Some(UnexpectedContents)
  }

  /** The status codes read back from their values. */
  lemma IntsOfIntValues(codes: seq<int>)
    ensures AllInts(IntValues(codes)) && Ints(IntValues(codes)) == codes
  {
  }

  /** When every request failed the reply lists their status codes. */
  lemma ReplyWhenAllFailed(responses: seq<Response>)
    requires responses != []
    requires forall i | 0 <= i < |responses| :: responses[i].statusCode != 200
    ensures Dispatch(Aggregate(responses)) == StatusCodesReply(IntValues(FailedCodes(responses)))
  {
    AllFailedIff(responses);
  }

  /** When some request succeeded the reply is "no matches" or the movies found. */
  /** When every request fails, the user reads the failed status codes, in
      response order, as Python prints the list. */
  lemma AllFailedMessage(responses: seq<Response>)
    requires responses != []
    requires forall i | 0 <= i < |responses| :: responses[i].statusCode != 200
    ensures ReplyText(Dispatch(Aggregate(responses))) ==
      Some("An unexpected error has occured. Status codes: " + IntListRepr(FailedCodes(responses)))
  {
    ReplyWhenAllFailed(responses);
    IntsOfIntValues(FailedCodes(responses));
  }

  lemma ReplyWhenSomeSucceeded(responses: seq<Response>, k: nat)
    requires k < |responses| && responses[k].statusCode == 200
    ensures var reply := Dispatch(Aggregate(responses));
      if FoundMovies(responses) == [] then reply.NoMatchesReply?
      else reply == Recommend(FoundMovies(responses))
  {
    FoundMoviesOfSuccesses(responses, k);
    var movies := FoundMovies(responses);
    var r := Aggregate(responses);
    if movies != [] {
      assert MoviesOf(r) == movies;
    }
  }

  /** From the responses to the reply: the status codes when every request
      failed, "no matches" when the successful ones found nothing, and the
      movies otherwise; the "unexpected contents" reply is never reached. */
  lemma ReplyForResponses(responses: seq<Response>)
    requires responses != []
    ensures var reply := Dispatch(Aggregate(responses));
      && ((forall i | 0 <= i < |responses| :: responses[i].statusCode != 200) ==>
            reply.StatusCodesReply? && AllInts(reply.values)
            && Ints(reply.values) == FailedCodes(responses))
      && ((exists i | 0 <= i < |responses| :: responses[i].statusCode == 200) ==>
            if FoundMovies(responses) == [] then reply.NoMatchesReply?
            else reply == Recommend(FoundMovies(responses)))
      && !reply.UnexpectedContentsReply?
  {
    if forall i | 0 <= i < |responses| :: responses[i].statusCode != 200 {
      ReplyWhenAllFailed(responses);
      IntsOfIntValues(FailedCodes(responses));
    } else {
      var k :| 0 <= k < |responses| && responses[k].statusCode == 200;
      ReplyWhenSomeSucceeded(responses, k);
    }
  }
}
