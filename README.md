# ase-discord-bot: a verified model of the bot's decision logic

The bot recommends movies on Discord. A user picks a genre, optionally a year
or a year range, and optionally an original language typed as free text. The
bot resolves the language against a fixed catalogue, validates the years,
builds a TMDB "discover" query, pages through the results, and replies with
the movies, a status-code error, or "No Matches". The language and genre
enumerations it relies on are produced by two generator scripts from JSON
datasets. The bot's settings come from environment variables that are
validated at start-up and kept in a one-slot registry.

This project models that logic in Dafny and proves what it promises:

- **Language resolver** (`Languages`, `LanguagesFuzzyFacts`):
  - `from_iso_code` and `from_english_name`: first-match lookups, with an error on a miss;
  - the `all_*` lists;
  - `from_fuzzy`: the imperative double loop. It is proved against `IsFuzzyResult`, a loop-free description of its answer (first exact hit; otherwise the earliest best score, strictly above 0.6). The similarity ratio of `SequenceMatcher` is a parameter.
- **Genre catalogue** (`Genres`): projections, the name-to-id dictionary (the last duplicate wins), and the lookups by name and id.
- **Enum generators** (`LanguageEnumGenerator`, `GenreEnumGenerator`):
  - the key derivation `format_enum_name`;
  - sorting by ISO code or by id;
  - keeping the first entry per key;
  - the assembled module text.
- **Slash command** (`DiscordBot`):
  - the autocomplete filter capped at 25;
  - the year validation and normalisation of `recommend_movie`;
  - the reply chosen for a query result.
- **API calls** (`ApiCalls`): the discover query dictionary, the number of page requests, and the aggregation of the responses into movies or status codes.
- **Configuration** (`Configuration`, `ConfigRegistry`):
  - the environment check, as a function over a string map;
  - the choice of `.env` files;
  - the `Config` object with its defaults;
  - the registry slot, as a class.
- **Type guards and URI dispatch** (`TypeChecks`, `PathParser`).

Shared pieces:

- `Text` models the ASCII behaviour of the Python string builtins the code calls (`lower`, `upper`, `strip`, `in`, `replace`, `join`, `isdigit`, `str(int)`).
- `Sorting` holds a stable insertion sort. It stands for `sorted` with a key.
- `Media` holds the response and filter records.
- `Wrappers` holds `Option`, `Result` and `Outcome`.

Enum members are identified by their position in the catalogue, so lookups return indices.

## Model

| member | source | states |
|---|---|---|
| Languages.DisplayName | src/ase_discord_bot/api_util/model/languages_base.py:33 | the local name when it is present and non-empty, the English name otherwise |
| Languages.AllIsoCodes | src/ase_discord_bot/api_util/model/languages_base.py:19-21 | one entry per member, in enumeration order, each the member's ISO code |
| Languages.AllEnglishNames | src/ase_discord_bot/api_util/model/languages_base.py:23-25 | one entry per member, in order, each the member's English name |
| Languages.AllLocalNames | src/ase_discord_bot/api_util/model/languages_base.py:27-29 | one entry per member, in order, each the member's (optional) local name |
| Languages.AllNames | src/ase_discord_bot/api_util/model/languages_base.py:31-33 | one entry per member, in order, each its local name falling back to the English name |
| Languages.FromIsoCode | src/ase_discord_bot/api_util/model/languages_base.py:35-40 | on success, the first member with that ISO code; fails, with the code, exactly when no member has it |
| Languages.FromEnglishName | src/ase_discord_bot/api_util/model/languages_base.py:42-47 | on success, the first member with that English name; fails, with the name, exactly when no member has it |
| Languages.Normalize | src/ase_discord_bot/api_util/model/languages_base.py:53 | the query stripped of surrounding white space and lower-cased |
| Languages.Candidates | src/ase_discord_bot/api_util/model/languages_base.py:58-63 | the lower-cased ISO code and English name, then the lower-cased local name only when it is present and non-empty |
| Languages.Score | src/ase_discord_bot/api_util/model/languages_base.py:69-72 | len(query)/len(candidate) when the query is a substring of the candidate, the similarity ratio otherwise |
| Languages.IsFuzzyResult | src/ase_discord_bot/api_util/model/languages_base.py:49-81 | the answer without loops: the first member with the query as a candidate; otherwise the earliest member holding the highest score if that score is above 0.6, else None |
| Languages.MissesIsNoExactHit | src/ase_discord_bot/api_util/model/languages_base.py:58-67 | no candidate of the first n members equals the query iff none of those members has the query among its candidates |
| Languages.TracksStep | src/ase_discord_bot/api_util/model/languages_base.py:69-76 | scoring one more candidate and keeping it only on a strictly greater score preserves the running-best invariant |
| Languages.TracksNextMember | src/ase_discord_bot/api_util/model/languages_base.py:57-65 | finishing one member's candidates is the same scan state as starting the next member |
| Languages.ExactHitResult | src/ase_discord_bot/api_util/model/languages_base.py:66-67 | the first candidate equal to the query, reached with no earlier hit, makes its member the described result |
| Languages.TracksAtEnd | src/ase_discord_bot/api_util/model/languages_base.py:78-81 | after the whole scan without a hit, the best member if its score is above 0.6 and None otherwise is the described result |
| Languages.ScanCandidates | src/ase_discord_bot/api_util/model/languages_base.py:65-76 | the inner loop either stops at an exact hit, whose member is then the result, or ends with the running best updated over all of the member's candidates |
| Languages.FromFuzzy | src/ase_discord_bot/api_util/model/languages_base.py:49-81 | None for a None query; otherwise the result is exactly the loop-free description applied to the stripped, lower-cased query |
| LanguagesFuzzyFacts.FuzzyResultUnique | src/ase_discord_bot/api_util/model/languages_base.py:49-81 | the description admits exactly one answer for each query |
| LanguagesFuzzyFacts.ExactHitWins | src/ase_discord_bot/api_util/model/languages_base.py:65-67 | if member k has the query as a candidate, the result is a member no later than k that also has it, whatever the scores |
| LanguagesFuzzyFacts.TieGoesToEarliest | src/ase_discord_bot/api_util/model/languages_base.py:74-76 | with no exact hit, no member before the returned one holds the maximal score: every holder of it sits at or after the returned member (ties go to the earliest) |
| LanguagesFuzzyFacts.NoScoreAboveThresholdNoMatch | src/ase_discord_bot/api_util/model/languages_base.py:78-81 | with no exact hit and every score at most 0.6, the result is None (the threshold is strict) |
| LanguagesFuzzyFacts.SubstringScore | src/ase_discord_bot/api_util/model/languages_base.py:69-70 | a proper substring of a candidate scores len(query)/len(candidate), a value in [0, 1) |
| LanguagesFuzzyFacts.CaseInsensitive | src/ase_discord_bot/api_util/model/languages_base.py:53 | queries equal after lower-casing resolve to the same result |
| LanguagesFuzzyFacts.SurroundingSpaceInsensitive | src/ase_discord_bot/api_util/model/languages_base.py:53 | white space around a query does not change its result |
| LanguagesFuzzyFacts.CandidatesNonEmpty | src/ase_discord_bot/api_util/model/languages_base.py:58-63 | with non-empty ISO code and English name every candidate is non-empty (the local name only joins when non-empty) |
| LanguagesFuzzyFacts.EmptyQueryScoresZero | src/ase_discord_bot/api_util/model/languages_base.py:69-70 | the empty query hits no candidate exactly and scores 0 against all of them |
| LanguagesFuzzyFacts.BlankQueryNoMatch | src/ase_discord_bot/api_util/model/languages_base.py:53-81 | an empty or all-white-space query resolves to None when no ISO code or English name is empty |
| LanguagesFuzzyFacts.EnglishAndGermanCandidates | src/ase_discord_bot/api_util/model/languages_base.py:58-63 | the candidates of English and German are their lower-cased code, English name and local name |
| LanguagesFuzzyFacts.GermNotInEnglish | src/ase_discord_bot/api_util/model/languages_base.py:69 | "germ" is a substring of neither "english" nor "en" |
| LanguagesFuzzyFacts.GermScores | src/ase_discord_bot/api_util/model/languages_base.py:66-72 | "germ" hits nothing exactly, scores 4/6 against "german" and less against every English candidate |
| LanguagesFuzzyFacts.GermResolvesToGerman | src/ase_discord_bot/api_util/model/languages_base.py:49-81 | "germ" resolves to German when its similarity to English's candidates stays below 4/6 |
| Genres.Names | src/ase_discord_bot/api_util/model/genre_base.py:15-17 | one entry per member, in order, each the member's name |
| Genres.Ids | src/ase_discord_bot/api_util/model/genre_base.py:19-21 | one entry per member, in order, each the member's id |
| Genres.AsDict | src/ase_discord_bot/api_util/model/genre_base.py:23-25 | the keys are exactly the members' names, and each name maps to the id of the last member carrying it |
| Genres.NameSetSnoc | src/ase_discord_bot/api_util/model/genre_base.py:23-25 | the names of a catalogue are those of all but its last member plus the last member's name |
| Genres.LastWithNameInit | src/ase_discord_bot/api_util/model/genre_base.py:23-25 | a member that is last with its name stays so when the final member is dropped |
| Genres.AsDictStep | src/ase_discord_bot/api_util/model/genre_base.py:23-25 | adding one member to the comprehension keeps "keys are the names, each mapping to its last member's id" |
| Genres.FromName | src/ase_discord_bot/api_util/model/genre_base.py:31-36 | on success, the first member with that name; fails, with the name, exactly when no member has it |
| Genres.FromId | src/ase_discord_bot/api_util/model/genre_base.py:38-43 | on success, the first member with that id; fails, with the id, exactly when no member has it |
| Genres.LookupRoundTrip | src/ase_discord_bot/api_util/model/genre_base.py:31-43 | looking up a member's id or name succeeds, at or before that member, and gives back the same id or name |
| Genres.FromIdExact | src/ase_discord_bot/api_util/model/genre_base.py:38-43 | with distinct ids, looking up a member's id returns that very member |
| Genres.AsDictAgreesWithFromName | src/ase_discord_bot/api_util/model/genre_base.py:23-36 | with distinct names, a name is a key of the dictionary iff the lookup by name succeeds, and both give the same id |
| Genres.AsDictLastWins | src/ase_discord_bot/api_util/model/genre_base.py:23-25 | when two members share a name, the dictionary holds the id of the later one |
| LanguageEnumGenerator.KeepKeyChars | scripts/generate_languages_enum.py:10 | the filtered key is no longer than its input and contains only alphanumerics and underscores |
| LanguageEnumGenerator.FormatEnumName | scripts/generate_languages_enum.py:6-13 | a non-empty key of alphanumerics and underscores that never starts with a digit; LANG_ is prefixed exactly when the filtered key starts with a digit |
| LanguageEnumGenerator.ReplaceSingle | scripts/generate_languages_enum.py:7-8 | replacing in a one-character string gives the replacement on a match and the character otherwise |
| LanguageEnumGenerator.ReplaceSeparatorsConcat | scripts/generate_languages_enum.py:7-8 | the replace chain works character by character: it distributes over concatenation |
| LanguageEnumGenerator.ReplaceSeparatorsKeeps | scripts/generate_languages_enum.py:7-8 | a character other than space, semicolon, comma, dash and slash is kept |
| LanguageEnumGenerator.ReplaceSeparatorsSingle | scripts/generate_languages_enum.py:7-8 | space, dash and slash become an underscore; semicolon and comma are dropped; anything else is kept |
| LanguageEnumGenerator.KeepKeyCharsConcat | scripts/generate_languages_enum.py:10 | the character filter distributes over concatenation |
| LanguageEnumGenerator.FilteredKeyByCharacter | scripts/generate_languages_enum.py:7-10 | upper-casing, replacing and filtering together equal a per-character mapping |
| LanguageEnumGenerator.KeyCharsConcat | scripts/generate_languages_enum.py:7-10 | the per-character mapping distributes over concatenation |
| LanguageEnumGenerator.KeyCharsOfWord | scripts/generate_languages_enum.py:7-10 | an alphanumeric word maps to its upper-case form |
| LanguageEnumGenerator.CommaSpaceBecomesUnderscore | scripts/generate_languages_enum.py:6-13 | for alphanumeric words u and t with u not starting with a digit, "u, t" becomes UPPER(u) + "_" + UPPER(t) |
| LanguageEnumGenerator.FormatEnumNameExample | scripts/generate_languages_enum.py:6-13 | "Ga, Ewe" becomes GA_EWE |
| LanguageEnumGenerator.FormatEnumNameDigitExample | scripts/generate_languages_enum.py:11-12 | "1-2" becomes LANG_1_2 |
| LanguageEnumGenerator.LocalName | scripts/generate_languages_enum.py:25 | None exactly when the name is all white space; otherwise the stripped, non-empty name |
| LanguageEnumGenerator.IsoLeTotalPreorder | scripts/generate_languages_enum.py:20 | comparing ISO codes as strings is total and transitive, so sorting by them is well defined |
| LanguageEnumGenerator.SortedEntries | scripts/generate_languages_enum.py:20 | a permutation of the dataset in ascending ISO-code order |
| LanguageEnumGenerator.KeysOf | scripts/generate_languages_enum.py:27-31 | the list of keys: one per entry, in order |
| LanguageEnumGenerator.KeepFirst | scripts/generate_languages_enum.py:27-31 | every kept entry comes from the input |
| LanguageEnumGenerator.KeepFirstSnoc | scripts/generate_languages_enum.py:29-31 | one more entry is skipped when its key was already kept, appended otherwise |
| LanguageEnumGenerator.KeySetSnoc | scripts/generate_languages_enum.py:29-31 | the key set grows by the last entry's key |
| LanguageEnumGenerator.InKeysOf | scripts/generate_languages_enum.py:29 | the `key in keys` test is membership in the set of kept keys |
| LanguageEnumGenerator.KeepFirstDistinctKeys | scripts/generate_languages_enum.py:27-31 | no key is emitted twice |
| LanguageEnumGenerator.KeepFirstSameKeys | scripts/generate_languages_enum.py:27-31 | every key of the input is emitted: the kept entries have the same key set |
| LanguageEnumGenerator.KeepFirstIsFirst | scripts/generate_languages_enum.py:27-31 | each kept entry is the first entry of the input with its key |
| LanguageEnumGenerator.KeepFirstCount | scripts/generate_languages_enum.py:27-31 | as many entries are kept as there are distinct keys |
| LanguageEnumGenerator.SortedEntriesSameKeys | scripts/generate_languages_enum.py:20 | sorting does not change the set of keys |
| LanguageEnumGenerator.GeneratedMembers | scripts/generate_languages_enum.py:20-32 | the module gets one member line per distinct key of the dataset, with no key repeated |
| LanguageEnumGenerator.EscapePlain | scripts/generate_languages_enum.py:32 | a string with no quote and nothing to escape is written unchanged |
| LanguageEnumGenerator.ReprPlain | scripts/generate_languages_enum.py:32 | the repr of such a string is the string in single quotes |
| LanguageEnumGenerator.MemberLines | scripts/generate_languages_enum.py:32 | one line per kept entry, in order, of the form KEY = ("iso", "english_name", repr(local)) |
| LanguageEnumGenerator.MemberLine | scripts/generate_languages_enum.py:32 | four spaces, the key, then ("iso", "english_name", repr(local)) |
| LanguageEnumGenerator.ReprString | scripts/generate_languages_enum.py:32 | Python's repr of a string: single quotes unless it contains a single quote and no double quote, with the quote and backslash, tab, newline and carriage return escaped |
| LanguageEnumGenerator.EnumModule | scripts/generate_languages_enum.py:34-39 | the module starts with the import line and the class header, and ends with a newline |
| LanguageEnumGenerator.GenerateStep | scripts/generate_languages_enum.py:22-32 | one loop iteration: a repeated key adds nothing, a new key adds its key and its member line |
| LanguageEnumGenerator.MemberLinesOf | scripts/generate_languages_enum.py:22-32 | the loop's lines are the member lines of the entries kept first per key |
| LanguageEnumGenerator.GenerateLanguageEnum | scripts/generate_languages_enum.py:16-41 | the output is the header followed by the member lines of the ISO-sorted dataset, keeping the first entry per key |
| GenreEnumGenerator.FormatEnumName | scripts/generate_genre_enums.py:6-10 | the key contains no space and no dash |
| GenreEnumGenerator.UpperKeepsSeparators | scripts/generate_genre_enums.py:7 | upper-casing neither adds nor removes spaces, dashes or ampersands |
| GenreEnumGenerator.AmpersandBecomesAnd | scripts/generate_genre_enums.py:8 | for words without spaces or dashes, "u & t" becomes UPPER(u) + "_AND_" + UPPER(t) |
| GenreEnumGenerator.UpperWord | scripts/generate_genre_enums.py:7 | a string whose characters upper-case one by one to a target upper-cases to that target |
| GenreEnumGenerator.FormatEnumNameExample | scripts/generate_genre_enums.py:6-10 | "Action & Adventure" becomes ACTION_AND_ADVENTURE |
| GenreEnumGenerator.SortedById | scripts/generate_genre_enums.py:19-20 | a permutation of the genres in ascending id order |
| GenreEnumGenerator.GenreLines | scripts/generate_genre_enums.py:23-35 | one line per genre, in id order, of the form KEY = ("name", id) |
| GenreEnumGenerator.GenreLine | scripts/generate_genre_enums.py:26-28 | four spaces, the formatted key, then ("name", id) with the original name and id |
| GenreEnumGenerator.GenresModule | scripts/generate_genre_enums.py:38-46 | the import line, two newlines, the MovieGenre header and its lines, two newlines, the SeriesGenre header and its lines |
| GenreEnumGenerator.GenresModuleLayout | scripts/generate_genre_enums.py:38-46 | the text starts with the import line, and the MovieGenre header comes before the SeriesGenre header |
| GenreEnumGenerator.GenerateGenresEnums | scripts/generate_genre_enums.py:13-48 | the output is the module built from the movie lines and the series lines |
| GenreEnumGenerator.OneLinePerGenre | scripts/generate_genre_enums.py:23-35 | exactly one line per input genre: every genre's line appears, and every line is some genre's |
| Sorting.InsertBySorted | scripts/generate_languages_enum.py:20 | inserting into a sorted sequence keeps it sorted |
| Sorting.SortBySorted | scripts/generate_genre_enums.py:19-20 | the sort yields a sorted sequence for any total preorder |
| Text.StripIgnoresSurroundingSpace | src/ase_discord_bot/api_util/model/languages_base.py:53 | strip removes surrounding white space whatever its amount |
| Text.StripLowerCommute | src/ase_discord_bot/api_util/model/languages_base.py:53 | stripping and lower-casing commute |
| DiscordBot.ChoiceFor | src/ase_discord_bot/bot/discord_bot.py:48-54 | the option's value is the ISO code and its name is the local name, falling back to the English name |
| DiscordBot.Matching | src/ase_discord_bot/bot/discord_bot.py:47-54 | the matching members in increasing order: a member is listed iff the input is a substring of its lower-cased English or local name |
| DiscordBot.ChoicesAt | src/ase_discord_bot/bot/discord_bot.py:54 | one option per listed member, in the same order |
| DiscordBot.MatchingSnoc | src/ase_discord_bot/bot/discord_bot.py:47-54 | visiting one more member appends it iff it matches |
| DiscordBot.ChoicesAtSnoc | src/ase_discord_bot/bot/discord_bot.py:54 | one more listed member appends its option |
| DiscordBot.AutocompleteLanguage | src/ase_discord_bot/bot/discord_bot.py:38-57 | the first 25 options (or all of them when fewer) of the matching members, in enumeration order |
| DiscordBot.Suggests | src/ase_discord_bot/bot/discord_bot.py:48-53 | the input occurs in the lower-cased English name or in the lower-cased local name, falling back to the English name |
| DiscordBot.AutocompleteOffers | src/ase_discord_bot/bot/discord_bot.py:53-54 | before the 25-option cap, every matching member's option is among the suggestions |
| DiscordBot.MatchingPrefix | src/ase_discord_bot/bot/discord_bot.py:47-54 | the matches among the first j languages are a prefix of the matches of the whole catalogue |
| DiscordBot.AutocompleteOffersWithinCap | src/ase_discord_bot/bot/discord_bot.py:53-57 | after the cap, a matching language is offered whenever fewer than 25 matching languages come before it |
| DiscordBot.AutocompleteOnlyMatches | src/ase_discord_bot/bot/discord_bot.py:53-54 | every suggestion is the option of a matching member |
| DiscordBot.AutocompleteCaseInsensitive | src/ase_discord_bot/bot/discord_bot.py:43 | inputs equal after lower-casing get the same suggestions |
| DiscordBot.Indices | src/ase_discord_bot/bot/discord_bot.py:47 | the positions 0 to n-1 in order |
| DiscordBot.EmptyInputSuggestsAll | src/ase_discord_bot/bot/discord_bot.py:43-54 | an empty input matches every member, in order |
| DiscordBot.ValidateYears | src/ase_discord_bot/bot/discord_bot.py:95-106 | the "not both" error when a year comes with a bound, then the order error for an inverted range; an equal range becomes that single year; without errors the years are well formed |
| DiscordBot.RecommendMovieArguments | src/ase_discord_bot/bot/discord_bot.py:95-114 | replies with the errors joined by newlines iff there is one; otherwise queries with the genre, the normalised years and the fuzzy-resolved language |
| DiscordBot.FromFuzzyInRange | src/ase_discord_bot/bot/discord_bot.py:108 | a resolved language is a member of the catalogue |
| DiscordBot.MoviesOf | src/ase_discord_bot/bot/discord_bot.py:128-131 | the movies of an all-movie list, in order |
| DiscordBot.Dispatch | src/ase_discord_bot/bot/discord_bot.py:118-135 | "No Matches" iff the result is empty; the status-code message iff the first element is an int; the recommendation iff it is a non-empty list of movies |
| DiscordBot.ReplyText | src/ase_discord_bot/bot/discord_bot.py:118-135 | a single message for every reply except the recommendation (sent as follow-ups); "No Matches" for the empty result; the status codes as Python prints the list |
| DiscordBot.IntsOfIntValues | src/ase_discord_bot/bot/discord_bot.py:124-125 | a list of status codes reads back as those codes |
| DiscordBot.ReplyWhenAllFailed | src/ase_discord_bot/bot/discord_bot.py:124-127 | when every request fails, the reply is the status-code message with the failed codes |
| DiscordBot.AllFailedMessage | src/ase_discord_bot/bot/discord_bot.py:124-127 | when every request fails, the message lists the failed status codes in response order |
| DiscordBot.ReplyWhenSomeSucceeded | src/ase_discord_bot/bot/discord_bot.py:118-131 | when some request succeeds, the reply is "No Matches" for no movies and the recommendation of the found movies otherwise |
| DiscordBot.ReplyForResponses | src/ase_discord_bot/bot/discord_bot.py:116-135 | for any non-empty list of responses, one of those two replies, never "Unexpected list contents" |
| ApiCalls.DateString | src/ase_discord_bot/api_util/api_calls.py:47-52 | a four-digit year followed by the month and day text |
| ApiCalls.NatToStringLength4 | src/ase_discord_bot/api_util/api_calls.py:48 | a year from 1000 to 9999 is written with four digits |
| ApiCalls.DateStringYear | src/ase_discord_bot/api_util/api_calls.py:47-52 | the first four characters of the date are digits that read back as the year |
| ApiCalls.BuildQuery | src/ase_discord_bot/api_util/api_calls.py:37-55 | always the genre, the sort key and the vote minimum; the year, the date bounds and the original language exactly when they are truthy; no other key |
| ApiCalls.RequestCount | src/ase_discord_bot/api_util/api_calls.py:61-68 | exactly one request when the total page count or the configured maximum is at most 1; otherwise the smaller of the two, max(1, min(total_pages, MAX_API_PAGES_COUNT)) in all |
| ApiCalls.PageQueries | src/ase_discord_bot/api_util/api_calls.py:59-70 | the first query has no page key, and the k-th later one sets page k+1 |
| ApiCalls.FailedCodes | src/ase_discord_bot/api_util/api_calls.py:21-23 | the collected codes are all other than 200 and no more than the responses |
| ApiCalls.FoundMovies | src/ase_discord_bot/api_util/api_calls.py:21-26 | the results of the 200 responses, concatenated in response order |
| ApiCalls.Aggregate | src/ase_discord_bot/api_util/api_calls.py:28-32 | the failed codes when every response failed, the found movies otherwise |
| ApiCalls.GetRecommendedMovie | src/ase_discord_bot/api_util/api_calls.py:15-32 | the loop's result is the aggregate: the failed codes when every response failed, the movies found otherwise |
| ApiCalls.AllFailedIff | src/ase_discord_bot/api_util/api_calls.py:29 | as many codes as responses iff every response failed |
| ApiCalls.AllFailedCodes | src/ase_discord_bot/api_util/api_calls.py:21-23 | when every response failed, the codes are the status codes in response order |
| ApiCalls.AggregateShape | src/ase_discord_bot/api_util/api_calls.py:21-32 | all-failed gives a non-empty list of non-200 codes; otherwise a list of movies only |
| ApiCalls.FoundMoviesOfSuccesses | src/ase_discord_bot/api_util/api_calls.py:29-32 | one successful response is enough for the movie list to be returned |
| TypeChecks.EmptyIsNeither | src/ase_discord_bot/util/type_checks.py:19 | the empty list is neither a list of movies nor a list of TV shows |
| TypeChecks.IsListOfMovies | src/ase_discord_bot/util/type_checks.py:5-19 | true iff the list is non-empty and every element is a movie |
| TypeChecks.IsListOfTvShows | src/ase_discord_bot/util/type_checks.py:22-36 | true iff the list is non-empty and every element is a TV show |
| TypeChecks.MixedIsNeither | src/ase_discord_bot/util/type_checks.py:19-36 | a list holding a movie and a TV show passes neither guard |
| TypeChecks.NeverBoth | src/ase_discord_bot/util/type_checks.py:19-36 | no list passes both guards |
| TypeChecks.MoviesExtend | src/ase_discord_bot/util/type_checks.py:19 | appending a movie to a list of movies (or to the empty list) gives a list of movies |
| PathParser.ClassifyUri | src/ase_discord_bot/util/path_parser.py:65-73 | fetched as a URL, unchanged, iff it starts with http:// or https://; otherwise read from the path after file://, or from the string itself |
| PathParser.FileUriRoundTrip | src/ase_discord_bot/util/path_parser.py:68-69 | "file://" + p reads p |
| PathParser.HttpComesFirst | src/ase_discord_bot/util/path_parser.py:65-66 | an http(s) URI is fetched and never reaches the file branch |
| PathParser.LocalPathIsSuffix | src/ase_discord_bot/util/path_parser.py:68-71 | the local path read is a suffix of the URI |
| Configuration.Getenv | src/ase_discord_bot/config.py:107-111 | the variable's value when it is set, the default otherwise |
| Configuration.Unset | src/ase_discord_bot/config.py:56 | exactly the required names that are unset or empty |
| Configuration.CheckEnv | src/ase_discord_bot/config.py:49-82 | the checks in source order, stopping at the first failure: missing variables, guild id not digits, page count not digits or below 1, vote count not digits or negative |
| Configuration.ValidEnv | src/ase_discord_bot/config.py:49-82 | the accepted environments, stated without the order of the checks |
| Configuration.CheckEnvPassIff | src/ase_discord_bot/config.py:49-82 | validation passes iff the four required variables are set, the guild id is all digits, a set page count is all digits and at least 1, and a set vote count is all digits |
| Configuration.MissingNamesExactly | src/ase_discord_bot/config.py:56-60 | the missing-variables exit names exactly the unset or empty required variables, and at least one |
| Configuration.NonDigitPagesRejected | src/ase_discord_bot/config.py:66-69 | a page count of "abc" exits with "must be an integer" |
| Configuration.ZeroPagesRejected | src/ase_discord_bot/config.py:70-72 | a page count of "0" exits with "must be a positive integer" |
| Configuration.NegativeVotesRejectedAsNonDigit | src/ase_discord_bot/config.py:74-77 | a vote count of "-1" fails the digit check |
| Configuration.VotesNegativeUnreachable | src/ase_discord_bot/config.py:78-80 | the "must be a natural number" exit never happens |
| Configuration.EnvFilesToLoad | src/ase_discord_bot/config.py:85-93 | ".env" first, then one of ".env.prod" and ".env.dev" |
| Configuration.ProdFileIff | src/ase_discord_bot/config.py:91-92 | ".env.prod" is loaded iff MODE is set and lower-cases to "prod" (the default "dev" does not) |
| Configuration.ModeCaseInsensitive | src/ase_discord_bot/config.py:91-92 | MODE values equal after lower-casing load the same files |
| Configuration.PythonInt | src/ase_discord_bot/config.py:105 | `int` succeeds exactly on a digit string, with its decimal value |
| Configuration.IntSettingAsWritten | src/ase_discord_bot/config.py:110-111 | an unset variable gives the default; a variable set to the empty string fails |
| Configuration.EmptyCountPassesButFails | src/ase_discord_bot/config.py:66-111 | an empty page or vote count passes validation, and the Config constructor then fails on it |
| Configuration.SettingsAfterCheck | src/ase_discord_bot/config.py:66-111 | after validation the page and vote counts parse; the page count is at least 1; a parse as written agrees with the corrected setting |
| Configuration.PathJoin | src/ase_discord_bot/config.py:107-108 | the joined path starts with the root |
| Configuration.Config.constructor | src/ase_discord_bot/config.py:101-119 | each field is its variable's value or default, the counts are parsed, the header carries the bearer token, and the constants are as listed |
| ConfigRegistry.Registry.constructor | src/ase_discord_bot/config_registry.py:4 | the slot starts empty |
| ConfigRegistry.Registry.SetConfig | src/ase_discord_bot/config_registry.py:7-17 | the slot holds the given object, replacing any earlier one |
| ConfigRegistry.Registry.GetConfig | src/ase_discord_bot/config_registry.py:20-36 | fails with "Config has not been set." iff the slot is empty; otherwise returns the stored object and leaves the slot as it was |
| ConfigRegistry.RegistryLifecycle | src/ase_discord_bot/config_registry.py:4-36 | reading before a store fails; a store is read back; a later store replaces it; reading again changes nothing |

## Left out

- HTTP, JSON decoding and file I/O: `requests.get`, `response.json()`, `read_url_bytes`, `read_file_bytes`, and the generators' `__main__` blocks. Responses enter as values.
- ApiCalls.PageQueries: the total page count is a parameter. The source reads it from the first response's body (api_calls.py:63) without checking that response's status. When the first request fails and its body has no `total_pages`, the source raises there, before any aggregation. The model does not capture that crash, so `DiscordBot.ReplyWhenAllFailed` and `DiscordBot.AllFailedMessage` describe a reply the program reaches only when the failed first body still carries `total_pages`.
- `SequenceMatcher(...).ratio()` is an uninterpreted function parameter, and scores are exact reals rather than floats.
- Unicode: `lower`, `upper`, `strip`, `isalnum` and `isdigit` are modelled for ASCII only.
- Discord plumbing is not modelled:
  - `on_ready`, the bot run, the command decorators and their `min_value`/`max_value`;
  - `respond`, `defer` and `followup`;
  - `GenreEnum.as_choices`;
  - `format_recommendation` and the messages it sends: `Recommend` carries the movies it would format.
- The non-list branch of the result dispatch (discord_bot.py:136-139) is not modelled. `get_recommended_movie` always returns a list.
- `summary.py` (an LLM call), `msg_format.py`, logging, `dotenv` loading itself and `get_poster_url` are not part of this model.
- The superseded `src/config.py`, `src/main.py`, `src/bot/discord_bot.py` and `src/logger_config.py` are not part of this model, and neither is the wiring in `main.py`.
- Other Left out entries:
  - The clock: `date.today().year` is the constructor parameter `currentYear`.
  - `ROOT_PATH` is the parameter `rootPath`.
  - URLs are strings.
- ApiCalls.BuildQuery: requires a truthy `min_year` or `max_year` to have four digits. Below year 1000 the padding of `strftime("%Y")` depends on the platform. Above 9999, `date(y, ...)` on lines 47 and 51 raises ValueError. The model does not capture that crash.
- LanguageEnumGenerator.FormatEnumName: requires a non-empty filtered key. On an empty key the source fails at `key[0]` with an IndexError, and the model does not represent that crash.
- LanguageEnumGenerator.ReprPlain: `repr` is modelled for quotes, backslash, tab, newline and carriage return only. Other control and non-printable characters are not modelled.
- LanguageEnumGenerator.SortedEntries: states ordering and permutation, not the stability of `sorted`, although the insertion sort behind it is stable.
- GenreEnumGenerator.SortedById: states ordering and permutation, not the stability of `sorted`.
- Configuration.PythonInt: reads unsigned ASCII digit strings only. Python's `int` also accepts signs, surrounding white space and underscores, but validation rules those out first.
- Configuration.Config.constructor: requires that validation passed, which is how the program uses it. The crash of `Config()` on an empty count is modelled separately; see Findings.
- Languages.FromFuzzy: its inner loop over one member's candidates is the separate method `Languages.ScanCandidates`.
- LanguageEnumGenerator.GenerateLanguageEnum: its loop over the entries is the separate method `LanguageEnumGenerator.MemberLinesOf`.
- DiscordBot.AutocompleteLanguage: the `OptionChoice` objects are `Choice` records.

## Findings

| source | as written | input that shows it | evidently intended | confidence | as-written member | corrected member |
|---|---|---|---|---|---|---|
| src/ase_discord_bot/config.py:66-111 | the walrus checks on lines 66 and 74 skip an empty MAX_API_PAGES_COUNT or MIN_VOTE_COUNT as if unset, but `Config` on lines 110-111 passes the empty string to `int` because `os.getenv` returns it rather than the default | MAX_API_PAGES_COUNT="" with every required variable valid: validation passes, then `int("")` raises ValueError | an empty count is treated like an unset one and takes its default (15 or 100) | high, not executed | Configuration.EmptyCountPassesButFails | Configuration.SettingsAfterCheck |
