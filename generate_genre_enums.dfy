/** The generator of the `MovieGenre` and `SeriesGenre` enums: it turns the
    TMDB movie and TV genre lists (entries with `id` and `name`) into Python
    source with one enum member per genre, each class in ascending id order. */
module GenreEnumGenerator {
  import opened Text
  import opened Sorting
  import opened Seqs

  // ------------------------------------------------------------ enum keys

  /** `format_enum_name`: upper-case, then `" & "` becomes `_AND_`, then the
      remaining spaces and every `-` become `_`. */
  function FormatEnumName(name: string): (key: string)
    ensures ' ' !in key && '-' !in key
  {
    var key := Replace(Replace(Upper(name), " & ", "_AND_"), " ", "_");
    ReplaceRemovesChar(Replace(Upper(name), " & ", "_AND_"), ' ', "_");
    ReplaceRemovesChar(key, '-', "_");
    ReplaceKeepsAbsent(key, "-", "_", ' ');
    Replace(key, "-", "_")
  }

  /** Upper-casing leaves spaces, `-` and `&` where they are and introduces none. */
  lemma UpperKeepsSeparators(u: string, c: char)
    requires c == ' ' || c == '-' || c == '&'
    ensures c in Upper(u) <==> c in u
  {
    if c in Upper(u) {
      var i :| 0 <= i < |u| && Upper(u)[i] == c;
      assert u[i] == c;
    }
    if c in u {
      var i :| 0 <= i < |u| && u[i] == c;
      assert Upper(u)[i] == c;
    }
  }

  /** Two words joined by `" & "` become the upper-cased words joined by
      `_AND_`: the ampersand is replaced as a whole, before the single spaces. */
  lemma AmpersandBecomesAnd(u: string, t: string)
    requires ' ' !in u && ' ' !in t && '-' !in u && '-' !in t
    ensures FormatEnumName(u + " & " + t) == Upper(u) + "_AND_" + Upper(t)
  {
    var uu, ut := Upper(u), Upper(t);
    UpperKeepsSeparators(u, ' ');
    UpperKeepsSeparators(t, ' ');
    UpperKeepsSeparators(u, '-');
    UpperKeepsSeparators(t, '-');
    UpperConcat(u + " & ", t);
    UpperConcat(u, " & ");
    assert Upper(" & ") == " & ";
    assert Upper(u + " & " + t) == uu + " & " + ut;
    ReplaceAroundMatch(uu, " & ", "_AND_", ut);
    ReplaceWithoutHead(ut, " & ", "_AND_");
    var k1 := uu + "_AND_" + ut;
    assert Replace(Upper(u + " & " + t), " & ", "_AND_") == k1;
    assert ' ' !in k1 && '-' !in k1;
    ReplaceWithoutHead(k1, " ", "_");
    ReplaceWithoutHead(k1, "-", "_");
  }

  lemma UpperWord(w: string, upper: string)
    requires |w| == |upper| && forall i | 0 <= i < |w| :: UpperChar(w[i]) == upper[i]
    ensures Upper(w) == upper
  {
  }

  /** "Action & Adventure" becomes "ACTION_AND_ADVENTURE". */
  lemma FormatEnumNameExample(u: string, t: string)
    requires u == "Action" && t == "Adventure"
    ensures FormatEnumName(u + " & " + t) == "ACTION_AND_ADVENTURE"
  {
    AmpersandBecomesAnd(u, t);
    UpperWord(u, "ACTION");
    UpperWord(t, "ADVENTURE");
  }

  // ------------------------------------------------------------ genre lines

  /** One entry of a genre list. */
  datatype GenreEntry = GenreEntry(id: int, name: string)

  /** `sorted(..., key=lambda x: x["id"])` compares the ids. */
  predicate IdLe(a: GenreEntry, b: GenreEntry) {
    a.id <= b.id
  }

  /** The genres in the order the generator visits them: ascending id,
      genres with equal ids in their original order. */
  function SortedById(genres: seq<GenreEntry>): (sorted: seq<GenreEntry>)
    ensures multiset(sorted) == multiset(genres)
    ensures |sorted| == |genres|
    ensures forall i, j | 0 <= i < j < |sorted| :: sorted[i].id <= sorted[j].id
  {
    assert TotalPreorder(IdLe);
    SortBySorted(genres, IdLe);
    SortBy(genres, IdLe)
  }

  /** `    KEY = ("name", id)`. */
  function GenreLine(g: GenreEntry): string {
    "    " + FormatEnumName(g.name) + " = (\"" + g.name + "\", " + IntToString(g.id) + ")"
  }

  /** The lines of one class: one per genre, in ascending id order. */
  function GenreLines(genres: seq<GenreEntry>): (lines: seq<string>)
    ensures |lines| == |genres|
    ensures forall i | 0 <= i < |lines| :: lines[i] == GenreLine(SortedById(genres)[i])
  {
    Project(SortedById(genres), GenreLine)
  }

  const ImportLine: string := "from ase_discord_bot.api_util.model.genre_base import GenreEnum\n"
  const MovieHeader: string := "class MovieGenre(GenreEnum):\n"
  const SeriesHeader: string := "class SeriesGenre(GenreEnum):\n"

  /** The generated module: the import, the movie class, then the series
      class; the file does not end with a newline. */
  function GenresModule(movieLines: seq<string>, seriesLines: seq<string>): string {
    ImportLine + "\n" + "\n" + MovieHeader + Join(movieLines, "\n") + "\n" + "\n"
      + SeriesHeader + Join(seriesLines, "\n")
  }

  /** The module starts with the import line, and the movie class header
      comes before the series class header. */
  lemma GenresModuleLayout(movieLines: seq<string>, seriesLines: seq<string>)
    ensures var code := GenresModule(movieLines, seriesLines);
      var movieAt := |ImportLine| + 2;
      var seriesAt := movieAt + |MovieHeader| + |Join(movieLines, "\n")| + 2;
      && StartsWith(code, ImportLine)
      && OccursAt(MovieHeader, code, movieAt)
      && OccursAt(SeriesHeader, code, seriesAt)
      && movieAt < seriesAt
  {
    var code := GenresModule(movieLines, seriesLines);
    var body := Join(movieLines, "\n");
    var movieAt := |ImportLine| + 2;
    var seriesAt := movieAt + |MovieHeader| + |body| + 2;
    var a := ImportLine + "\n" + "\n";
    var b := a + MovieHeader + body + "\n" + "\n";
    assert code == b + SeriesHeader + Join(seriesLines, "\n");
    assert |a| == movieAt && |b| == seriesAt;
    assert code[..|ImportLine|] == ImportLine;
    assert code[movieAt..movieAt + |MovieHeader|] == MovieHeader;
    assert code[seriesAt..seriesAt + |SeriesHeader|] == SeriesHeader;
  }

  /** `generate_genres_enums`: sort each list by id, build one line per
      genre, and assemble the module text. */
  method GenerateGenresEnums(movieGenres: seq<GenreEntry>, seriesGenres: seq<GenreEntry>)
    returns (fileLines: string)
    ensures fileLines == GenresModule(GenreLines(movieGenres), GenreLines(seriesGenres))
  {
    var movieLines: seq<string> := [];
    var seriesLines: seq<string> := [];
    var movieData := SortedById(movieGenres);
    var seriesData := SortedById(seriesGenres);
    for i := 0 to |movieData|
      invariant movieLines == Project(movieData[..i], GenreLine)
    {
      var genre := movieData[i];
      TakeSnoc(movieData, i);
      ProjectSnoc(movieData[..i], genre, GenreLine);
      var enumName := FormatEnumName(genre.name);
      movieLines := movieLines + ["    " + enumName + " = (\"" + genre.name + "\", " + IntToString(genre.id) + ")"];
    }
    for i := 0 to |seriesData|
      invariant seriesLines == Project(seriesData[..i], GenreLine)
    {
      var genre := seriesData[i];
      TakeSnoc(seriesData, i);
      ProjectSnoc(seriesData[..i], genre, GenreLine);
      var enumName := FormatEnumName(genre.name);
      seriesLines := seriesLines + ["    " + enumName + " = (\"" + genre.name + "\", " + IntToString(genre.id) + ")"];
    }
    assert movieData[..|movieData|] == movieData;
    assert seriesData[..|seriesData|] == seriesData;
    fileLines := ImportLine;
    fileLines := fileLines + "\n";
    fileLines := fileLines + "\n";
    fileLines := fileLines + MovieHeader;
    fileLines := fileLines + Join(movieLines, "\n");
    fileLines := fileLines + "\n";
    fileLines := fileLines + "\n";
    fileLines := fileLines + SeriesHeader;
    fileLines := fileLines + Join(seriesLines, "\n");
  }

  /** Every input genre yields exactly one line, and each line comes from a
      genre of the input: nothing is deduplicated or invented. */
  lemma OneLinePerGenre(genres: seq<GenreEntry>)
    ensures |GenreLines(genres)| == |genres|
    ensures forall i | 0 <= i < |genres| :: GenreLine(genres[i]) in GenreLines(genres)
    ensures forall l | l in GenreLines(genres) :: exists i | 0 <= i < |genres| :: l == GenreLine(genres[i])
  {
    var sorted := SortedById(genres);
    var lines := GenreLines(genres);
    forall i | 0 <= i < |genres|
      ensures GenreLine(genres[i]) in lines
    {
      assert genres[i] in multiset(sorted);
      var j :| 0 <= j < |sorted| && sorted[j] == genres[i];
      assert lines[j] == GenreLine(genres[i]);
    }
    forall l | l in lines
      ensures exists i | 0 <= i < |genres| :: l == GenreLine(genres[i])
    {
      var j :| 0 <= j < |lines| && lines[j] == l;
      assert sorted[j] in multiset(genres);
      var i :| 0 <= i < |genres| && genres[i] == sorted[j];
    }
  }
}
