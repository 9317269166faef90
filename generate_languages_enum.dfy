/** The generator of the `Language` enum: it turns the TMDB language list
    (entries with `iso_639_1`, `english_name` and `name`) into Python source
    with one enum member per distinct key. */
module LanguageEnumGenerator {
  import opened Wrappers
  import opened Text
  import opened Sorting
  import opened Seqs

  // ------------------------------------------------------------ enum keys

  /** The characters kept by the final filter: `c.isalnum() or c == '_'`. */
  predicate IsKeyChar(c: char) {
    IsAlnum(c) || c == '_'
  }

  /** `''.join(c if c.isalnum() or c == '_' else '' for c in key)`. */
  function KeepKeyChars(s: string): (r: string)
    ensures |r| <= |s|
    ensures forall i | 0 <= i < |r| :: IsKeyChar(r[i])
  {
    if s == [] then []
    else (if IsKeyChar(s[0]) then [s[0]] else []) + KeepKeyChars(s[1..])
  }

  /** The five `replace` calls, in the order the generator applies them. */
  function ReplaceSeparators(key: string): string {
    var k := Replace(Replace(key, " ", "_"), ";", "");
    Replace(Replace(Replace(k, ",", ""), "-", "_"), "/", "_")
  }

  /** The key before the digit check: upper-cased, separators replaced, filtered. */
  function FilteredKey(englishName: string): string {
    KeepKeyChars(ReplaceSeparators(Upper(englishName)))
  }

  /** `format_enum_name`. Indexing `key[0]` fails on an empty filtered key, so
      a non-empty filtered key is required. */
  function FormatEnumName(englishName: string): (key: string)
    requires FilteredKey(englishName) != []
    ensures key != [] && !IsDigit(key[0])
    ensures forall i | 0 <= i < |key| :: IsKeyChar(key[i])
    ensures IsDigit(FilteredKey(englishName)[0]) ==> key == "LANG_" + FilteredKey(englishName)
    ensures !IsDigit(FilteredKey(englishName)[0]) ==> key == FilteredKey(englishName)
  {
    var key := FilteredKey(englishName);
    if IsDigit(key[0]) then "LANG_" + key else key
  }

  /** What one character of the English name contributes to the key: space,
      `-` and `/` become `_`; `;`, `,` and every other character that is
      neither alphanumeric nor `_` is dropped; letters are upper-cased. */
  function KeyChar(c: char): (r: string)
    ensures |r| <= 1
  {
    var u := UpperChar(c);
    if u == ' ' || u == '-' || u == '/' then "_"
    else if u == ';' || u == ',' then []
    else if IsKeyChar(u) then [u]
    else []
  }

  /** The key, character by character: an independent description of `FilteredKey`. */
  function KeyChars(s: string): string {
    if s == [] then [] else KeyChar(s[0]) + KeyChars(s[1..])
  }

  lemma ReplaceSingle(x: char, a: char, rep: string)
    ensures Replace([x], [a], rep) == if x == a then rep else [x]
  {
    ReplaceCharCons(x, [], a, rep);
    assert [x] + [] == [x];
  }

  lemma ReplaceSeparatorsConcat(u: string, t: string)
    ensures ReplaceSeparators(u + t) == ReplaceSeparators(u) + ReplaceSeparators(t)
  {
    ReplaceCharConcat(u, t, ' ', "_");
    var u1, t1 := Replace(u, " ", "_"), Replace(t, " ", "_");
    ReplaceCharConcat(u1, t1, ';', "");
    var u2, t2 := Replace(u1, ";", ""), Replace(t1, ";", "");
    ReplaceCharConcat(u2, t2, ',', "");
    var u3, t3 := Replace(u2, ",", ""), Replace(t2, ",", "");
    ReplaceCharConcat(u3, t3, '-', "_");
    var u4, t4 := Replace(u3, "-", "_"), Replace(t3, "-", "_");
    ReplaceCharConcat(u4, t4, '/', "_");
  }

  /** The replace chain on one character that is none of the separators leaves it alone. */
  lemma ReplaceSeparatorsKeeps(x: char)
    requires x != ' ' && x != ';' && x != ',' && x != '-' && x != '/'
    ensures ReplaceSeparators([x]) == [x]
  {
    ReplaceSingle(x, ' ', "_");
    ReplaceSingle(x, ';', "");
    ReplaceSingle(x, ',', "");
    ReplaceSingle(x, '-', "_");
    ReplaceSingle(x, '/', "_");
  }

  lemma ReplaceSeparatorsSingle(x: char)
    ensures ReplaceSeparators([x]) ==
      if x == ' ' || x == '-' || x == '/' then "_"
      else if x == ';' || x == ',' then []
      else [x]
  {
    if x == ' ' || x == '-' || x == '/' {
      ReplaceSingle(x, ' ', "_");
      ReplaceSingle(if x == ' ' then '_' else x, ';', "");
      ReplaceSingle(if x == ' ' then '_' else x, ',', "");
      ReplaceSingle(if x == ' ' then '_' else x, '-', "_");
      ReplaceSingle(if x == '/' then '/' else '_', '/', "_");
    } else if x == ';' || x == ',' {
      ReplaceSingle(x, ' ', "_");
      ReplaceSingle(x, ';', "");
      if x == ',' {
        ReplaceSingle(x, ',', "");
      }
    } else {
      ReplaceSeparatorsKeeps(x);
    }
  }

  lemma {:induction false} KeepKeyCharsConcat(u: string, t: string)
    ensures KeepKeyChars(u + t) == KeepKeyChars(u) + KeepKeyChars(t)
  {
    if u != [] {
      assert (u + t)[0] == u[0] && (u + t)[1..] == u[1..] + t;
      KeepKeyCharsConcat(u[1..], t);
    } else {
      assert u + t == t;
    }
  }

  /** The replace-and-filter pipeline is the per-character description:
      every space, `-` and `/` of the name yields `_`, every `;` and `,`
      yields nothing, and only alphanumerics and `_` remain. */
  lemma {:induction false} FilteredKeyByCharacter(s: string)
    ensures FilteredKey(s) == KeyChars(s)
  {
    if s != [] {
      var c, t := s[0], s[1..];
      assert s == [c] + t;
      UpperConcat([c], t);
      var uc, ut := Upper([c]), Upper(t);
      assert uc == [UpperChar(c)];
      ReplaceSeparatorsConcat(uc, ut);
      KeepKeyCharsConcat(ReplaceSeparators(uc), ReplaceSeparators(ut));
      ReplaceSeparatorsSingle(UpperChar(c));
      FilteredKeyByCharacter(t);
      assert KeepKeyChars(ReplaceSeparators(uc)) == KeyChar(c);
    }
  }

  lemma {:induction false} KeyCharsConcat(a: string, b: string)
    ensures KeyChars(a + b) == KeyChars(a) + KeyChars(b)
  {
    if a != [] {
      assert (a + b)[0] == a[0] && (a + b)[1..] == a[1..] + b;
      KeyCharsConcat(a[1..], b);
    } else {
      assert a + b == b;
    }
  }

  /** A word of letters and digits is kept whole, upper-cased. */
  lemma {:induction false} KeyCharsOfWord(w: string)
    requires forall i | 0 <= i < |w| :: IsAlnum(w[i])
    ensures KeyChars(w) == Upper(w)
  {
    if w != [] {
      KeyCharsOfWord(w[1..]);
      assert Upper(w) == [UpperChar(w[0])] + Upper(w[1..]);
    }
  }

  /** Two words separated by ", " become the upper-cased words joined by a
      single `_`: the comma is dropped and the space becomes `_`. */
  lemma CommaSpaceBecomesUnderscore(u: string, t: string)
    requires u != [] && !IsDigit(u[0])
    requires forall i | 0 <= i < |u| :: IsAlnum(u[i])
    requires forall i | 0 <= i < |t| :: IsAlnum(t[i])
    ensures FilteredKey(u + ", " + t) != []
    ensures FormatEnumName(u + ", " + t) == Upper(u) + "_" + Upper(t)
  {
    var s := u + ", " + t;
    FilteredKeyByCharacter(s);
    KeyCharsConcat(u + ", ", t);
    KeyCharsConcat(u, ", ");
    assert KeyChars(", ") == "_" by {
      assert KeyChar(',') == [] && KeyChar(' ') == "_";
      assert ", "[1..] == " " && " "[1..] == [];
    }
    KeyCharsOfWord(u);
    KeyCharsOfWord(t);
    assert FilteredKey(s)[0] == UpperChar(u[0]);
  }

  /** "Ga, Ewe" becomes "GA_EWE". */
  lemma FormatEnumNameExample(u: string, t: string)
    requires u == "Ga" && t == "Ewe"
    ensures FilteredKey(u + ", " + t) != []
    ensures FormatEnumName(u + ", " + t) == "GA_EWE"
  {
    CommaSpaceBecomesUnderscore(u, t);
    assert Upper(u) == "GA" && Upper(t) == "EWE";
  }

  /** A name whose key starts with a digit gets the `LANG_` prefix: "1-2" becomes "LANG_1_2". */
  lemma FormatEnumNameDigitExample(s: string)
    requires s == "1-2"
    ensures FilteredKey(s) != []
    ensures FormatEnumName(s) == "LANG_1_2"
  {
    FilteredKeyByCharacter(s);
    assert KeyChar('1') == "1" && KeyChar('-') == "_" && KeyChar('2') == "2";
    assert KeyChars(s[2..]) == "2";
    assert KeyChars(s[1..]) == "_2";
  }

  // ------------------------------------------------------------ entries

  /** One entry of the language list. */
  datatype Entry = Entry(iso6391: string, englishName: string, name: string)

  /** The entry's key can be formed (its filtered key is not empty). */
  predicate Keyable(e: Entry) {
    FilteredKey(e.englishName) != []
  }

  predicate AllKeyable(es: seq<Entry>) {
    forall i | 0 <= i < |es| :: Keyable(es[i])
  }

  /** `format_enum_name(entry["english_name"])`; the generator is only
      applied to entries whose key can be formed. */
  function Key(e: Entry): string {
    if Keyable(e) then FormatEnumName(e.englishName) else []
  }

  /** `entry["name"].strip() or None`. */
  function LocalName(e: Entry): (local: Option<string>)
    ensures local.None? <==> AllSpace(e.name)
    ensures local.Some? ==> local.value == Strip(e.name) && local.value != []
  {
    var s := Strip(e.name);
    if s == [] then None else Some(s)
  }

  /** `sorted(..., key=lambda x: x["iso_639_1"])` compares the ISO codes. */
  predicate IsoLe(a: Entry, b: Entry) {
    StringLe(a.iso6391, b.iso6391)
  }

  lemma IsoLeTotalPreorder()
    ensures TotalPreorder(IsoLe)
  {
    forall a: Entry, b: Entry
      ensures IsoLe(a, b) || IsoLe(b, a)
    {
      StringLeTotal(a.iso6391, b.iso6391);
    }
    forall a: Entry, b: Entry, c: Entry | IsoLe(a, b) && IsoLe(b, c)
      ensures IsoLe(a, c)
    {
      StringLeTransitive(a.iso6391, b.iso6391, c.iso6391);
    }
  }

  /** The entries in the order the generator visits them: ascending ISO code,
      entries with equal codes in their original order. */
  function SortedEntries(data: seq<Entry>): (sorted: seq<Entry>)
    ensures multiset(sorted) == multiset(data)
    ensures SortedBy(sorted, IsoLe)
    ensures AllKeyable(data) ==> AllKeyable(sorted)
  {
    IsoLeTotalPreorder();
    SortBySorted(data, IsoLe);
    var sorted := SortBy(data, IsoLe);
    assert forall i | 0 <= i < |sorted| :: sorted[i] in multiset(data);
    sorted
  }

  // ------------------------------------------------------------ deduplication

  /** The keys of the elements, in order. */
  function KeysOf<T>(es: seq<T>, key: T -> string): (keys: seq<string>)
    ensures |keys| == |es|
    ensures forall i | 0 <= i < |es| :: keys[i] == key(es[i])
  {
    Project(es, key)
  }

  /** The set of keys the elements produce. */
  ghost function KeySet<T>(es: seq<T>, key: T -> string): set<string> {
    set i | 0 <= i < |es| :: key(es[i])
  }

  /** The elements the loop keeps: one is skipped when its key is already
      among the keys of the elements kept before it. */
  function KeepFirst<T>(es: seq<T>, key: T -> string): (kept: seq<T>)
    ensures forall i | 0 <= i < |kept| :: kept[i] in es
  {
    if es == [] then []
    else
      var prev := KeepFirst(es[..|es| - 1], key);
      var last := es[|es| - 1];
      if key(last) in KeysOf(prev, key) then prev else prev + [last]
  }

  /** One more element is kept exactly when its key is new. */
  lemma KeepFirstSnoc<T>(es: seq<T>, x: T, key: T -> string)
    ensures KeepFirst(es + [x], key) ==
      if key(x) in KeysOf(KeepFirst(es, key), key) then KeepFirst(es, key)
      else KeepFirst(es, key) + [x]
  {
    assert (es + [x])[..|es|] == es;
  }

  lemma KeySetSnoc<T>(es: seq<T>, key: T -> string)
    requires es != []
    ensures KeySet(es, key) == KeySet(es[..|es| - 1], key) + {key(es[|es| - 1])}
  {
    var init := es[..|es| - 1];
    assert forall i | 0 <= i < |init| :: init[i] == es[i];
  }

  lemma InKeysOf<T>(es: seq<T>, key: T -> string, k: string)
    ensures k in KeysOf(es, key) <==> k in KeySet(es, key)
  {
    if k in KeySet(es, key) {
      var i :| 0 <= i < |es| && key(es[i]) == k;
      assert KeysOf(es, key)[i] == k;
    }
  }

  /** No two elements carry the same key. */
  predicate DistinctKeys<T>(s: seq<T>, key: T -> string) {
    forall a, b | 0 <= a < b < |s| :: key(s[a]) != key(s[b])
  }

  /** No key is emitted twice. */
  lemma {:induction false} KeepFirstDistinctKeys<T>(es: seq<T>, key: T -> string)
    ensures DistinctKeys(KeepFirst(es, key), key)
  {
    if es != [] {
      var prev := KeepFirst(es[..|es| - 1], key);
      KeepFirstDistinctKeys(es[..|es| - 1], key);
      var last := es[|es| - 1];
      if key(last) !in KeysOf(prev, key) {
        var kept := prev + [last];
        forall a, b | 0 <= a < b < |kept|
          ensures key(kept[a]) != key(kept[b])
        {
          assert kept[a] == prev[a];
          if b == |prev| {
            assert KeysOf(prev, key)[a] == key(prev[a]);
          } else {
            assert kept[b] == prev[b];
          }
        }
      }
    }
  }

  /** Every key of the input is emitted: deduplication loses entries, never keys. */
  lemma {:induction false} KeepFirstSameKeys<T>(es: seq<T>, key: T -> string)
    ensures KeySet(KeepFirst(es, key), key) == KeySet(es, key)
  {
    if es != [] {
      var init := es[..|es| - 1];
      var last := es[|es| - 1];
      var prev := KeepFirst(init, key);
      KeepFirstSameKeys(init, key);
      KeySetSnoc(es, key);
      InKeysOf(prev, key, key(last));
      if key(last) !in KeysOf(prev, key) {
        var kept := prev + [last];
        assert kept[..|kept| - 1] == prev;
        KeySetSnoc(kept, key);
      }
    }
  }

  /** Element `j` is the first of `es` carrying its key. */
  predicate FirstWithKey<T>(es: seq<T>, key: T -> string, j: nat)
    requires j < |es|
  {
    forall l | 0 <= l < j :: key(es[l]) != key(es[j])
  }

  /** Every kept element is the first of the input that carries its key. */
  lemma {:induction false} KeepFirstIsFirst<T>(es: seq<T>, key: T -> string, k: nat)
    requires k < |KeepFirst(es, key)|
    ensures exists j | 0 <= j < |es| :: es[j] == KeepFirst(es, key)[k] && FirstWithKey(es, key, j)
  {
    var init := es[..|es| - 1];
    var last := es[|es| - 1];
    var prev := KeepFirst(init, key);
    if k < |prev| {
      KeepFirstIsFirst(init, key, k);
      var j :| 0 <= j < |init| && init[j] == prev[k] && FirstWithKey(init, key, j);
      assert KeepFirst(es, key)[k] == prev[k];
      forall l | 0 <= l < j
        ensures key(es[l]) != key(es[j])
      {
        assert es[l] == init[l] && es[j] == init[j];
      }
      assert FirstWithKey(es, key, j);
    } else {
      KeepFirstSameKeys(init, key);
      InKeysOf(prev, key, key(last));
      var j := |es| - 1;
      assert KeepFirst(es, key)[k] == es[j];
      forall l | 0 <= l < j
        ensures key(es[l]) != key(es[j])
      {
        assert es[l] == init[l] && key(init[l]) in KeySet(init, key);
      }
      assert FirstWithKey(es, key, j);
    }
  }

  /** As many elements are kept as there are distinct keys. */
  lemma {:induction false} KeepFirstCount<T>(es: seq<T>, key: T -> string)
    ensures |KeepFirst(es, key)| == |KeySet(es, key)|
  {
    if es != [] {
      var init := es[..|es| - 1];
      var last := es[|es| - 1];
      var prev := KeepFirst(init, key);
      KeepFirstCount(init, key);
      KeepFirstSameKeys(init, key);
      KeySetSnoc(es, key);
      InKeysOf(prev, key, key(last));
    }
  }

  /** Sorting does not change which keys occur. */
  lemma SortedEntriesSameKeys(data: seq<Entry>)
    ensures KeySet(SortedEntries(data), Key) == KeySet(data, Key)
  {
    var sorted := SortedEntries(data);
    forall k | k in KeySet(sorted, Key)
      ensures k in KeySet(data, Key)
    {
      var i :| 0 <= i < |sorted| && Key(sorted[i]) == k;
      assert sorted[i] in multiset(data);
      var j :| 0 <= j < |data| && data[j] == sorted[i];
    }
    forall k | k in KeySet(data, Key)
      ensures k in KeySet(sorted, Key)
    {
      var i :| 0 <= i < |data| && Key(data[i]) == k;
      assert data[i] in multiset(sorted);
      var j :| 0 <= j < |sorted| && sorted[j] == data[i];
    }
  }

  /** The generated enum has one member per distinct key of the input, each
      key once, each taken from the first entry in ISO order that yields it. */
  lemma GeneratedMembers(data: seq<Entry>)
    ensures |MemberLines(KeepFirst(SortedEntries(data), Key))| == |KeySet(data, Key)|
    ensures KeySet(KeepFirst(SortedEntries(data), Key), Key) == KeySet(data, Key)
    ensures DistinctKeys(KeepFirst(SortedEntries(data), Key), Key)
  {
    var sorted := SortedEntries(data);
    SortedEntriesSameKeys(data);
    KeepFirstCount(sorted, Key);
    KeepFirstSameKeys(sorted, Key);
    KeepFirstDistinctKeys(sorted, Key);
  }

  // ------------------------------------------------------------ output text

  /** How `repr` escapes one character of a string quoted with `quote`. */
  function EscapeChar(c: char, quote: char): string {
    if c == '\\' || c == quote then ['\\', c]
    else if c == '\t' then "\\t"
    else if c == '\n' then "\\n"
    else if c == '\r' then "\\r"
    else [c]
  }

  function Escape(s: string, quote: char): string {
    if s == [] then [] else EscapeChar(s[0], quote) + Escape(s[1..], quote)
  }

  /** `repr(s)` for a string: single quotes unless the text contains a single
      quote and no double quote. */
  function ReprString(s: string): string {
    var quote := if '\'' in s && '"' !in s then '"' else '\'';
    [quote] + Escape(s, quote) + [quote]
  }

  /** `repr(local_name)`: `None`, or the quoted string. */
  function ReprLocalName(local: Option<string>): string {
    match local
    case None => "None"
    case Some(s) => ReprString(s)
  }

  /** The characters `repr` writes with a backslash, apart from the quote. */
  predicate NeedsEscape(c: char) {
    c == '\\' || c == '\t' || c == '\n' || c == '\r'
  }

  lemma {:induction false} EscapePlain(s: string, quote: char)
    requires forall i | 0 <= i < |s| :: s[i] != quote && !NeedsEscape(s[i])
    ensures Escape(s, quote) == s
  {
    if s != [] {
      EscapePlain(s[1..], quote);
      assert s == [s[0]] + s[1..];
    }
  }

  /** Text needing no escape comes back verbatim between single quotes. */
  lemma ReprPlain(s: string)
    requires forall i | 0 <= i < |s| :: s[i] != '\'' && s[i] != '"' && !NeedsEscape(s[i])
    ensures ReprString(s) == "'" + s + "'"
  {
    EscapePlain(s, '\'');
  }

  /** `    KEY = ("iso", "english_name", repr(local_name))`. */
  function MemberLine(e: Entry): string {
    "    " + Key(e) + " = (\"" + e.iso6391 + "\", \"" + e.englishName + "\", "
      + ReprLocalName(LocalName(e)) + ")"
  }

  function MemberLines(es: seq<Entry>): (lines: seq<string>)
    ensures |lines| == |es|
    ensures forall i | 0 <= i < |es| :: lines[i] == MemberLine(es[i])
  {
    Project(es, MemberLine)
  }

  /** The import line and the class header that precede the members. */
  function Header(className: string, enumName: string): string {
    "from ase_discord_bot.api_util.model.languages_base import " + enumName + "\n"
      + "\n" + "\n" + "class " + className + "(" + enumName + "):\n"
  }

  /** The whole generated module for the given member lines. */
  function EnumModule(className: string, enumName: string, lines: seq<string>): (code: string)
    ensures StartsWith(code, Header(className, enumName))
    ensures code[|code| - 1] == '\n'
  {
    var h := Header(className, enumName);
    var code := h + Join(lines, "\n") + "\n";
    assert code[..|h|] == h;
    code
  }

  const DefaultClassName: string := "Language"
  const DefaultEnumName: string := "LanguageEnum"

  /** One iteration of the generator: an entry whose key was already
      emitted changes nothing, any other adds its key and its line. */
  lemma GenerateStep(prefix: seq<Entry>, entry: Entry)
    requires Keyable(entry)
    ensures var kept := KeepFirst(prefix, Key);
      if FormatEnumName(entry.englishName) in KeysOf(kept, Key) then
        KeepFirst(prefix + [entry], Key) == kept
      else
        && KeysOf(KeepFirst(prefix + [entry], Key), Key) == KeysOf(kept, Key) + [FormatEnumName(entry.englishName)]
        && MemberLines(KeepFirst(prefix + [entry], Key)) == MemberLines(kept)
             + ["    " + FormatEnumName(entry.englishName) + " = (\"" + entry.iso6391 + "\", \""
                + entry.englishName + "\", " + ReprLocalName(LocalName(entry)) + ")"]
  {
    var kept := KeepFirst(prefix, Key);
    KeepFirstSnoc(prefix, entry, Key);
    assert Key(entry) == FormatEnumName(entry.englishName);
    ProjectSnoc(kept, entry, Key);
    ProjectSnoc(kept, entry, MemberLine);
  }

  /** The loop of `generate_language_enum`: visit the sorted entries, skip
      every entry whose key was already emitted, and collect one member line
      per new key. */
  method MemberLinesOf(sorted: seq<Entry>) returns (enumLines: seq<string>)
    requires AllKeyable(sorted)
    ensures enumLines == MemberLines(KeepFirst(sorted, Key))
  {
    enumLines := [];
    var keys: seq<string> := [];
    for i := 0 to |sorted|
      invariant keys == KeysOf(KeepFirst(sorted[..i], Key), Key)
      invariant enumLines == MemberLines(KeepFirst(sorted[..i], Key))
    {
      var entry := sorted[i];
      TakeSnoc(sorted, i);
      GenerateStep(sorted[..i], entry);
      var key := FormatEnumName(entry.englishName);
      if key in keys {
        continue;
      }
      keys := keys + [key];
      var line := "    " + key + " = (\"" + entry.iso6391 + "\", \"" + entry.englishName + "\", "
        + ReprLocalName(LocalName(entry)) + ")";
      enumLines := enumLines + [line];
    }
    assert sorted[..|sorted|] == sorted;
  }

  /** `generate_language_enum`: sort the entries by ISO code, emit one
      member per new key, and assemble the module text. */
  method GenerateLanguageEnum(data: seq<Entry>, className: string, enumName: string)
    returns (enumCode: string)
    requires AllKeyable(data)
    ensures enumCode == EnumModule(className, enumName, MemberLines(KeepFirst(SortedEntries(data), Key)))
  {
    var sorted := SortedEntries(data);
    var enumLines := MemberLinesOf(sorted);
    enumCode := "from ase_discord_bot.api_util.model.languages_base import " + enumName + "\n";
    enumCode := enumCode + "\n";
    enumCode := enumCode + "\n";
    enumCode := enumCode + "class " + className + "(" + enumName + "):\n";
    enumCode := enumCode + Join(enumLines, "\n");
    enumCode := enumCode + "\n";
  }
}
