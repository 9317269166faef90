/** `LanguageEnum`: a fixed, ordered catalogue of languages, each an
    (iso_code, english_name, local_name) triple, with exact lookups by ISO
    code and English name and a fuzzy lookup for free text typed by a user.
    A member is identified by its position in the enumeration. */
module Languages {
  import opened Wrappers
  import opened Text

  /** The value tuple of one enum member. */
  datatype Language = Language(isoCode: string, englishName: string, localName: Option<string>)

  /** The members of the enum, in definition order. */
  type Catalogue = seq<Language>

  /** `lang.local_name` is truthy: present and not empty. */
  predicate HasLocalName(lang: Language) {
    lang.localName.Some? && lang.localName.value != ""
  }

  /** `lang.local_name or lang.english_name`: the local name, falling back to the English one. */
  function DisplayName(lang: Language): (name: string)
    ensures HasLocalName(lang) ==> name == lang.localName.value
    ensures !HasLocalName(lang) ==> name == lang.englishName
  {
    if HasLocalName(lang) then lang.localName.value else lang.englishName
  }

  // ------------------------------------------------------------ all_* lists

  function AllIsoCodes(cat: Catalogue): (codes: seq<string>)
    ensures |codes| == |cat|
    ensures forall i | 0 <= i < |cat| :: codes[i] == cat[i].isoCode
  {
    if cat == [] then [] else [cat[0].isoCode] + AllIsoCodes(cat[1..])
  }

  function AllEnglishNames(cat: Catalogue): (names: seq<string>)
    ensures |names| == |cat|
    ensures forall i | 0 <= i < |cat| :: names[i] == cat[i].englishName
  {
    if cat == [] then [] else [cat[0].englishName] + AllEnglishNames(cat[1..])
  }

  function AllLocalNames(cat: Catalogue): (names: seq<Option<string>>)
    ensures |names| == |cat|
    ensures forall i | 0 <= i < |cat| :: names[i] == cat[i].localName
  {
    if cat == [] then [] else [cat[0].localName] + AllLocalNames(cat[1..])
  }

  function AllNames(cat: Catalogue): (names: seq<string>)
    ensures |names| == |cat|
    ensures forall i | 0 <= i < |cat| :: names[i] == DisplayName(cat[i])
  {
    if cat == [] then [] else [DisplayName(cat[0])] + AllNames(cat[1..])
  }

  // ------------------------------------------------------------ exact lookups

  datatype LookupError = NoSuchIsoCode(code: string) | NoSuchEnglishName(name: string)

  /** `from_iso_code`: the first member whose ISO code is `code`; `ValueError` when there is none. */
  function FromIsoCode(cat: Catalogue, code: string): (r: Result<nat, LookupError>)
    ensures r.Success? ==> r.value < |cat| && cat[r.value].isoCode == code
    ensures r.Success? ==> forall i | 0 <= i < r.value :: cat[i].isoCode != code
    ensures r.Failure? <==> forall i | 0 <= i < |cat| :: cat[i].isoCode != code
    ensures r.Failure? ==> r.error == NoSuchIsoCode(code)
  {
    if cat == [] then Failure(NoSuchIsoCode(code))
    else if cat[0].isoCode == code then Success(0)
    else
      match FromIsoCode(cat[1..], code)
      case Success(k) => Success(k + 1)
      case Failure(e) => Failure(e)
  }

  /** `from_english_name`: the first member whose English name is `name`; `ValueError` when there is none. */
  function FromEnglishName(cat: Catalogue, name: string): (r: Result<nat, LookupError>)
    ensures r.Success? ==> r.value < |cat| && cat[r.value].englishName == name
    ensures r.Success? ==> forall i | 0 <= i < r.value :: cat[i].englishName != name
    ensures r.Failure? <==> forall i | 0 <= i < |cat| :: cat[i].englishName != name
    ensures r.Failure? ==> r.error == NoSuchEnglishName(name)
  {
    if cat == [] then Failure(NoSuchEnglishName(name))
    else if cat[0].englishName == name then Success(0)
    else
      match FromEnglishName(cat[1..], name)
      case Success(k) => Success(k + 1)
      case Failure(e) => Failure(e)
  }

  // ------------------------------------------------------------ fuzzy lookup

  /** `SequenceMatcher(None, a, b).ratio()`, left uninterpreted. */
  type Ratio = (string, string) -> real

  /** A fuzzy result is accepted only when the best score is strictly above this. */
  const Threshold: real := 0.6

  /** `query.strip().lower()`. */
  function Normalize(query: string): string {
    Lower(Strip(query))
  }

  /** The lower-cased strings a query is compared with: ISO code, English
      name and, when it is truthy, the local name. */
  function Candidates(lang: Language): seq<string> {
    [Lower(lang.isoCode), Lower(lang.englishName)]
      + (if HasLocalName(lang) then [Lower(lang.localName.value)] else [])
  }

  predicate IsExactHit(lang: Language, q: string) {
    q in Candidates(lang)
  }

  /** The score of a candidate that is not the query itself: the share of the
      candidate the query covers when it is a substring, the similarity ratio otherwise. */
  function Score(q: string, c: string, ratio: Ratio): real
    requires q != c
  {
    if IsSubstring(q, c) then
      SubstringNoLonger(q, c);
      (|q| as real) / (|c| as real)
    else
      ratio(q, c)
  }

  /** No candidate of the first `n` members is the query itself. */
  ghost predicate Misses(cat: Catalogue, q: string, n: nat)
    requires n <= |cat|
  {
    forall i, j | 0 <= i < n && 0 <= j < |Candidates(cat[i])| :: Candidates(cat[i])[j] != q
  }

  lemma MissesIsNoExactHit(cat: Catalogue, q: string, n: nat)
    requires n <= |cat|
    ensures Misses(cat, q, n) <==> forall i | 0 <= i < n :: !IsExactHit(cat[i], q)
  {
    if !Misses(cat, q, n) {
      var i, j :| 0 <= i < n && 0 <= j < |Candidates(cat[i])| && Candidates(cat[i])[j] == q;
      assert IsExactHit(cat[i], q);
    }
  }

  /** Every candidate of the first `n` members scores at most `s`. */
  ghost predicate ScoresAtMost(cat: Catalogue, q: string, ratio: Ratio, n: nat, s: real)
    requires n <= |cat| && Misses(cat, q, n)
  {
    forall i, j | 0 <= i < n && 0 <= j < |Candidates(cat[i])| ::
      Score(q, Candidates(cat[i])[j], ratio) <= s
  }

  /** Every candidate of the first `n` members scores strictly less than `s`. */
  ghost predicate ScoresBelow(cat: Catalogue, q: string, ratio: Ratio, n: nat, s: real)
    requires n <= |cat| && Misses(cat, q, n)
  {
    forall i, j | 0 <= i < n && 0 <= j < |Candidates(cat[i])| ::
      Score(q, Candidates(cat[i])[j], ratio) < s
  }

  /** What `from_fuzzy` returns for the normalised query `q`, stated without
      reference to its loops: the first member with an exact hit if there is
      one; otherwise the earliest member holding the highest score, provided
      that score is strictly above the threshold; otherwise nothing. */
  ghost predicate IsFuzzyResult(cat: Catalogue, q: string, ratio: Ratio, r: Option<nat>) {
    if !Misses(cat, q, |cat|) then
      && r.Some?
      && r.value < |cat|
      && IsExactHit(cat[r.value], q)
      && Misses(cat, q, r.value)
    else
      match r
      case None => ScoresAtMost(cat, q, ratio, |cat|, Threshold)
      case Some(k) =>
        && k < |cat|
        && exists j | 0 <= j < |Candidates(cat[k])| ::
             && Score(q, Candidates(cat[k])[j], ratio) > Threshold
             && ScoresAtMost(cat, q, ratio, |cat|, Score(q, Candidates(cat[k])[j], ratio))
             && ScoresBelow(cat, q, ratio, k, Score(q, Candidates(cat[k])[j], ratio))
  }

  /** Candidate `j` of member `i` has been scored once the scan reached candidate `cj` of member `ci`. */
  ghost predicate Scanned(i: nat, j: nat, ci: nat, cj: nat) {
    i < ci || (i == ci && j < cj)
  }

  /** Where the scan may stand: members before `ci` and the first `cj`
      candidates of member `ci` have been passed without an exact hit. */
  ghost predicate ScanPosition(cat: Catalogue, q: string, ci: nat, cj: nat) {
    && ci <= |cat|
    && Misses(cat, q, ci)
    && (ci < |cat| ==> cj <= |Candidates(cat[ci])|)
    && (ci < |cat| ==> forall j | 0 <= j < cj :: Candidates(cat[ci])[j] != q)
    && (ci == |cat| ==> cj == 0)
  }

  /** The running best of `from_fuzzy` after scanning up to candidate `cj` of member `ci`:
      `bestScore` is the highest score so far (at least 0) and `bestMatch`
      the earliest member that reached it (absent while nothing scored above 0). */
  ghost predicate Tracks(cat: Catalogue, q: string, ratio: Ratio, ci: nat, cj: nat,
                         bestMatch: Option<nat>, bestScore: real)
    requires ScanPosition(cat, q, ci, cj)
  {
    && bestScore >= 0.0
    && (forall i, j | 0 <= i < |cat| && 0 <= j < |Candidates(cat[i])| && Scanned(i, j, ci, cj) ::
          Score(q, Candidates(cat[i])[j], ratio) <= bestScore)
    && (bestMatch.None? ==> bestScore == 0.0)
    && (bestMatch.Some? ==>
          && bestScore > 0.0
          && bestMatch.value <= ci
          && bestMatch.value < |cat|
          && (exists j | 0 <= j < |Candidates(cat[bestMatch.value])| && Scanned(bestMatch.value, j, ci, cj) ::
                Score(q, Candidates(cat[bestMatch.value])[j], ratio) == bestScore)
          && ScoresBelow(cat, q, ratio, bestMatch.value, bestScore))
  }

  /** Scoring candidate `cj` of member `ci` and keeping it only when it is strictly better. */
  lemma TracksStep(cat: Catalogue, q: string, ratio: Ratio, ci: nat, cj: nat,
                   bestMatch: Option<nat>, bestScore: real)
    requires ScanPosition(cat, q, ci, cj) && ci < |cat| && cj < |Candidates(cat[ci])|
    requires Candidates(cat[ci])[cj] != q
    requires Tracks(cat, q, ratio, ci, cj, bestMatch, bestScore)
    ensures ScanPosition(cat, q, ci, cj + 1)
    ensures var score := Score(q, Candidates(cat[ci])[cj], ratio);
      if score > bestScore then Tracks(cat, q, ratio, ci, cj + 1, Some(ci), score)
      else Tracks(cat, q, ratio, ci, cj + 1, bestMatch, bestScore)
  {
    var score := Score(q, Candidates(cat[ci])[cj], ratio);
    var bm := if score > bestScore then Some(ci) else bestMatch;
    var bs := if score > bestScore then score else bestScore;
    forall i, j | 0 <= i < |cat| && 0 <= j < |Candidates(cat[i])| && Scanned(i, j, ci, cj + 1)
      ensures Score(q, Candidates(cat[i])[j], ratio) <= bs
    {
      if !(i == ci && j == cj) {
        assert Scanned(i, j, ci, cj);
      }
    }
    if score > bestScore {
      assert Scanned(ci, cj, ci, cj + 1);
      forall i, j | 0 <= i < ci && 0 <= j < |Candidates(cat[i])|
        ensures Score(q, Candidates(cat[i])[j], ratio) < bs
      {
        assert Scanned(i, j, ci, cj);
      }
    } else if bestMatch.Some? {
      var k := bestMatch.value;
      var jk :| 0 <= jk < |Candidates(cat[k])| && Scanned(k, jk, ci, cj)
        && Score(q, Candidates(cat[k])[jk], ratio) == bestScore;
      assert Scanned(k, jk, ci, cj + 1);
    }
    assert Tracks(cat, q, ratio, ci, cj + 1, bm, bs);
  }

  /** Finishing the candidates of member `ci` is the same as starting member `ci + 1`. */
  lemma TracksNextMember(cat: Catalogue, q: string, ratio: Ratio, ci: nat,
                         bestMatch: Option<nat>, bestScore: real)
    requires ScanPosition(cat, q, ci, if ci < |cat| then |Candidates(cat[ci])| else 0) && ci < |cat|
    requires Tracks(cat, q, ratio, ci, |Candidates(cat[ci])|, bestMatch, bestScore)
    ensures ScanPosition(cat, q, ci + 1, 0)
    ensures Tracks(cat, q, ratio, ci + 1, 0, bestMatch, bestScore)
  {
    var n := |Candidates(cat[ci])|;
    assert ScanPosition(cat, q, ci + 1, 0);
    forall i, j | 0 <= i < |cat| && 0 <= j < |Candidates(cat[i])|
      ensures Scanned(i, j, ci + 1, 0) <==> Scanned(i, j, ci, n)
    {
    }
    if bestMatch.Some? {
      var k := bestMatch.value;
      var j :| 0 <= j < |Candidates(cat[k])| && Scanned(k, j, ci, n)
        && Score(q, Candidates(cat[k])[j], ratio) == bestScore;
      assert Scanned(k, j, ci + 1, 0);
    }
  }

  /** The scan's result at the first exact hit. */
  lemma ExactHitResult(cat: Catalogue, q: string, ratio: Ratio, ci: nat, cj: nat)
    requires ScanPosition(cat, q, ci, cj) && ci < |cat| && cj < |Candidates(cat[ci])|
    requires Candidates(cat[ci])[cj] == q
    ensures IsFuzzyResult(cat, q, ratio, Some(ci))
  {
    assert IsExactHit(cat[ci], q);
    assert !Misses(cat, q, |cat|);
  }

  /** The scan's result once every member has been scanned without an exact hit. */
  lemma TracksAtEnd(cat: Catalogue, q: string, ratio: Ratio, bestMatch: Option<nat>, bestScore: real)
    requires ScanPosition(cat, q, |cat|, 0)
    requires Tracks(cat, q, ratio, |cat|, 0, bestMatch, bestScore)
    ensures IsFuzzyResult(cat, q, ratio, if bestScore > Threshold then bestMatch else None)
  {
    assert ScoresAtMost(cat, q, ratio, |cat|, bestScore);
    if bestScore > Threshold {
      var k := bestMatch.value;
      var j :| 0 <= j < |Candidates(cat[k])| && Scanned(k, j, |cat|, 0)
        && Score(q, Candidates(cat[k])[j], ratio) == bestScore;
    }
  }

  /** The inner loop of `from_fuzzy` over one member's candidates: stop on a
      candidate equal to the query, otherwise keep the best score seen so far. */
  method ScanCandidates(cat: Catalogue, q: string, ratio: Ratio, i: nat, candidates: seq<string>,
                        bestMatch0: Option<nat>, bestScore0: real)
    returns (hit: bool, bestMatch: Option<nat>, bestScore: real)
    requires i < |cat| && candidates == Candidates(cat[i])
    requires ScanPosition(cat, q, i, 0)
    requires Tracks(cat, q, ratio, i, 0, bestMatch0, bestScore0)
    ensures hit ==> IsFuzzyResult(cat, q, ratio, Some(i))
    ensures !hit ==> ScanPosition(cat, q, i, |candidates|)
    ensures !hit ==> Tracks(cat, q, ratio, i, |candidates|, bestMatch, bestScore)
  {
    bestMatch, bestScore := bestMatch0, bestScore0;
    for j := 0 to |candidates|
      invariant ScanPosition(cat, q, i, j)
      invariant Tracks(cat, q, ratio, i, j, bestMatch, bestScore)
    {
      var candidate := candidates[j];
      if q == candidate {
        ExactHitResult(cat, q, ratio, i, j);
        return true, bestMatch, bestScore;
      }

      var score: real;
      if IsSubstring(q, candidate) {
        SubstringNoLonger(q, candidate);
        score := (|q| as real) / (|candidate| as real);
      } else {
        score := ratio(q, candidate);
      }
      assert score == Score(q, Candidates(cat[i])[j], ratio);

      TracksStep(cat, q, ratio, i, j, bestMatch, bestScore);
      if score > bestScore {
        bestScore := score;
        bestMatch := Some(i);
      }
    }
    hit := false;
  }

  /** `from_fuzzy`: `None` for `None`; otherwise the scan over every candidate of
      every member, returning at the first exact hit and otherwise keeping the
      first strictly better score. */
  method FromFuzzy(cat: Catalogue, query: Option<string>, ratio: Ratio) returns (r: Option<nat>)
    ensures query.None? ==> r.None?
    ensures query.Some? ==> IsFuzzyResult(cat, Normalize(query.value), ratio, r)
  {
    if query.None? {
      return None;
    }
    var q := Normalize(query.value);
    var bestMatch: Option<nat> := None;
    var bestScore: real := 0.0;

    for i := 0 to |cat|
      invariant ScanPosition(cat, q, i, 0)
      invariant Tracks(cat, q, ratio, i, 0, bestMatch, bestScore)
    {
      var candidates := [Lower(cat[i].isoCode), Lower(cat[i].englishName)];
      if HasLocalName(cat[i]) {
        candidates := candidates + [Lower(cat[i].localName.value)];
      }
      var hit;
      hit, bestMatch, bestScore := ScanCandidates(cat, q, ratio, i, candidates, bestMatch, bestScore);
      if hit {
        return Some(i);
      }
      TracksNextMember(cat, q, ratio, i, bestMatch, bestScore);
    }

    TracksAtEnd(cat, q, ratio, bestMatch, bestScore);
    if bestScore > Threshold {
      r := bestMatch;
    } else {
      r := None;
    }
  }
}

/** Properties of `from_fuzzy`, stated over its loop-free description. */
module LanguagesFuzzyFacts {
  import opened Wrappers
  import opened Text
  import opened Languages

  /** The description pins the result down: there is only one answer. */
  lemma FuzzyResultUnique(cat: Catalogue, q: string, ratio: Ratio, r1: Option<nat>, r2: Option<nat>)
    requires IsFuzzyResult(cat, q, ratio, r1) && IsFuzzyResult(cat, q, ratio, r2)
    ensures r1 == r2
  {
    if !Misses(cat, q, |cat|) {
      var k1, k2 := r1.value, r2.value;
      if k1 < k2 {
        MissesIsNoExactHit(cat, q, k2);
      } else if k2 < k1 {
        MissesIsNoExactHit(cat, q, k1);
      }
    } else if r1.Some? && r2.Some? {
      var k1, k2 := r1.value, r2.value;
      var j1 :| 0 <= j1 < |Candidates(cat[k1])|
        && Score(q, Candidates(cat[k1])[j1], ratio) > Threshold
        && ScoresAtMost(cat, q, ratio, |cat|, Score(q, Candidates(cat[k1])[j1], ratio))
        && ScoresBelow(cat, q, ratio, k1, Score(q, Candidates(cat[k1])[j1], ratio));
      var j2 :| 0 <= j2 < |Candidates(cat[k2])|
        && Score(q, Candidates(cat[k2])[j2], ratio) > Threshold
        && ScoresAtMost(cat, q, ratio, |cat|, Score(q, Candidates(cat[k2])[j2], ratio))
        && ScoresBelow(cat, q, ratio, k2, Score(q, Candidates(cat[k2])[j2], ratio));
      var s1 := Score(q, Candidates(cat[k1])[j1], ratio);
      var s2 := Score(q, Candidates(cat[k2])[j2], ratio);
      assert s1 <= s2 && s2 <= s1;
    }
  }

  /** A query equal to a candidate of member `k` resolves, whatever the
      scores, to a member no later than `k` that also has the query as a candidate. */
  lemma ExactHitWins(cat: Catalogue, q: string, ratio: Ratio, r: Option<nat>, k: nat)
    requires k < |cat| && IsExactHit(cat[k], q)
    requires IsFuzzyResult(cat, q, ratio, r)
    ensures r.Some? && r.value <= k && IsExactHit(cat[r.value], q)
  {
    MissesIsNoExactHit(cat, q, |cat|);
  }

  /** Among members sharing the highest score the earliest one is returned. */
  lemma TieGoesToEarliest(cat: Catalogue, q: string, ratio: Ratio, k: nat, i: nat, j: nat)
    requires Misses(cat, q, |cat|)
    requires IsFuzzyResult(cat, q, ratio, Some(k))
    requires i < |cat| && j < |Candidates(cat[i])|
    requires ScoresAtMost(cat, q, ratio, |cat|, Score(q, Candidates(cat[i])[j], ratio))
    ensures k <= i
  {
    var jk :| 0 <= jk < |Candidates(cat[k])|
      && Score(q, Candidates(cat[k])[jk], ratio) > Threshold
      && ScoresAtMost(cat, q, ratio, |cat|, Score(q, Candidates(cat[k])[jk], ratio))
      && ScoresBelow(cat, q, ratio, k, Score(q, Candidates(cat[k])[jk], ratio));
    var best := Score(q, Candidates(cat[k])[jk], ratio);
    var mine := Score(q, Candidates(cat[i])[j], ratio);
    assert mine <= best && best <= mine;
  }

  /** The threshold is strict: when no candidate scores above 0.6, nothing is returned. */
  lemma NoScoreAboveThresholdNoMatch(cat: Catalogue, q: string, ratio: Ratio, r: Option<nat>)
    requires Misses(cat, q, |cat|)
    requires ScoresAtMost(cat, q, ratio, |cat|, Threshold)
    requires IsFuzzyResult(cat, q, ratio, r)
    ensures r == None
  {
  }

  /** A query that is a proper substring of a candidate scores its share of
      the candidate's length, which is in [0, 1). */
  lemma SubstringScore(q: string, c: string, ratio: Ratio)
    requires IsSubstring(q, c) && q != c
    ensures Score(q, c, ratio) == (|q| as real) / (|c| as real)
    ensures 0.0 <= Score(q, c, ratio) < 1.0
  {
    SubstringNoLonger(q, c);
  }

  /** Queries that differ only in letter case are resolved alike. */
  lemma CaseInsensitive(cat: Catalogue, a: string, b: string, ratio: Ratio, ra: Option<nat>, rb: Option<nat>)
    requires Lower(a) == Lower(b)
    requires IsFuzzyResult(cat, Normalize(a), ratio, ra)
    requires IsFuzzyResult(cat, Normalize(b), ratio, rb)
    ensures ra == rb
  {
    StripLowerCommute(a);
    StripLowerCommute(b);
    FuzzyResultUnique(cat, Normalize(a), ratio, ra, rb);
  }

  /** Queries that differ only in surrounding white space are resolved alike. */
  lemma SurroundingSpaceInsensitive(cat: Catalogue, ws1: string, a: string, ws2: string, ratio: Ratio,
                                    ra: Option<nat>, rb: Option<nat>)
    requires AllSpace(ws1) && AllSpace(ws2)
    requires IsFuzzyResult(cat, Normalize(ws1 + a + ws2), ratio, ra)
    requires IsFuzzyResult(cat, Normalize(a), ratio, rb)
    ensures ra == rb
  {
    StripIgnoresSurroundingSpace(ws1, a, ws2);
    FuzzyResultUnique(cat, Normalize(a), ratio, ra, rb);
  }

  /** Candidates are lower-cased copies of non-empty names, so none is empty. */
  lemma CandidatesNonEmpty(lang: Language, j: nat)
    requires lang.isoCode != "" && lang.englishName != ""
    requires j < |Candidates(lang)|
    ensures Candidates(lang)[j] != []
  {
    if j == 0 {
      assert |Candidates(lang)[0]| == |lang.isoCode|;
    } else if j == 1 {
      assert |Candidates(lang)[1]| == |lang.englishName|;
    } else {
      assert |Candidates(lang)[2]| == |lang.localName.value|;
    }
  }

  /** The empty query is a prefix of every non-empty candidate, so it scores 0. */
  lemma EmptyQueryScoresZero(cat: Catalogue, ratio: Ratio)
    requires forall i | 0 <= i < |cat| :: cat[i].isoCode != "" && cat[i].englishName != ""
    ensures Misses(cat, [], |cat|)
    ensures ScoresAtMost(cat, [], ratio, |cat|, 0.0)
  {
    forall i, j | 0 <= i < |cat| && 0 <= j < |Candidates(cat[i])|
      ensures Candidates(cat[i])[j] != []
    {
      CandidatesNonEmpty(cat[i], j);
    }
    forall i, j | 0 <= i < |cat| && 0 <= j < |Candidates(cat[i])|
      ensures Score([], Candidates(cat[i])[j], ratio) <= 0.0
    {
      EmptyIsSubstring(Candidates(cat[i])[j]);
    }
  }

  /** With every ISO code and English name non-empty, an empty or all-white-space
      query scores 0 against every candidate and resolves to nothing. */
  lemma BlankQueryNoMatch(cat: Catalogue, query: string, ratio: Ratio, r: Option<nat>)
    requires forall i | 0 <= i < |cat| :: cat[i].isoCode != "" && cat[i].englishName != ""
    requires AllSpace(query)
    requires IsFuzzyResult(cat, Normalize(query), ratio, r)
    ensures r == None
  {
    assert TrimStart(query) == [];
    assert Normalize(query) == [];
    EmptyQueryScoresZero(cat, ratio);
    NoScoreAboveThresholdNoMatch(cat, [], ratio, r);
  }

  /** The two-member catalogue English ("en", "English", "English") and
      German ("de", "German", "Deutsch"). */
  function EnglishAndGerman(): Catalogue {
    [Language("en", "English", Some("English")), Language("de", "German", Some("Deutsch"))]
  }

  lemma EnglishAndGermanCandidates()
    ensures Candidates(EnglishAndGerman()[0]) == ["en", "english", "english"]
    ensures Candidates(EnglishAndGerman()[1]) == ["de", "german", "deutsch"]
  {
    assert Lower("en") == "en";
    assert Lower("English") == "english";
    assert Lower("de") == "de";
    assert Lower("German") == "german";
    assert Lower("Deutsch") == "deutsch";
  }

  lemma GermNotInEnglish()
    ensures !IsSubstring("germ", "english") && !IsSubstring("germ", "en")
  {
    forall k | 0 <= k <= |"english"| - |"germ"|
      ensures !OccursAt("germ", "english", k)
    {
      assert "english"[k..k + 4][0] == "english"[k];
      if k == 2 {
        assert "english"[k..k + 4][1] == 'l';
      }
    }
    if IsSubstring("germ", "en") {
      SubstringNoLonger("germ", "en");
    }
  }

  /** The scores of "germ": no exact hit, 4/6 against "german", and below
      4/6 against every candidate of English. */
  lemma GermScores(ratio: Ratio, q: string)
    requires q == "germ"
    requires ratio(q, "en") < 4.0 / 6.0 && ratio(q, "english") < 4.0 / 6.0
    ensures Misses(EnglishAndGerman(), q, 2)
    ensures Score(q, Candidates(EnglishAndGerman()[1])[1], ratio) == 4.0 / 6.0
    ensures forall j | 0 <= j < |Candidates(EnglishAndGerman()[0])| ::
      Score(q, Candidates(EnglishAndGerman()[0])[j], ratio) < 4.0 / 6.0
  {
    var cat := EnglishAndGerman();
    EnglishAndGermanCandidates();
    GermNotInEnglish();
    forall i, j | 0 <= i < |cat| && 0 <= j < |Candidates(cat[i])|
      ensures Candidates(cat[i])[j] != q
    {
      assert |Candidates(cat[i])[j]| != |q|;
    }
    assert OccursAt(q, "german", 0);
  }

  /** "germ" is a prefix of "german" and scores 4/6, so it resolves to
      German as long as the similarity ratio of "germ" against English's
      candidates stays below that. */
  lemma GermResolvesToGerman(ratio: Ratio, r: Option<nat>)
    requires ratio("germ", "en") < 4.0 / 6.0 && ratio("germ", "english") < 4.0 / 6.0
    requires IsFuzzyResult(EnglishAndGerman(), "germ", ratio, r)
    ensures r == Some(1)
  {
    GermScores(ratio, "germ");
  }
}
