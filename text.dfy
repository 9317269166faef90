/** ASCII models of the Python `str` built-ins the bot relies on: `isspace`,
    `isdigit`, `isalnum`, `lower`, `upper`, `strip`, `in`, `startswith`,
    `replace`, `join`, `int` on digit strings and `str` on integers. */
module Text {

  // ---------------------------------------------------------------- characters

  /** `c.isspace()` for the ASCII range: tab to carriage return, the four
      separator controls and the space. */
  predicate IsSpace(c: char) {
    c == ' ' || ('\t' <= c <= '\r') || ('\U{1C}' <= c <= '\U{1F}')
  }

  predicate IsDigit(c: char) { '0' <= c <= '9' }

  predicate IsUpper(c: char) { 'A' <= c <= 'Z' }

  predicate IsLower(c: char) { 'a' <= c <= 'z' }

  predicate IsAlnum(c: char) { IsDigit(c) || IsUpper(c) || IsLower(c) }

  function LowerChar(c: char): (d: char)
    ensures IsUpper(c) ==> IsLower(d)
    ensures !IsUpper(c) ==> d == c
  {
    if IsUpper(c) then (c as int + 32) as char else c
  }

  function UpperChar(c: char): (d: char)
    ensures IsLower(c) ==> IsUpper(d)
    ensures !IsLower(c) ==> d == c
  {
    if IsLower(c) then (c as int - 32) as char else c
  }

  // ---------------------------------------------------------------- case

  function Lower(s: string): (r: string)
    ensures |r| == |s|
    ensures forall i | 0 <= i < |s| :: r[i] == LowerChar(s[i])
  {
    seq(|s|, i requires 0 <= i < |s| => LowerChar(s[i]))
  }

  function Upper(s: string): (r: string)
    ensures |r| == |s|
    ensures forall i | 0 <= i < |s| :: r[i] == UpperChar(s[i])
  {
    seq(|s|, i requires 0 <= i < |s| => UpperChar(s[i]))
  }

  lemma LowerConcat(a: string, b: string)
    ensures Lower(a + b) == Lower(a) + Lower(b)
  {
  }

  lemma UpperConcat(a: string, b: string)
    ensures Upper(a + b) == Upper(a) + Upper(b)
  {
  }

  // ---------------------------------------------------------------- strip

  /** `s.lstrip()`: the longest suffix of `s` that does not start with white space. */
  function TrimStart(s: string): (r: string)
    ensures |r| <= |s| && r == s[|s| - |r|..]
    ensures r == [] || !IsSpace(r[0])
    ensures forall i | 0 <= i < |s| - |r| :: IsSpace(s[i])
  {
    if s != [] && IsSpace(s[0]) then TrimStart(s[1..]) else s
  }

  /** `s.rstrip()`: the longest prefix of `s` that does not end with white space. */
  function TrimEnd(s: string): (r: string)
    ensures |r| <= |s| && r == s[..|r|]
    ensures r == [] || !IsSpace(r[|r| - 1])
    ensures forall i | |r| <= i < |s| :: IsSpace(s[i])
  {
    if s != [] && IsSpace(s[|s| - 1]) then TrimEnd(s[..|s| - 1]) else s
  }

  /** `s.strip()`. */
  function Strip(s: string): string {
    TrimEnd(TrimStart(s))
  }

  predicate AllSpace(s: string) {
    forall i | 0 <= i < |s| :: IsSpace(s[i])
  }

  /** One step of `lstrip`. */
  lemma TrimStartCons(s: string)
    requires s != []
    ensures TrimStart(s) == if IsSpace(s[0]) then TrimStart(s[1..]) else s
  {
  }

  lemma {:induction false} TrimStartSkipsSpace(ws: string, s: string)
    requires AllSpace(ws)
    ensures TrimStart(ws + s) == TrimStart(s)
  {
    if ws != [] {
      var w := ws + s;
      TrimStartCons(w);
      assert w[1..] == ws[1..] + s;
      TrimStartSkipsSpace(ws[1..], s);
    } else {
      assert ws + s == s;
    }
  }

  lemma {:induction false} TrimEndSkipsSpace(s: string, ws: string)
    requires AllSpace(ws)
    ensures TrimEnd(s + ws) == TrimEnd(s)
  {
    if ws != [] {
      var w := s + ws;
      assert w[|w| - 1] == ws[|ws| - 1] && IsSpace(w[|w| - 1]);
      assert TrimEnd(w) == TrimEnd(w[..|w| - 1]);
      assert w[..|w| - 1] == s + ws[..|ws| - 1];
      TrimEndSkipsSpace(s, ws[..|ws| - 1]);
    } else {
      assert s + ws == s;
    }
  }

  lemma {:induction false} TrimStartKeepsTail(s: string, t: string)
    requires TrimStart(s) != []
    ensures TrimStart(s + t) == TrimStart(s) + t
  {
    assert s != [];
    var w := s + t;
    TrimStartCons(s);
    TrimStartCons(w);
    if IsSpace(s[0]) {
      assert w[1..] == s[1..] + t;
      TrimStartKeepsTail(s[1..], t);
    }
  }

  /** Surrounding white space does not change what `strip` returns. */
  lemma StripIgnoresSurroundingSpace(ws1: string, s: string, ws2: string)
    requires AllSpace(ws1) && AllSpace(ws2)
    ensures Strip(ws1 + s + ws2) == Strip(s)
  {
    assert ws1 + s + ws2 == ws1 + (s + ws2);
    TrimStartSkipsSpace(ws1, s + ws2);
    if TrimStart(s) == [] {
      assert AllSpace(s + ws2);
      TrimStartSkipsSpace(s + ws2, []);
      assert s + ws2 + [] == s + ws2;
    } else {
      TrimStartKeepsTail(s, ws2);
      TrimEndSkipsSpace(TrimStart(s), ws2);
    }
  }

  lemma {:induction false} TrimStartLower(s: string)
    ensures Lower(TrimStart(s)) == TrimStart(Lower(s))
  {
    if s != [] {
      var l := Lower(s);
      assert l[0] == LowerChar(s[0]);
      assert IsSpace(l[0]) == IsSpace(s[0]);
      assert l[1..] == Lower(s[1..]);
      TrimStartLower(s[1..]);
      if IsSpace(s[0]) {
        assert TrimStart(s) == TrimStart(s[1..]);
        assert TrimStart(l) == TrimStart(l[1..]);
      } else {
        assert TrimStart(s) == s;
        assert TrimStart(l) == l;
      }
    }
  }

  lemma {:induction false} TrimEndLower(s: string)
    ensures Lower(TrimEnd(s)) == TrimEnd(Lower(s))
  {
    if s != [] {
      var l := Lower(s);
      assert l[|s| - 1] == LowerChar(s[|s| - 1]);
      assert IsSpace(l[|s| - 1]) == IsSpace(s[|s| - 1]);
      assert l[..|s| - 1] == Lower(s[..|s| - 1]);
      TrimEndLower(s[..|s| - 1]);
      if IsSpace(s[|s| - 1]) {
        assert TrimEnd(s) == TrimEnd(s[..|s| - 1]);
        assert TrimEnd(l) == TrimEnd(l[..|s| - 1]);
      } else {
        assert TrimEnd(s) == s;
        assert TrimEnd(l) == l;
      }
    }
  }

  /** Lower-casing and stripping commute: case never changes what is white space. */
  lemma StripLowerCommute(s: string)
    ensures Lower(Strip(s)) == Strip(Lower(s))
  {
    TrimEndLower(TrimStart(s));
    TrimStartLower(s);
  }

  // ---------------------------------------------------------------- search

  /** `q` occurs in `c` starting at index `k`. */
  predicate OccursAt(q: string, c: string, k: int) {
    0 <= k && k + |q| <= |c| && c[k..k + |q|] == q
  }

  /** Python's `q in c` on strings. */
  predicate IsSubstring(q: string, c: string) {
    exists k | 0 <= k <= |c| - |q| :: OccursAt(q, c, k)
  }

  lemma SubstringNoLonger(q: string, c: string)
    requires IsSubstring(q, c)
    ensures |q| <= |c|
    ensures |q| == |c| ==> q == c
  {
    var k :| 0 <= k <= |c| - |q| && OccursAt(q, c, k);
    if |q| == |c| {
      assert k == 0 && c[..|c|] == c;
    }
  }

  lemma EmptyIsSubstring(c: string)
    ensures IsSubstring([], c)
  {
    assert OccursAt([], c, 0);
  }

  predicate StartsWith(s: string, prefix: string) {
    |prefix| <= |s| && s[..|prefix|] == prefix
  }

  // ---------------------------------------------------------------- order

  /** `a <= b` on strings: lexicographic by code point, a prefix first. */
  predicate StringLe(a: string, b: string) {
    if a == [] then true
    else if b == [] then false
    else if a[0] != b[0] then a[0] < b[0]
    else StringLe(a[1..], b[1..])
  }

  lemma {:induction false} StringLeTotal(a: string, b: string)
    ensures StringLe(a, b) || StringLe(b, a)
  {
    if a != [] && b != [] && a[0] == b[0] {
      StringLeTotal(a[1..], b[1..]);
    }
  }

  lemma {:induction false} StringLeTransitive(a: string, b: string, c: string)
    requires StringLe(a, b) && StringLe(b, c)
    ensures StringLe(a, c)
  {
    if a != [] && b != [] && c != [] && a[0] == b[0] && b[0] == c[0] {
      StringLeTransitive(a[1..], b[1..], c[1..]);
    }
  }

  // ---------------------------------------------------------------- replace

  /** `s.replace(pat, rep)`: every non-overlapping occurrence of `pat`, scanning
      left to right, is replaced by `rep`. */
  function Replace(s: string, pat: string, rep: string): string
    requires pat != []
    decreases |s|
  {
    if |s| < |pat| then s
    else if s[..|pat|] == pat then rep + Replace(s[|pat|..], pat, rep)
    else [s[0]] + Replace(s[1..], pat, rep)
  }

  /** A character that is neither in `s` nor in `rep` is not in the result. */
  lemma {:induction false} ReplaceKeepsAbsent(s: string, pat: string, rep: string, d: char)
    requires pat != []
    requires d !in s && d !in rep
    ensures d !in Replace(s, pat, rep)
    decreases |s|
  {
    if |s| >= |pat| {
      if s[..|pat|] == pat {
        assert forall i | 0 <= i < |s| - |pat| :: s[|pat|..][i] == s[|pat| + i];
        ReplaceKeepsAbsent(s[|pat|..], pat, rep, d);
      } else {
        assert forall i | 0 <= i < |s| - 1 :: s[1..][i] == s[1 + i];
        ReplaceKeepsAbsent(s[1..], pat, rep, d);
      }
    }
  }

  /** Replacing a single character by a text without it removes it entirely. */
  lemma {:induction false} ReplaceRemovesChar(s: string, a: char, rep: string)
    requires a !in rep
    ensures a !in Replace(s, [a], rep)
    decreases |s|
  {
    if |s| >= 1 {
      ReplaceRemovesChar(s[1..], a, rep);
    }
  }

  /** A single-character replace works character by character. */
  lemma ReplaceCharCons(c: char, t: string, a: char, rep: string)
    ensures Replace([c] + t, [a], rep) == (if c == a then rep else [c]) + Replace(t, [a], rep)
  {
    assert ([c] + t)[..1] == [c];
    assert ([c] + t)[1..] == t;
  }

  lemma {:induction false} ReplaceCharConcat(u: string, t: string, a: char, rep: string)
    ensures Replace(u + t, [a], rep) == Replace(u, [a], rep) + Replace(t, [a], rep)
    decreases |u|
  {
    if u != [] {
      assert u + t == [u[0]] + (u[1..] + t);
      assert u == [u[0]] + u[1..];
      ReplaceCharCons(u[0], u[1..] + t, a, rep);
      ReplaceCharCons(u[0], u[1..], a, rep);
      ReplaceCharConcat(u[1..], t, a, rep);
      var h := if u[0] == a then rep else [u[0]];
      calc {
        Replace(u + t, [a], rep);
        h + Replace(u[1..] + t, [a], rep);
        h + (Replace(u[1..], [a], rep) + Replace(t, [a], rep));
        (h + Replace(u[1..], [a], rep)) + Replace(t, [a], rep);
        Replace(u, [a], rep) + Replace(t, [a], rep);
      }
    } else {
      assert u + t == t;
    }
  }

  /** One step of `replace` where the pattern does not start at the front. */
  lemma ReplaceSkip(s: string, pat: string, rep: string)
    requires pat != [] && |s| >= |pat| && s[..|pat|] != pat
    ensures Replace(s, pat, rep) == [s[0]] + Replace(s[1..], pat, rep)
  {
  }

  /** A text without the pattern's first character is left unchanged. */
  lemma {:induction false} ReplaceWithoutHead(s: string, pat: string, rep: string)
    requires pat != [] && pat[0] !in s
    ensures Replace(s, pat, rep) == s
    decreases |s|
  {
    if |s| >= |pat| {
      assert s[0] != pat[0];
      assert s[..|pat|] != pat by {
        assert s[..|pat|][0] == s[0];
      }
      assert s[0] in s;
      assert forall c | c in s[1..] :: c in s;
      ReplaceWithoutHead(s[1..], pat, rep);
      assert s == [s[0]] + s[1..];
    }
  }

  /** Replacing inside `u + pat + t` where `u` cannot hold the start of a match. */
  lemma ReplaceAroundMatch(u: string, pat: string, rep: string, t: string)
    requires pat != [] && pat[0] !in u
    ensures Replace(u + pat + t, pat, rep) == u + rep + Replace(t, pat, rep)
  {
    ReplaceSkipPrefix(u, pat + t, pat, rep);
    assert u + pat + t == u + (pat + t);
    assert (pat + t)[..|pat|] == pat && (pat + t)[|pat|..] == t;
  }

  /** Characters before the first possible match are copied unchanged. */
  lemma {:induction false} ReplaceSkipPrefix(u: string, s: string, pat: string, rep: string)
    requires pat != [] && pat[0] !in u
    ensures Replace(u + s, pat, rep) == u + Replace(s, pat, rep)
    decreases |u|
  {
    var w := u + s;
    if u == [] {
      assert w == s;
    } else if |w| < |pat| {
      assert Replace(w, pat, rep) == w;
      assert Replace(s, pat, rep) == s;
    } else {
      assert w[..|pat|][0] == u[0];
      assert u[0] in u;
      ReplaceSkip(w, pat, rep);
      assert w[1..] == u[1..] + s;
      assert forall c | c in u[1..] :: c in u;
      ReplaceSkipPrefix(u[1..], s, pat, rep);
      assert u == [u[0]] + u[1..];
    }
  }

  // ---------------------------------------------------------------- join

  /** `sep.join(parts)`. */
  function Join(parts: seq<string>, sep: string): string {
    if |parts| == 0 then []
    else if |parts| == 1 then parts[0]
    else parts[0] + sep + Join(parts[1..], sep)
  }

  // ---------------------------------------------------------------- numbers

  /** `s.isdigit()`: non-empty and made of digits only. */
  predicate IsDigits(s: string) {
    |s| > 0 && forall i | 0 <= i < |s| :: IsDigit(s[i])
  }

  function DigitValue(c: char): (d: nat)
    requires IsDigit(c)
    ensures d < 10
  {
    c as int - '0' as int
  }

  function DigitChar(d: nat): (c: char)
    requires d < 10
    ensures IsDigit(c) && DigitValue(c) == d
  {
    ('0' as int + d) as char
  }

  /** `int(s)` for a string of decimal digits. */
  function DecimalValue(s: string): nat
    requires forall i | 0 <= i < |s| :: IsDigit(s[i])
  {
    if s == [] then 0 else DecimalValue(s[..|s| - 1]) * 10 + DigitValue(s[|s| - 1])
  }

  /** `str(n)` for a natural number: decimal digits without a leading zero. */
  function NatToString(n: nat): (s: string)
    ensures IsDigits(s)
    ensures n > 0 ==> s[0] != '0'
    ensures n == 0 <==> s == "0"
  {
    if n < 10 then [DigitChar(n)] else NatToString(n / 10) + [DigitChar(n % 10)]
  }

  /** `str(i)` for any integer. */
  function IntToString(i: int): string {
    if i < 0 then "-" + NatToString(-i) else NatToString(i)
  }

  /** `int(str(n)) == n`. */
  lemma {:induction false} NatToStringRoundTrip(n: nat)
    ensures DecimalValue(NatToString(n)) == n
  {
    var s := NatToString(n);
    if n >= 10 {
      assert s[..|s| - 1] == NatToString(n / 10);
      NatToStringRoundTrip(n / 10);
    }
  }
}
