/** The string operations of Python's standard library that the exporter uses,
    written out over `seq<char>`: prefixes and occurrences, `str.split` and
    `str.join`, decimal rendering of integers, `str.strip`, `str.replace`,
    `str.title` and `html.escape`. */
module Text {

  // ---------------------------------------------------------------------
  // Prefixes and occurrences

  predicate StartsWith(s: string, p: string) {
    |p| <= |s| && s[..|p|] == p
  }

  /** A text is what precedes a stretch of it, the stretch, and what follows. */
  lemma CutAround(s: string, i: nat, n: nat)
    requires i + n <= |s|
    ensures s == s[..i] + (s[i..i + n] + s[i + n..])
  {
  }

  /** A stretch of a stretch is a stretch of the whole. */
  lemma SubSlice(s: string, a: nat, b: nat, i: nat, j: nat)
    requires a <= b <= |s| && i <= j <= b - a
    ensures s[a..b][i..j] == s[a + i..a + j]
  {
    assert forall k :: 0 <= k < j - i ==> s[a..b][i..j][k] == s[a + i + k];
  }

  lemma StartsWithRest(s: string, p: string)
    requires StartsWith(s, p)
    ensures s == p + s[|p|..]
  {
  }

  /** A text written as `p` then `x` starts with `p`, and `x` follows it. */
  lemma StartsWithThen(p: string, x: string)
    ensures StartsWith(p + x, p) && (p + x)[|p|..] == x
  {
    assert (p + x)[..|p|] == p;
  }

  /** A text that does not start with `p` has no prefix that does. */
  lemma NotStartsWithPrefix(a: string, b: string, p: string)
    requires |a| <= |b| && a == b[..|a|] && !StartsWith(b, p)
    ensures !StartsWith(a, p)
  {
    if |p| <= |a| {
      assert a[..|p|] == b[..|p|];
    }
  }

  /** Python's `p in s`. */
  predicate Contains(s: string, p: string)
    decreases |s|
  {
    StartsWith(s, p) || (s != [] && Contains(s[1..], p))
  }

  lemma {:induction false} ContainsLength(s: string, p: string)
    requires Contains(s, p)
    ensures |p| <= |s|
    decreases |s|
  {
    if !StartsWith(s, p) {
      ContainsLength(s[1..], p);
    }
  }

  /** An occurrence at position `i` is an occurrence in `s`. */
  lemma {:induction false} ContainsAt(s: string, p: string, i: nat)
    requires i <= |s| && StartsWith(s[i..], p)
    ensures Contains(s, p)
    decreases i
  {
    if i > 0 {
      assert s[1..][i - 1..] == s[i..];
      ContainsAt(s[1..], p, i - 1);
    } else {
      assert s[0..] == s;
    }
  }

  /** What a suffix contains, the whole string contains. */
  lemma {:induction false} ContainsSuffix(s: string, p: string, i: nat)
    requires i <= |s| && Contains(s[i..], p)
    ensures Contains(s, p)
    decreases i
  {
    if i > 0 {
      assert s[1..][i - 1..] == s[i..];
      ContainsSuffix(s[1..], p, i - 1);
    } else {
      assert s[0..] == s;
    }
  }

  /** What a prefix contains, the whole string contains. */
  lemma {:induction false} ContainsPrefix(a: string, b: string, p: string)
    requires Contains(a, p)
    ensures Contains(a + b, p)
    decreases |a|
  {
    if StartsWith(a, p) {
      assert (a + b)[..|p|] == a[..|p|];
    } else {
      ContainsPrefix(a[1..], b, p);
      assert (a + b)[1..] == a[1..] + b;
    }
  }

  /** What either part contains, the whole contains. */
  lemma ContainsParts(a: string, b: string, p: string)
    ensures Contains(a, p) || Contains(b, p) ==> Contains(a + b, p)
  {
    if Contains(a, p) {
      ContainsPrefix(a, b, p);
    } else if Contains(b, p) {
      assert (a + b)[|a|..] == b;
      ContainsSuffix(a + b, p, |a|);
    }
  }

  // ---------------------------------------------------------------------
  // str.split and str.join with a one-character separator

  /** Python's `s.split(sep)`: always at least one part, none holding `sep`. */
  function Split(s: string, sep: char): (parts: seq<string>)
    ensures |parts| >= 1
    ensures forall i :: 0 <= i < |parts| ==> sep !in parts[i]
    decreases |s|
  {
    if s == [] then [""]
    else
      var rest := Split(s[1..], sep);
      if s[0] == sep then [""] + rest
      else [[s[0]] + rest[0]] + rest[1..]
  }

  /** Python's `sep.join(parts)`. */
  function Join(parts: seq<string>, sep: char): string
    decreases |parts|
  {
    if |parts| == 0 then ""
    else if |parts| == 1 then parts[0]
    else parts[0] + [sep] + Join(parts[1..], sep)
  }

  /** Joining the parts of a split gives the text back. */
  lemma {:induction false} JoinSplit(s: string, sep: char)
    ensures Join(Split(s, sep), sep) == s
    decreases |s|
  {
    if s != [] {
      JoinSplit(s[1..], sep);
      var rest := Split(s[1..], sep);
      if s[0] == sep {
        assert Split(s, sep) == [""] + rest;
        assert ([""] + rest)[1..] == rest;
      } else {
        var parts := [[s[0]] + rest[0]] + rest[1..];
        assert Split(s, sep) == parts;
        if |rest| > 1 {
          assert parts[1..] == rest[1..];
          assert Join(rest, sep) == rest[0] + [sep] + Join(rest[1..], sep);
        }
      }
    }
  }

  /** Splitting a separator-free piece followed by a separator peels that piece off. */
  lemma {:induction false} SplitPeel(a: string, t: string, sep: char)
    requires sep !in a
    ensures Split(a + [sep] + t, sep) == [a] + Split(t, sep)
    decreases |a|
  {
    if a == [] {
      assert ([] + [sep] + t)[1..] == t;
    } else {
      assert (a + [sep] + t)[1..] == a[1..] + [sep] + t;
      SplitPeel(a[1..], t, sep);
      assert [a[0]] + a[1..] == a;
    }
  }

  /** A separator-free text splits into itself alone. */
  lemma {:induction false} SplitWhole(a: string, sep: char)
    requires sep !in a
    ensures Split(a, sep) == [a]
    decreases |a|
  {
    if a != [] {
      SplitWhole(a[1..], sep);
      assert [a[0]] + a[1..] == a;
    }
  }

  /** Splitting a join of separator-free parts gives the parts back. */
  lemma {:induction false} SplitJoin(parts: seq<string>, sep: char)
    requires |parts| >= 1
    requires forall i :: 0 <= i < |parts| ==> sep !in parts[i]
    ensures Split(Join(parts, sep), sep) == parts
    decreases |parts|
  {
    if |parts| == 1 {
      SplitWhole(parts[0], sep);
    } else {
      SplitJoin(parts[1..], sep);
      SplitPeel(parts[0], Join(parts[1..], sep), sep);
    }
  }

  /** Joining two non-empty lists of parts puts one separator between the joins. */
  lemma {:induction false} JoinAppend(a: seq<string>, b: seq<string>, sep: char)
    requires |a| >= 1 && |b| >= 1
    ensures Join(a + b, sep) == Join(a, sep) + [sep] + Join(b, sep)
    decreases |a|
  {
    if |a| == 1 {
      assert (a + b)[1..] == b;
    } else {
      assert (a + b)[1..] == a[1..] + b;
      JoinAppend(a[1..], b, sep);
    }
  }

  // ---------------------------------------------------------------------
  // Decimal digits: str(n) and int(digits)

  predicate IsDigit(c: char) {
    '0' <= c <= '9'
  }

  predicate AllDigits(s: string) {
    forall i :: 0 <= i < |s| ==> IsDigit(s[i])
  }

  function DigitChar(d: nat): (c: char)
    requires d < 10
    ensures IsDigit(c) && (c == '0' <==> d == 0)
  {
    (('0' as int) + d) as char
  }

  /** Python's `str(n)` for a non-negative integer: decimal, no leading zero. */
  function NatToString(n: nat): (s: string)
    ensures |s| >= 1 && AllDigits(s)
    ensures s[0] == '0' <==> n == 0
    decreases n
  {
    if n < 10 then [DigitChar(n)] else NatToString(n / 10) + [DigitChar(n % 10)]
  }

  /** Python's `int(s)` for a string of ASCII digits (leading zeros allowed). */
  function DigitsValue(s: string): nat
    requires AllDigits(s)
    decreases |s|
  {
    if s == [] then 0
    else 10 * DigitsValue(s[..|s| - 1]) + (s[|s| - 1] as int - '0' as int)
  }

  /** Reading back a rendered integer gives the integer. */
  lemma {:induction false} DigitsRoundTrip(n: nat)
    ensures DigitsValue(NatToString(n)) == n
    decreases n
  {
    if n >= 10 {
      DigitsRoundTrip(n / 10);
      var s := NatToString(n);
      assert s[..|s| - 1] == NatToString(n / 10);
    }
  }

  /** Distinct integers render as distinct strings. */
  lemma NatToStringInjective(m: nat, n: nat)
    requires NatToString(m) == NatToString(n)
    ensures m == n
  {
    DigitsRoundTrip(m);
    DigitsRoundTrip(n);
  }

  // ---------------------------------------------------------------------
  // str.strip()

  /** Python's `str.isspace()` for one character. */
  predicate IsSpace(c: char) {
    var n := c as int;
    n == 0x20 || 0x09 <= n <= 0x0D || 0x1C <= n <= 0x1F || n == 0x85 || n == 0xA0 ||
    n == 0x1680 || 0x2000 <= n <= 0x200A || n == 0x2028 || n == 0x2029 ||
    n == 0x202F || n == 0x205F || n == 0x3000
  }

  /** Number of leading whitespace characters. */
  function LeadingSpaces(s: string): (k: nat)
    ensures k <= |s|
    ensures forall i :: 0 <= i < k ==> IsSpace(s[i])
    ensures k < |s| ==> !IsSpace(s[k])
    decreases |s|
  {
    if s != [] && IsSpace(s[0]) then 1 + LeadingSpaces(s[1..]) else 0
  }

  /** The leading blanks are the ones before the first non-blank. */
  lemma LeadingSpacesIs(s: string, k: nat)
    requires k <= |s| && forall i :: 0 <= i < k ==> IsSpace(s[i])
    requires k < |s| ==> !IsSpace(s[k])
    ensures LeadingSpaces(s) == k
  {
  }

  /** Length of the run at the front of `t` without the character `c`
      (`[^c]*`). */
  function RunUntil(t: string, c: char): (k: nat)
    ensures k <= |t|
    ensures forall i :: 0 <= i < k ==> t[i] != c
    ensures k < |t| ==> t[k] == c
    decreases |t|
  {
    if t != [] && t[0] != c then 1 + RunUntil(t[1..], c) else 0
  }

  /** Number of trailing whitespace characters. */
  function TrailingSpaces(s: string): (k: nat)
    ensures k <= |s|
    ensures forall i :: |s| - k <= i < |s| ==> IsSpace(s[i])
    ensures k < |s| ==> !IsSpace(s[|s| - 1 - k])
    decreases |s|
  {
    if s != [] && IsSpace(s[|s| - 1]) then 1 + TrailingSpaces(s[..|s| - 1]) else 0
  }

  /** Python's `s.strip()`: the text between the leading and the trailing whitespace. */
  function Strip(s: string): (r: string)
    ensures |r| <= |s|
    ensures r != [] ==> !IsSpace(r[0]) && !IsSpace(r[|r| - 1])
    ensures r == [] <==> forall i :: 0 <= i < |s| ==> IsSpace(s[i])
  {
    var lead := LeadingSpaces(s);
    var t := s[lead..];
    t[..|t| - TrailingSpaces(t)]
  }

  /** A line strips to `core` exactly when it is `core` wrapped in whitespace,
      for any `core` that neither starts nor ends with whitespace. */
  lemma StripPadded(pre: string, core: string, post: string)
    requires forall i :: 0 <= i < |pre| ==> IsSpace(pre[i])
    requires forall i :: 0 <= i < |post| ==> IsSpace(post[i])
    requires core != [] && !IsSpace(core[0]) && !IsSpace(core[|core| - 1])
    ensures Strip(pre + core + post) == core
  {
    var s := pre + core + post;
    var lead := LeadingSpaces(s);
    assert s[|pre|] == core[0];
    assert lead == |pre|;
    var t := s[lead..];
    assert t == core + post;
    var trail := TrailingSpaces(t);
    assert t[|t| - 1 - |post|] == core[|core| - 1];
    assert trail == |post|;
    assert t[..|t| - trail] == core;
  }

  // ---------------------------------------------------------------------
  // str.replace

  /** Python's `s.replace(pat, rep)`: every occurrence of `pat`, leftmost first
      and without overlap, becomes `rep`; an empty `pat` occurs before every
      character and at the end. */
  function ReplaceAll(s: string, pat: string, rep: string): string
    decreases |s|
  {
    if pat == [] then rep + (if s == [] then [] else [s[0]] + ReplaceAll(s[1..], pat, rep))
    else if |s| < |pat| then s
    else if s[..|pat|] == pat then rep + ReplaceAll(s[|pat|..], pat, rep)
    else [s[0]] + ReplaceAll(s[1..], pat, rep)
  }

  /** Text without an occurrence is left as it is. */
  lemma {:induction false} ReplaceAbsent(s: string, pat: string, rep: string)
    requires pat != [] && !Contains(s, pat)
    ensures ReplaceAll(s, pat, rep) == s
    decreases |s|
  {
    if |s| >= |pat| {
      assert !StartsWith(s, pat);
      ReplaceAbsent(s[1..], pat, rep);
      assert [s[0]] + s[1..] == s;
    }
  }

  /** A first character where no occurrence starts is copied through. */
  lemma ReplaceKeep(s: string, pat: string, rep: string)
    requires pat != [] && s != [] && !StartsWith(s, pat)
    ensures ReplaceAll(s, pat, rep) == [s[0]] + ReplaceAll(s[1..], pat, rep)
  {
    if |s| < |pat| {
      assert [s[0]] + s[1..] == s;
    }
  }

  lemma ReplaceSkipStep(x: string, y: string, pat: string, rep: string)
    requires pat != [] && x != [] && !StartsWith(x + y, pat)
    requires ReplaceAll(x[1..] + y, pat, rep) == x[1..] + ReplaceAll(y, pat, rep)
    ensures ReplaceAll(x + y, pat, rep) == x + ReplaceAll(y, pat, rep)
  {
    ReplaceKeep(x + y, pat, rep);
    ConsSplit(x, y, ReplaceAll(y, pat, rep));
  }

  /** The first character of `x + y`, and the rest. */
  lemma ConsSplit(x: string, y: string, r: string)
    requires x != []
    ensures (x + y)[0] == x[0] && (x + y)[1..] == x[1..] + y && [x[0]] + (x[1..] + r) == x + r
  {
    assert [x[0]] + x[1..] == x;
  }

  /** A prefix in which no occurrence starts is copied through unchanged. */
  lemma {:induction false} ReplaceSkip(x: string, y: string, pat: string, rep: string)
    requires pat != []
    requires forall i :: 0 <= i < |x| ==> !StartsWith(x[i..] + y, pat)
    ensures ReplaceAll(x + y, pat, rep) == x + ReplaceAll(y, pat, rep)
    decreases |x|
  {
    if x != [] {
      var s := x + y;
      var x1 := x[1..];
      assert !StartsWith(s, pat) by {
        assert x[0..] + y == s;
      }
      assert ReplaceAll(x1 + y, pat, rep) == x1 + ReplaceAll(y, pat, rep) by {
        forall i | 0 <= i < |x1|
          ensures !StartsWith(x1[i..] + y, pat)
        {
          assert x1[i..] == x[i + 1..];
        }
        ReplaceSkip(x1, y, pat, rep);
      }
      ReplaceSkipStep(x, y, pat, rep);
    } else {
      assert x + y == y;
    }
  }

  /** An occurrence at the front is replaced and the scan resumes after it. */
  lemma ReplaceFront(y: string, pat: string, rep: string)
    requires pat != []
    ensures ReplaceAll(pat + y, pat, rep) == rep + ReplaceAll(y, pat, rep)
  {
    assert (pat + y)[..|pat|] == pat;
    assert (pat + y)[|pat|..] == y;
  }

  // ---------------------------------------------------------------------
  // str.title()

  predicate IsUpper(c: char) { 'A' <= c <= 'Z' }
  predicate IsLower(c: char) { 'a' <= c <= 'z' }

  /** A cased character in the sense of `str.title` (ASCII letters only). */
  predicate IsCased(c: char) { IsUpper(c) || IsLower(c) }

  function ToUpper(c: char): char {
    if IsLower(c) then ((c as int) - 32) as char else c
  }

  function ToLower(c: char): char {
    if IsUpper(c) then ((c as int) + 32) as char else c
  }

  /** One step of `str.title`: upper-case after an uncased character, lower-case after a cased one. */
  function TitleChar(c: char, afterCased: bool): (d: char)
    ensures IsCased(d) == IsCased(c)
  {
    if afterCased then ToLower(c) else ToUpper(c)
  }

  function TitleFrom(s: string, afterCased: bool): (r: string)
    ensures |r| == |s|
    decreases |s|
  {
    if s == [] then [] else [TitleChar(s[0], afterCased)] + TitleFrom(s[1..], IsCased(s[0]))
  }

  /** Python's `s.title()`: each word starts upper-case and continues lower-case. */
  function TitleCase(s: string): string {
    TitleFrom(s, false)
  }

  /** What `str.title` promises, character by character: a letter is upper-case
      exactly when the character before it is not a letter, and nothing but
      the case of letters changes. */
  lemma {:induction false} TitleFromShape(s: string, afterCased: bool, i: nat)
    requires i < |s|
    ensures var before := if i == 0 then afterCased else IsCased(s[i - 1]);
            var r := TitleFrom(s, afterCased);
            (IsCased(s[i]) ==> (IsUpper(r[i]) <==> !before)) &&
            (!IsCased(s[i]) ==> r[i] == s[i]) &&
            ToLower(r[i]) == ToLower(s[i])
    decreases i
  {
    if i > 0 {
      TitleFromShape(s[1..], IsCased(s[0]), i - 1);
    }
  }

  /** Title-casing twice is title-casing once. */
  lemma {:induction false} TitleFromIdempotent(s: string, afterCased: bool)
    ensures TitleFrom(TitleFrom(s, afterCased), afterCased) == TitleFrom(s, afterCased)
    decreases |s|
  {
    if s != [] {
      var r := TitleFrom(s, afterCased);
      assert r[1..] == TitleFrom(s[1..], IsCased(s[0]));
      TitleFromIdempotent(s[1..], IsCased(s[0]));
    }
  }

  // ---------------------------------------------------------------------
  // html.escape(s, quote=True)

  predicate IsMarkupChar(c: char) {
    c == '&' || c == '<' || c == '>' || c == '"' || c == '\''
  }

  function EscapeChar(c: char): string {
    match c
    case '&' => "&amp;"
    case '<' => "&lt;"
    case '>' => "&gt;"
    case '"' => "&quot;"
    case '\'' => "&#x27;"
    case _ => [c]
  }

  /** Python's `html.escape(s)`: `&`, `<`, `>`, `"` and `'` become entities;
      the result holds none of the four markup characters. */
  function HtmlEscape(s: string): (r: string)
    ensures forall i :: 0 <= i < |r| ==> r[i] != '<' && r[i] != '>' && r[i] != '"' && r[i] != '\''
    decreases |s|
  {
    if s == [] then [] else EscapeChar(s[0]) + HtmlEscape(s[1..])
  }

  /** Decodes the five entities `HtmlEscape` produces, and nothing else. */
  function HtmlUnescape(s: string): string
    decreases |s|
  {
    if s == [] then []
    else if s[0] != '&' then [s[0]] + HtmlUnescape(s[1..])
    else
      var e := EntityAt(s);
      [e.0] + HtmlUnescape(s[e.1..])
  }

  /** The character an entity at the front of `s` stands for, and its length;
      a lone `&` stands for itself. */
  function EntityAt(s: string): (e: (char, nat))
    requires s != [] && s[0] == '&'
    ensures 1 <= e.1 <= |s|
  {
    if StartsWith(s, "&amp;") then ('&', 5)
    else if StartsWith(s, "&lt;") then ('<', 4)
    else if StartsWith(s, "&gt;") then ('>', 4)
    else if StartsWith(s, "&quot;") then ('"', 6)
    else if StartsWith(s, "&#x27;") then ('\'', 6)
    else ('&', 1)
  }

  /** Unescaping an escaped character gives the character back and resumes after it. */
  lemma UnescapeFront(c: char, rest: string)
    ensures HtmlUnescape(EscapeChar(c) + rest) == [c] + HtmlUnescape(rest)
  {
    var e := EscapeChar(c);
    var s := e + rest;
    assert s[|e|..] == rest;
    if IsMarkupChar(c) {
      assert s[..|e|] == e;
      assert s[0] == '&';
      if c == '&' {
        assert EntityAt(s) == ('&', 5);
      } else if c == '<' {
        assert s[1] == 'l';
        assert EntityAt(s) == ('<', 4);
      } else if c == '>' {
        assert s[1] == 'g';
        assert EntityAt(s) == ('>', 4);
      } else if c == '"' {
        assert s[1] == 'q';
        assert EntityAt(s) == ('"', 6);
      } else {
        assert s[1] == '#';
        assert EntityAt(s) == ('\'', 6);
      }
    } else {
      assert s[0] == c;
    }
  }

  /** Escaping loses nothing: unescaping gives the original text back. */
  lemma {:induction false} EscapeRoundTrip(s: string)
    ensures HtmlUnescape(HtmlEscape(s)) == s
    decreases |s|
  {
    if s != [] {
      EscapeRoundTrip(s[1..]);
      UnescapeFront(s[0], HtmlEscape(s[1..]));
      assert [s[0]] + s[1..] == s;
    }
  }
}
