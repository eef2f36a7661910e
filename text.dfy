/**
 * String primitives the two programs rely on: Java's `trim`, `isBlank`,
 * `split` and `toUpperCase`, Python's `strip` and `upper`, SQLite's `LOWER`
 * with a `%q%` LIKE pattern, `GROUP_CONCAT`/`String.join`, and decimal
 * formatting and parsing of non-negative integers.
 * Case mapping covers ASCII letters only.
 */
module Text {

  // ---------------------------------------------------------------------------
  // Whitespace classes
  // ---------------------------------------------------------------------------

  /** Characters removed by Java's `String.trim`: every code point up to U+0020. */
  predicate JavaTrimmable(c: char) {
    c <= ' '
  }

  /** Java's `Character.isWhitespace`, which decides `String.isBlank` (no-break spaces excluded). */
  predicate JavaWhitespace(c: char) {
    || c == ' ' || ('\t' <= c <= '\r')
    || ('\U{1C}' <= c <= '\U{1F}')
    || c == '\U{1680}'
    || ('\U{2000}' <= c <= '\U{200A}' && c != '\U{2007}')
    || c == '\U{2028}' || c == '\U{2029}' || c == '\U{205F}' || c == '\U{3000}'
  }

  /** Characters removed by Python's argument-less `str.strip` (those for which `isspace` holds). */
  predicate PythonWhitespace(c: char) {
    || c == ' ' || ('\t' <= c <= '\r')
    || ('\U{1C}' <= c <= '\U{1F}')
    || c == '\U{85}' || c == '\U{A0}' || c == '\U{1680}'
    || ('\U{2000}' <= c <= '\U{200A}')
    || c == '\U{2028}' || c == '\U{2029}' || c == '\U{202F}' || c == '\U{205F}' || c == '\U{3000}'
  }

  // ---------------------------------------------------------------------------
  // Trimming
  // ---------------------------------------------------------------------------

  /** How many characters at the front of `s` are of the class `isSpace`. */
  function LeadingCount(s: string, isSpace: char -> bool): (n: nat)
    ensures n <= |s|
    ensures forall i | 0 <= i < n :: isSpace(s[i])
    ensures n == |s| || !isSpace(s[n])
  {
    if s != [] && isSpace(s[0]) then
      assert forall i | 1 <= i < |s| :: s[i] == s[1..][i - 1];
      1 + LeadingCount(s[1..], isSpace)
    else 0
  }

  /** How many characters at the back of `s` are of the class `isSpace`. */
  function TrailingCount(s: string, isSpace: char -> bool): (n: nat)
    ensures n <= |s|
    ensures forall i | |s| - n <= i < |s| :: isSpace(s[i])
    ensures n == |s| || !isSpace(s[|s| - n - 1])
  {
    if s != [] && isSpace(s[|s| - 1]) then
      assert forall i | 0 <= i < |s| - 1 :: s[i] == s[..|s| - 1][i];
      1 + TrailingCount(s[..|s| - 1], isSpace)
    else 0
  }

  /** `s` without its leading and trailing characters of the class `isSpace`. */
  function Strip(s: string, isSpace: char -> bool): string {
    var t := s[LeadingCount(s, isSpace)..];
    t[..|t| - TrailingCount(t, isSpace)]
  }

  /** Stripping removes characters and adds none: a character absent from `s` stays absent. */
  lemma StripKeepsOut(s: string, isSpace: char -> bool, c: char)
    requires c !in s
    ensures c !in Strip(s, isSpace)
  {
    var n := LeadingCount(s, isSpace);
    var t := s[n..];
    var r := Strip(s, isSpace);
    assert forall k | 0 <= k < |r| :: r[k] == s[n + k];
  }

  /** Java's `String.trim`. */
  function JavaTrim(s: string): string {
    Strip(s, JavaTrimmable)
  }

  /** Python's `str.strip()`. */
  function PythonStrip(s: string): string {
    Strip(s, PythonWhitespace)
  }

  /** Java's `String.isBlank`: empty or whitespace only. */
  predicate JavaIsBlank(s: string) {
    forall i | 0 <= i < |s| :: JavaWhitespace(s[i])
  }

  // ---------------------------------------------------------------------------
  // Case mapping (ASCII letters)
  // ---------------------------------------------------------------------------

  function UpperChar(c: char): char {
    if 'a' <= c <= 'z' then (c as int - 32) as char else c
  }

  function LowerChar(c: char): char {
    if 'A' <= c <= 'Z' then (c as int + 32) as char else c
  }

  /** Java's `toUpperCase` and Python's `upper` restricted to ASCII letters. */
  function Upper(s: string): (r: string)
    ensures |r| == |s|
  {
    seq(|s|, i requires 0 <= i < |s| => UpperChar(s[i]))
  }

  /** SQLite's `LOWER` (ASCII letters only) and Python's `lower` on ASCII text. */
  function Lower(s: string): (r: string)
    ensures |r| == |s|
  {
    seq(|s|, i requires 0 <= i < |s| => LowerChar(s[i]))
  }

  // ---------------------------------------------------------------------------
  // Substrings and matching
  // ---------------------------------------------------------------------------

  /** `sub` occurs in `s` at some position. */
  predicate Contains(s: string, sub: string)
    decreases |s|
  {
    sub <= s || (s != [] && Contains(s[1..], sub))
  }

  /**
   * `LOWER(field) LIKE '%' || lower(query) || '%'` when the query holds no
   * wildcard characters: a case-insensitive substring test.
   */
  predicate LikeSubstring(field: string, query: string) {
    Contains(Lower(field), Lower(query))
  }

  // ---------------------------------------------------------------------------
  // Splitting and joining
  // ---------------------------------------------------------------------------

  /** The position of the first `c` in `s`, or `|s|` when there is none. */
  function IndexOf(s: string, c: char): (i: nat)
    ensures i <= |s|
    ensures i < |s| ==> s[i] == c
    ensures forall j | 0 <= j < i :: s[j] != c
  {
    if s == [] || s[0] == c then 0
    else
      assert forall j | 1 <= j < |s| :: s[j] == s[1..][j - 1];
      1 + IndexOf(s[1..], c)
  }

  /** Java's `s.split(sep, -1)` for a one-character, non-regex separator: every field kept. */
  function SplitAll(s: string, sep: char): (parts: seq<string>)
    ensures |parts| >= 1
    decreases |s|
  {
    var i := IndexOf(s, sep);
    if i == |s| then [s] else [s[..i]] + SplitAll(s[i + 1..], sep)
  }

  /** No field of a split holds the separator, and a string without it is its own only field. */
  lemma {:induction false} SplitAllFields(s: string, sep: char)
    ensures forall i | 0 <= i < |SplitAll(s, sep)| :: sep !in SplitAll(s, sep)[i]
    ensures sep !in s ==> SplitAll(s, sep) == [s]
    decreases |s|
  {
    var i := IndexOf(s, sep);
    if i < |s| {
      SplitAllFields(s[i + 1..], sep);
      assert sep !in s[..i];
    }
  }

  /** A field free of the separator, then the separator: the field is the first part. */
  lemma SplitAllAfterField(x: string, rest: string, sep: char)
    requires sep !in x
    ensures SplitAll(x + [sep] + rest, sep) == [x] + SplitAll(rest, sep)
  {
    var s := x + [sep] + rest;
    assert s[|x|] == sep;
    assert s[..|x|] == x && s[|x| + 1..] == rest;
  }

  /** `parts` with its trailing empty strings removed. */
  function DropTrailingEmpty(parts: seq<string>): (r: seq<string>)
    ensures r <= parts
    ensures r == [] || r[|r| - 1] != ""
    ensures forall i | |r| <= i < |parts| :: parts[i] == ""
  {
    if parts != [] && parts[|parts| - 1] == "" then DropTrailingEmpty(parts[..|parts| - 1]) else parts
  }

  /**
   * Java's `s.split(sep)` (limit 0) for a one-character separator: the input
   * itself when the separator does not occur, otherwise every field with the
   * trailing empty ones removed.
   */
  function JavaSplit(s: string, sep: char): seq<string> {
    if sep !in s then [s] else DropTrailingEmpty(SplitAll(s, sep))
  }

  /** `String.join(sep, parts)`, also `GROUP_CONCAT(x, sep)` over non-null values. */
  function Join(parts: seq<string>, sep: string): string {
    if parts == [] then ""
    else if |parts| == 1 then parts[0]
    else Join(parts[..|parts| - 1], sep) + sep + parts[|parts| - 1]
  }

  lemma JoinThree(a: string, b: string, c: string, sep: string)
    ensures Join([a, b, c], sep) == a + sep + b + sep + c
  {
    assert [a, b][..1] == [a];
    assert Join([a, b], sep) == a + sep + b;
    assert [a, b, c][..2] == [a, b];
    assert Join([a, b, c], sep) == Join([a, b], sep) + sep + c;
  }

  /** Joining the fields of a split gives back the string that was split. */
  lemma {:induction false} JoinSplitAll(s: string, sep: char)
    ensures Join(SplitAll(s, sep), [sep]) == s
    decreases |s|
  {
    var i := IndexOf(s, sep);
    if i < |s| {
      var rest := SplitAll(s[i + 1..], sep);
      JoinSplitAll(s[i + 1..], sep);
      JoinPrepend(s[..i], rest, [sep]);
      assert s == s[..i] + [sep] + s[i + 1..];
    }
  }

  /** Splitting the join of separator-free fields gives back the fields. */
  lemma {:induction false} SplitAllJoin(parts: seq<string>, sep: char)
    requires parts != []
    requires forall i | 0 <= i < |parts| :: sep !in parts[i]
    ensures SplitAll(Join(parts, [sep]), sep) == parts
    decreases |parts|
  {
    if |parts| == 1 {
      SplitAllFields(parts[0], sep);
    } else {
      var rest := parts[1..];
      SplitAllJoin(rest, sep);
      JoinPrepend(parts[0], rest, [sep]);
      assert [parts[0]] + rest == parts;
      SplitAllAfterField(parts[0], Join(rest, [sep]), sep);
    }
  }

  /** Prepending an element adds it, followed by one separator, to the front. */
  lemma {:induction false} JoinPrepend(x: string, parts: seq<string>, sep: string)
    requires parts != []
    ensures Join([x] + parts, sep) == x + sep + Join(parts, sep)
    decreases |parts|
  {
    if |parts| == 1 {
      assert [x] + parts == [x, parts[0]];
      assert [x, parts[0]][..1] == [x];
    } else {
      var init := parts[..|parts| - 1];
      assert ([x] + parts)[..|parts|] == [x] + init;
      JoinPrepend(x, init, sep);
    }
  }

  // ---------------------------------------------------------------------------
  // Decimal digits
  // ---------------------------------------------------------------------------

  predicate IsDigit(c: char) {
    '0' <= c <= '9'
  }

  predicate AllDigits(s: string) {
    forall i | 0 <= i < |s| :: IsDigit(s[i])
  }

  function DigitValue(c: char): nat
    requires IsDigit(c)
  {
    c as int - '0' as int
  }

  function DigitChar(d: nat): (c: char)
    requires d < 10
    ensures IsDigit(c) && DigitValue(c) == d
  {
    ('0' as int + d) as char
  }

  /** The value of a string of decimal digits, read most significant digit first (Python's `int`). */
  function DigitsValue(s: string): nat
    requires AllDigits(s)
  {
    if s == [] then 0 else DigitsValue(s[..|s| - 1]) * 10 + DigitValue(s[|s| - 1])
  }

  function Pow10(n: nat): (p: nat)
    ensures p >= 1
  {
    if n == 0 then 1 else 10 * Pow10(n - 1)
  }

  /** The decimal representation of `n` without leading zeros (Java's `String.valueOf`). */
  function NatToDigits(n: nat): (s: string)
    ensures 1 <= |s| && AllDigits(s)
    ensures DigitsValue(s) == n
    ensures |s| > 1 ==> s[0] != '0'
  {
    if n < 10 then [DigitChar(n)]
    else
      var init := NatToDigits(n / 10);
      var s := init + [DigitChar(n % 10)];
      assert s[..|s| - 1] == init;
      s
  }

  /** `s` padded on the left with `'0'` up to `width` characters (Python's `{:0{width}d}`, as in `:06d`). */
  function ZeroPad(s: string, width: nat): (r: string)
    ensures |r| == if |s| < width then width else |s|
    ensures r[|r| - |s|..] == s
    ensures forall i | 0 <= i < |r| - |s| :: r[i] == '0'
  {
    if |s| < width then seq(width - |s|, _ => '0') + s else s
  }

  /** A number's digits fit below the matching power of ten. */
  lemma {:induction false} DigitsValueBound(s: string)
    requires AllDigits(s)
    ensures DigitsValue(s) < Pow10(|s|)
    decreases |s|
  {
    if s != [] {
      DigitsValueBound(s[..|s| - 1]);
    }
  }

  /** Leading zeros do not change a value. */
  lemma {:induction false} LeadingZerosValue(z: string, s: string)
    requires forall i | 0 <= i < |z| :: z[i] == '0'
    requires AllDigits(s)
    ensures AllDigits(z + s) && DigitsValue(z + s) == DigitsValue(s)
    decreases |s|
  {
    if s == [] {
      assert z + s == z;
      ZerosValue(z);
    } else {
      var init := s[..|s| - 1];
      assert (z + s)[..|z + s| - 1] == z + init;
      LeadingZerosValue(z, init);
    }
  }

  lemma {:induction false} ZerosValue(z: string)
    requires forall i | 0 <= i < |z| :: z[i] == '0'
    ensures AllDigits(z) && DigitsValue(z) == 0
    decreases |z|
  {
    if z != [] {
      ZerosValue(z[..|z| - 1]);
    }
  }

  /** Reading the most significant digit first. */
  lemma {:induction false} DigitsValueFront(s: string)
    requires s != [] && AllDigits(s)
    ensures DigitsValue(s) == DigitValue(s[0]) * Pow10(|s| - 1) + DigitsValue(s[1..])
    decreases |s|
  {
    if |s| > 1 {
      var init := s[..|s| - 1];
      DigitsValueFront(init);
      assert init[1..] == s[1..][..|s| - 2];
      assert DigitsValue(s[1..]) == DigitsValue(init[1..]) * 10 + DigitValue(s[|s| - 1]);
      assert Pow10(|s| - 1) == Pow10(|s| - 2) * 10;
      ShiftDigit(DigitValue(s[0]), Pow10(|s| - 2), DigitsValue(init[1..]), DigitValue(s[|s| - 1]));
    }
  }

  /** Appending a digit to a number whose leading digit is worth `a * p`. */
  lemma ShiftDigit(a: int, p: int, r: int, d: int)
    ensures (a * p + r) * 10 + d == a * (p * 10) + (r * 10 + d)
  {
  }
}
