/**
 * The output side of `Main.normalize`: `quote` (fields escaped as section 2,
 * rules 6 and 7, of RFC 4180 describe), `writeCsv` (a header line, then one
 * line per element in iteration order), and the `isbn#id` keys of the
 * book-author set, split back at their last `#`.
 */
module Csv {
  import opened Wrappers
  import opened Text

  const Comma := ','
  const DoubleQuote := '"'
  const LineBreak := '\n'
  /** Separates the ISBN from the author id in a book-author key. */
  const PairSeparator := '#'

  // ---------------------------------------------------------------------------
  // quote
  // ---------------------------------------------------------------------------

  /** `s.replace("\"", "\"\"")`: every double quote doubled. */
  function EscapeQuotes(s: string): (r: string)
    ensures |r| >= |s|
  {
    if s == [] then []
    else (if s[0] == DoubleQuote then [DoubleQuote, DoubleQuote] else [s[0]]) + EscapeQuotes(s[1..])
  }

  /** `quote(s)`: enclose in double quotes, doubling the quotes inside, when `s` holds a comma or a double quote. */
  function Quote(s: string): string {
    if Comma in s || DoubleQuote in s then [DoubleQuote] + EscapeQuotes(s) + [DoubleQuote] else s
  }

  /** Undo `EscapeQuotes`: a doubled quote reads as one. */
  function UnescapeQuotes(t: string): string
    decreases |t|
  {
    if t == [] then []
    else if |t| >= 2 && t[0] == DoubleQuote && t[1] == DoubleQuote then [DoubleQuote] + UnescapeQuotes(t[2..])
    else [t[0]] + UnescapeQuotes(t[1..])
  }

  /** Read a CSV field: strip the enclosing quotes of an escaped field and undouble its quotes. */
  function Unquote(f: string): string {
    if |f| >= 2 && f[0] == DoubleQuote && f[|f| - 1] == DoubleQuote then UnescapeQuotes(f[1..|f| - 1]) else f
  }

  /** Text between the enclosing quotes of an RFC 4180 escaped field: any character, quotes only in pairs. */
  predicate EscapedBody(t: string)
    decreases |t|
  {
    if t == [] then true
    else if t[0] == DoubleQuote then |t| >= 2 && t[1] == DoubleQuote && EscapedBody(t[2..])
    else EscapedBody(t[1..])
  }

  /** An RFC 4180 escaped field: `DQUOTE *(TEXTDATA / COMMA / CR / LF / 2DQUOTE) DQUOTE`. */
  predicate EscapedField(f: string) {
    |f| >= 2 && f[0] == DoubleQuote && f[|f| - 1] == DoubleQuote && EscapedBody(f[1..|f| - 1])
  }

  lemma {:induction false} UnescapeEscape(s: string)
    ensures UnescapeQuotes(EscapeQuotes(s)) == s
    ensures EscapedBody(EscapeQuotes(s))
    decreases |s|
  {
    if s != [] {
      UnescapeEscape(s[1..]);
      var rest := EscapeQuotes(s[1..]);
      if s[0] == DoubleQuote {
        assert EscapeQuotes(s) == [DoubleQuote, DoubleQuote] + rest;
        assert EscapeQuotes(s)[2..] == rest;
      } else {
        assert EscapeQuotes(s) == [s[0]] + rest;
        assert EscapeQuotes(s)[1..] == rest;
      }
      assert s == [s[0]] + s[1..];
    }
  }

  /** Reading a quoted field gives back the string that was quoted. */
  lemma UnquoteQuote(s: string)
    ensures Unquote(Quote(s)) == s
  {
    UnescapeEscape(s);
    if Comma in s || DoubleQuote in s {
      var q := Quote(s);
      assert q[1..|q| - 1] == EscapeQuotes(s);
    } else if |s| >= 2 {
      assert s[0] in s;
    }
  }

  /**
   * `quote` leaves a field alone exactly when it holds neither a comma nor a
   * double quote, and otherwise produces an RFC 4180 escaped field; either
   * way the field has no comma outside quotes.
   */
  lemma QuoteIsRfc4180Field(s: string)
    ensures Quote(s) == s <==> Comma !in s && DoubleQuote !in s
    ensures Quote(s) != s ==> EscapedField(Quote(s))
  {
    UnescapeEscape(s);
    if Comma in s || DoubleQuote in s {
      var q := Quote(s);
      assert |q| >= |s| + 2;
      assert q[1..|q| - 1] == EscapeQuotes(s);
    }
  }

  // ---------------------------------------------------------------------------
  // writeCsv
  // ---------------------------------------------------------------------------

  /** What `writeCsv` writes: the header and then each row, each followed by a line break. */
  function CsvText(header: string, rows: seq<string>): string {
    if rows == [] then header + [LineBreak]
    else CsvText(header, rows[..|rows| - 1]) + rows[|rows| - 1] + [LineBreak]
  }

  /** `fn.row(t)` for each element, in iteration order. */
  function Rows<T>(data: seq<T>, row: T --> string): (r: seq<string>)
    requires forall i | 0 <= i < |data| :: row.requires(data[i])
    ensures |r| == |data|
    ensures forall i | 0 <= i < |data| :: r[i] == row(data[i])
  {
    seq(|data|, i requires 0 <= i < |data| => row(data[i]))
  }

  /** `writeCsv(path, header, data, fn)`, returning the text instead of writing the file. */
  method WriteCsv<T>(header: string, data: seq<T>, row: T --> string) returns (text: string)
    requires forall i | 0 <= i < |data| :: row.requires(data[i])
    ensures text == CsvText(header, Rows(data, row))
  {
    text := header + [LineBreak];
    var i := 0;
    while i < |data|
      invariant 0 <= i <= |data|
      invariant text == CsvText(header, Rows(data[..i], row))
    {
      assert Rows(data[..i + 1], row)[..i] == Rows(data[..i], row);
      text := text + row(data[i]) + [LineBreak];
      i := i + 1;
    }
    assert data[..i] == data;
  }

  /** The written text is the header and the rows joined by line breaks, with a final line break. */
  lemma {:induction false} CsvTextIsJoin(header: string, rows: seq<string>)
    ensures CsvText(header, rows) == Join([header] + rows + [""], [LineBreak])
    decreases |rows|
  {
    if rows != [] {
      var init, last := rows[..|rows| - 1], rows[|rows| - 1];
      CsvTextIsJoin(header, init);
      var ps := [header] + init;
      assert (ps + [""])[..|ps|] == ps;
      assert (ps + [last] + [""])[..|ps| + 1] == ps + [last];
      assert (ps + [last])[..|ps|] == ps;
      assert [header] + rows == ps + [last];
    }
  }

  /**
   * The written text, read back line by line, is the header, then the rows
   * in order, then the empty remainder after the last line break — provided
   * no field contains a line break.
   */
  lemma CsvTextLines(header: string, rows: seq<string>)
    requires LineBreak !in header
    requires forall i | 0 <= i < |rows| :: LineBreak !in rows[i]
    ensures SplitAll(CsvText(header, rows), LineBreak) == [header] + rows + [""]
  {
    CsvTextIsJoin(header, rows);
    var lines := [header] + rows + [""];
    forall i | 0 <= i < |lines| ensures LineBreak !in lines[i] {
      if 0 < i <= |rows| {
        assert lines[i] == rows[i - 1];
      }
    }
    SplitAllJoin(lines, LineBreak);
  }

  // ---------------------------------------------------------------------------
  // Book-author keys
  // ---------------------------------------------------------------------------

  /** `isbn + "#" + id`. */
  function PairKey(isbn: string, authorId: nat): string {
    isbn + [PairSeparator] + NatToDigits(authorId)
  }

  /** `s.lastIndexOf(c)`, none for Java's -1. */
  function LastIndexOf(s: string, c: char): (r: Option<nat>)
    ensures r.None? <==> c !in s
    ensures r.Some? ==> r.value < |s| && s[r.value] == c && forall j | r.value < j < |s| :: s[j] != c
  {
    if s == [] then None
    else if s[|s| - 1] == c then Some(|s| - 1)
    else
      assert forall j | 0 <= j < |s| - 1 :: s[j] == s[..|s| - 1][j];
      LastIndexOf(s[..|s| - 1], c)
  }

  /** The row of a book-author key: the text before its last `#`, a comma, the text after it. */
  function PairRow(key: string): string
    requires PairSeparator in key
  {
    var i := LastIndexOf(key, PairSeparator).value;
    key[..i] + [Comma] + key[i + 1..]
  }

  /** The ISBN column of a key's row: the text before the last `#`. */
  function PairIsbn(key: string): string
    requires PairSeparator in key
  {
    key[..LastIndexOf(key, PairSeparator).value]
  }

  /** A key with a `#` and only digits after the last one. */
  predicate WellFormedPairKey(key: string) {
    PairSeparator in key && AllDigits(key[LastIndexOf(key, PairSeparator).value + 1..])
  }

  /** The author id column of a key's row, read as a decimal number. */
  function PairAuthorId(key: string): nat
    requires WellFormedPairKey(key)
  {
    DigitsValue(key[LastIndexOf(key, PairSeparator).value + 1..])
  }

  /**
   * Splitting a key at its last `#` recovers the ISBN and the author id
   * exactly, even when the ISBN itself holds a `#`.
   */
  lemma PairKeySplits(isbn: string, authorId: nat)
    ensures var key := PairKey(isbn, authorId);
      && WellFormedPairKey(key)
      && LastIndexOf(key, PairSeparator) == Some(|isbn|)
      && PairIsbn(key) == isbn
      && PairAuthorId(key) == authorId
      && PairRow(key) == isbn + [Comma] + NatToDigits(authorId)
  {
    var key := PairKey(isbn, authorId);
    var d := NatToDigits(authorId);
    assert key[|isbn| + 1..] == d;
    assert key[..|isbn|] == isbn;
    assert key[|isbn|] == PairSeparator;
    forall j | |isbn| < j < |key| ensures key[j] != PairSeparator {
      assert key[j] == d[j - |isbn| - 1];
    }
  }
}
