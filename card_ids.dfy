/**
 * Library card identifiers as `LibraryDB.create_borrower` generates them:
 * `SELECT MAX(Card_id)` compares the identifiers as text, the numeric suffix
 * after the two-letter tag is parsed, incremented and printed back with
 * `f"ID{n:06d}"`.
 */
module CardIds {
  import opened Wrappers
  import opened Text

  const CardTag := "ID"
  const CardNumberWidth := 6

  // ---------------------------------------------------------------------------
  // Text order (SQLite's BINARY collation)
  // ---------------------------------------------------------------------------

  /** `a` sorts strictly before `b`: first differing character decides, a proper prefix is smaller. */
  predicate LexLess(a: string, b: string)
    decreases |a|
  {
    if b == [] then false
    else if a == [] then true
    else if a[0] != b[0] then a[0] < b[0]
    else LexLess(a[1..], b[1..])
  }

  lemma {:induction false} LexLessIrreflexive(a: string)
    ensures !LexLess(a, a)
    decreases |a|
  {
    if a != [] {
      LexLessIrreflexive(a[1..]);
    }
  }

  lemma {:induction false} LexLessTransitive(a: string, b: string, c: string)
    requires LexLess(a, b) && LexLess(b, c)
    ensures LexLess(a, c)
    decreases |a|
  {
    if a != [] && a[0] == b[0] && b[0] == c[0] {
      LexLessTransitive(a[1..], b[1..], c[1..]);
    }
  }

  /** `MAX(...)` over a column of text: the greatest value under `LexLess`, NULL for no rows. */
  function MaxText(ids: seq<string>): (r: Option<string>)
    ensures r.None? <==> ids == []
    ensures r.Some? ==> r.value in ids
  {
    if ids == [] then None
    else
      var last := ids[|ids| - 1];
      match MaxText(ids[..|ids| - 1])
      case None => Some(last)
      case Some(m) => if LexLess(m, last) then Some(last) else Some(m)
  }

  /** No identifier sorts after the maximum. */
  lemma {:induction false} MaxTextIsMaximum(ids: seq<string>)
    requires ids != []
    ensures forall i | 0 <= i < |ids| :: !LexLess(MaxText(ids).value, ids[i])
  {
    var init := ids[..|ids| - 1];
    var last := ids[|ids| - 1];
    if init == [] {
      LexLessIrreflexive(last);
    } else {
      MaxTextIsMaximum(init);
      var m := MaxText(init).value;
      if LexLess(m, last) {
        forall i | 0 <= i < |ids| ensures !LexLess(last, ids[i]) {
          if i < |init| {
            assert ids[i] == init[i];
            if LexLess(last, ids[i]) {
              LexLessTransitive(m, last, ids[i]);
              assert false;
            }
          } else {
            LexLessIrreflexive(last);
          }
        }
      }
    }
  }

  // ---------------------------------------------------------------------------
  // Fixed-width card identifiers
  // ---------------------------------------------------------------------------

  /** `"ID"` followed by exactly six decimal digits, the form every generated identifier below 1000000 has. */
  predicate WellFormedCardId(id: string) {
    |id| == |CardTag| + CardNumberWidth && id[..|CardTag|] == CardTag && AllDigits(id[|CardTag|..])
  }

  /** `int(card_id[2:])`. */
  function CardNumber(id: string): nat
    requires |id| >= |CardTag| && AllDigits(id[|CardTag|..])
  {
    DigitsValue(id[|CardTag|..])
  }

  /** `f"ID{n:06d}"`. */
  function FormatCardId(n: nat): string {
    CardTag + ZeroPad(NatToDigits(n), CardNumberWidth)
  }

  predicate AllWellFormed(ids: seq<string>) {
    forall i | 0 <= i < |ids| :: WellFormedCardId(ids[i])
  }

  /** The number after the text-maximal identifier, or 1 when there is none. */
  function NextCardNumber(ids: seq<string>): nat
    requires AllWellFormed(ids)
  {
    match MaxText(ids)
    case None => 1
    case Some(m) => CardNumber(m) + 1
  }

  function NextCardId(ids: seq<string>): string
    requires AllWellFormed(ids)
  {
    FormatCardId(NextCardNumber(ids))
  }

  /** The numeric suffix of a formatted identifier parses back to its number. */
  lemma {:induction false} FormatCardIdParses(n: nat)
    ensures |FormatCardId(n)| >= |CardTag| && FormatCardId(n)[..|CardTag|] == CardTag
    ensures AllDigits(FormatCardId(n)[|CardTag|..]) && CardNumber(FormatCardId(n)) == n
  {
    var d := NatToDigits(n);
    var p := ZeroPad(d, CardNumberWidth);
    assert FormatCardId(n)[|CardTag|..] == p;
    var z := p[..|p| - |d|];
    assert p == z + d;
    LeadingZerosValue(z, d);
  }

  /** Below one million the formatted identifier has the fixed width. */
  lemma {:induction false} FormatCardIdWellFormed(n: nat)
    requires n < Pow10(CardNumberWidth)
    ensures WellFormedCardId(FormatCardId(n))
  {
    FormatCardIdParses(n);
    var d := NatToDigits(n);
    if |d| > CardNumberWidth {
      DigitsValueFront(d);
      Pow10Monotone(CardNumberWidth, |d| - 1);
      assert false;
    }
  }

  lemma {:induction false} Pow10Monotone(m: nat, n: nat)
    requires m <= n
    ensures Pow10(m) <= Pow10(n)
    decreases n - m
  {
    if m < n {
      Pow10Monotone(m, n - 1);
    }
  }

  /** A larger leading digit outweighs any lower digits. */
  lemma LeadingDigitBound(da: nat, db: nat, ra: nat, rb: nat, p: nat)
    requires da > db && rb < p
    ensures da * p + ra > db * p + rb
  {
    assert da * p == (da - db - 1) * p + db * p + p;
  }

  /** For digit strings of one length, text order and numeric order coincide. */
  lemma {:induction false} DigitOrderIsTextOrder(a: string, b: string)
    requires |a| == |b| && AllDigits(a) && AllDigits(b)
    ensures LexLess(a, b) <==> DigitsValue(a) < DigitsValue(b)
    decreases |a|
  {
    if a != [] {
      DigitsValueFront(a);
      DigitsValueFront(b);
      DigitsValueBound(a[1..]);
      DigitsValueBound(b[1..]);
      var p := Pow10(|a| - 1);
      if a[0] == b[0] {
        DigitOrderIsTextOrder(a[1..], b[1..]);
      } else if a[0] > b[0] {
        LeadingDigitBound(DigitValue(a[0]), DigitValue(b[0]), DigitsValue(a[1..]), DigitsValue(b[1..]), p);
      } else {
        LeadingDigitBound(DigitValue(b[0]), DigitValue(a[0]), DigitsValue(b[1..]), DigitsValue(a[1..]), p);
      }
    }
  }

  /** For fixed-width identifiers, the text-maximal one carries the greatest number. */
  lemma {:induction false} MaxCardIdHasGreatestNumber(ids: seq<string>)
    requires ids != [] && AllWellFormed(ids)
    ensures forall i | 0 <= i < |ids| :: CardNumber(ids[i]) <= CardNumber(MaxText(ids).value)
  {
    var m := MaxText(ids).value;
    MaxTextIsMaximum(ids);
    forall i | 0 <= i < |ids| ensures CardNumber(ids[i]) <= CardNumber(m) {
      if CardNumber(m) < CardNumber(ids[i]) {
        DigitOrderIsTextOrder(m[|CardTag|..], ids[i][|CardTag|..]);
        TextOrderOfSuffix(m, ids[i]);
        assert false;
      }
    }
  }

  /** Identifiers sharing the tag compare as their suffixes do. */
  lemma {:induction false} TextOrderOfSuffix(a: string, b: string)
    requires WellFormedCardId(a) && WellFormedCardId(b)
    requires LexLess(a[|CardTag|..], b[|CardTag|..])
    ensures LexLess(a, b)
  {
    assert a[0] == b[0] && a[1] == b[1];
    assert a[1..][1..] == a[2..] && b[1..][1..] == b[2..];
  }

  /** The generated identifier differs from every existing one (with fixed-width identifiers). */
  lemma {:induction false} NextCardIdFresh(ids: seq<string>)
    requires AllWellFormed(ids)
    ensures forall i | 0 <= i < |ids| :: ids[i] != NextCardId(ids)
  {
    var n := NextCardNumber(ids);
    FormatCardIdParses(n);
    if ids != [] {
      MaxCardIdHasGreatestNumber(ids);
    }
  }

  /** The first identifier handed out to an empty BORROWER table. */
  lemma {:induction false} FirstCardId()
    ensures NextCardId([]) == "ID000001"
  {
    assert NatToDigits(1) == "1";
  }
}
