/**
 * The fines engine of `LibraryDB`: the two overdue queries of
 * `update_fines`, one pass of `_apply_fines` over their rows, the sums that
 * `checkout_book` and `pay_fines` compute, and the `UPDATE ... SET Paid = 1`
 * of `pay_fines`, with what they guarantee: a paid fine is never touched, no
 * fine is deleted, recomputation is idempotent, payment clears exactly the
 * fines on the borrower's returned loans.
 */
module Fines {
  import opened Wrappers
  import opened Tables

  /** `* 0.25` dollars per full day late. */
  const CentsPerLateDay := 25

  /** A `(Loan_id, Fine)` row of one of the two overdue queries, the fine in cents. */
  datatype FineRow = FineRow(loanId: int, amount: int)

  // ---------------------------------------------------------------------------
  // The overdue queries
  // ---------------------------------------------------------------------------

  /** `Date_in - Due_date` for a returned loan, `today - Due_date` for one still out. */
  function DaysLate(l: Loan, today: int): int {
    match l.dateIn
    case Some(d) => d - l.dueDate
    case None => today - l.dueDate
  }

  function FineCents(l: Loan, today: int): int {
    CentsPerLateDay * DaysLate(l, today)
  }

  /**
   * The loan is selected by the returned-late query (`returned`) or by the
   * still-out query (`!returned`).
   */
  predicate Overdue(l: Loan, today: int, returned: bool) {
    (if returned then l.dateIn.Some? else l.dateIn.None?) && DaysLate(l, today) > 0
  }

  /** The rows of one overdue query, in BOOK_LOANS order. */
  function OverdueRows(loans: seq<Loan>, today: int, returned: bool): seq<FineRow> {
    if loans == [] then []
    else
      var last := loans[|loans| - 1];
      OverdueRows(loans[..|loans| - 1], today, returned)
        + (if Overdue(last, today, returned) then [FineRow(last.loanId, FineCents(last, today))] else [])
  }

  /**
   * An overdue query returns exactly the overdue loans, each once, in
   * `Loan_id` order, each with 25 cents per day late.
   */
  lemma {:induction false} OverdueRowsSelectOverdueLoans(loans: seq<Loan>, today: int, returned: bool)
    requires LoanIdsAreIndices(loans)
    ensures forall j | 0 <= j < |OverdueRows(loans, today, returned)| ::
      var row := OverdueRows(loans, today, returned)[j];
      && 1 <= row.loanId <= |loans|
      && Overdue(loans[row.loanId - 1], today, returned)
      && row.amount == FineCents(loans[row.loanId - 1], today)
    ensures forall j, k | 0 <= j < k < |OverdueRows(loans, today, returned)| ::
      OverdueRows(loans, today, returned)[j].loanId < OverdueRows(loans, today, returned)[k].loanId
    ensures forall i | 0 <= i < |loans| && Overdue(loans[i], today, returned) ::
      FineRow(i + 1, FineCents(loans[i], today)) in OverdueRows(loans, today, returned)
    decreases |loans|
  {
    if loans != [] {
      var n := |loans| - 1;
      var init := loans[..n];
      OverdueRowsSelectOverdueLoans(init, today, returned);
      var prev := OverdueRows(init, today, returned);
      var rows := OverdueRows(loans, today, returned);
      assert rows[..|prev|] == prev;
      forall j | 0 <= j < |rows|
        ensures 1 <= rows[j].loanId <= |loans|
        ensures Overdue(loans[rows[j].loanId - 1], today, returned)
        ensures rows[j].amount == FineCents(loans[rows[j].loanId - 1], today)
      {
        if j < |prev| {
          assert rows[j] == prev[j];
          assert loans[prev[j].loanId - 1] == init[prev[j].loanId - 1];
        } else {
          assert rows[j] == FineRow(loans[n].loanId, FineCents(loans[n], today));
        }
      }
      forall j, k | 0 <= j < k < |rows| ensures rows[j].loanId < rows[k].loanId {
        if k < |prev| {
          assert rows[j] == prev[j] && rows[k] == prev[k];
        } else {
          assert rows[j] == prev[j];
        }
      }
      forall i | 0 <= i < |loans| && Overdue(loans[i], today, returned)
        ensures FineRow(i + 1, FineCents(loans[i], today)) in rows
      {
        if i < n {
          assert init[i] == loans[i];
        }
      }
    }
  }

  /** Returned-late rows first, then the rows of loans still out, as `update_fines` applies them. */
  function LateFineRows(loans: seq<Loan>, today: int): seq<FineRow>
    requires LoanIdsAreIndices(loans)
  {
    OverdueRows(loans, today, true) + OverdueRows(loans, today, false)
  }

  predicate DistinctLoanIds(rows: seq<FineRow>) {
    forall j, k | 0 <= j < k < |rows| :: rows[j].loanId != rows[k].loanId
  }

  /** No loan appears twice among the rows `update_fines` applies. */
  lemma {:induction false} LateFineRowsDistinct(loans: seq<Loan>, today: int)
    requires LoanIdsAreIndices(loans)
    ensures DistinctLoanIds(LateFineRows(loans, today))
  {
    var a := OverdueRows(loans, today, true);
    var b := OverdueRows(loans, today, false);
    var rows := a + b;
    OverdueRowsSelectOverdueLoans(loans, today, true);
    OverdueRowsSelectOverdueLoans(loans, today, false);
    forall j, k | 0 <= j < k < |rows| ensures rows[j].loanId != rows[k].loanId {
      if j < |a| && |a| <= k {
        assert rows[j] == a[j] && rows[k] == b[k - |a|];
        assert Overdue(loans[a[j].loanId - 1], today, true);
        assert Overdue(loans[b[k - |a|].loanId - 1], today, false);
      } else if |a| <= j {
        assert rows[j] == b[j - |a|] && rows[k] == b[k - |a|];
      }
    }
  }

  // ---------------------------------------------------------------------------
  // `_apply_fines`
  // ---------------------------------------------------------------------------

  /** `SELECT Fine_amt, Paid FROM FINES WHERE Loan_id = ?`: the position of the loan's fine. */
  function FineIndex(fines: seq<Fine>, loanId: int): (r: Option<nat>)
    ensures r.Some? ==> r.value < |fines| && fines[r.value].loanId == loanId
    ensures r.Some? ==> forall i | 0 <= i < r.value :: fines[i].loanId != loanId
    ensures r.None? ==> forall i | 0 <= i < |fines| :: fines[i].loanId != loanId
  {
    if fines == [] then None
    else if fines[0].loanId == loanId then Some(0)
    else match FineIndex(fines[1..], loanId)
      case None => None
      case Some(i) => Some(i + 1)
  }

  /** The first fine of a loan is the one `FineIndex` finds. */
  lemma {:induction false} FineIndexIsFirst(fines: seq<Fine>, loanId: int, k: nat)
    requires k < |fines| && fines[k].loanId == loanId
    requires forall i | 0 <= i < k :: fines[i].loanId != loanId
    ensures FineIndex(fines, loanId) == Some(k)
    decreases k
  {
    if k > 0 {
      FineIndexIsFirst(fines[1..], loanId, k - 1);
    }
  }

  /**
   * One iteration of the `_apply_fines` loop: skip a non-positive amount,
   * insert a missing fine unpaid, update an unpaid fine whose amount differs,
   * leave a paid fine alone.
   */
  function ApplyFineRow(fines: seq<Fine>, row: FineRow): seq<Fine> {
    if row.amount <= 0 then fines
    else match FineIndex(fines, row.loanId)
      case None => fines + [Fine(row.loanId, row.amount, false)]
      case Some(i) =>
        if !fines[i].paid && fines[i].amount != row.amount then fines[i := fines[i].(amount := row.amount)]
        else fines
  }

  /** The whole `_apply_fines` loop over `rows`. */
  function ApplyFineRows(fines: seq<Fine>, rows: seq<FineRow>): seq<Fine> {
    if rows == [] then fines
    else ApplyFineRow(ApplyFineRows(fines, rows[..|rows| - 1]), rows[|rows| - 1])
  }

  /** FINES after `update_fines`. */
  function RecomputedFines(loans: seq<Loan>, fines: seq<Fine>, today: int): seq<Fine>
    requires LoanIdsAreIndices(loans)
  {
    ApplyFineRows(fines, LateFineRows(loans, today))
  }

  /** Applying two batches of rows is applying their concatenation. */
  lemma {:induction false} ApplyFineRowsAppend(fines: seq<Fine>, a: seq<FineRow>, b: seq<FineRow>)
    ensures ApplyFineRows(ApplyFineRows(fines, a), b) == ApplyFineRows(fines, a + b)
    decreases |b|
  {
    if b != [] {
      var init, last := b[..|b| - 1], b[|b| - 1];
      assert (a + b)[..|a + b| - 1] == a + init;
      assert (a + b)[|a + b| - 1] == last;
      ApplyFineRowsAppend(fines, a, init);
      calc {
        ApplyFineRows(fines, a + b);
        ApplyFineRow(ApplyFineRows(fines, a + init), last);
        ApplyFineRow(ApplyFineRows(ApplyFineRows(fines, a), init), last);
        ApplyFineRows(ApplyFineRows(fines, a), b);
      }
    } else {
      assert a + b == a;
    }
  }

  /**
   * The paid latch and the permanent record: every existing fine keeps its
   * place, its loan and its `Paid` flag, a paid fine is left exactly as it
   * was, and fines are only added, unpaid.
   */
  lemma {:induction false} ApplyFineRowsKeepsExisting(fines: seq<Fine>, rows: seq<FineRow>)
    ensures var r := ApplyFineRows(fines, rows);
      && |r| >= |fines|
      && (forall i | 0 <= i < |fines| ::
            r[i].loanId == fines[i].loanId && r[i].paid == fines[i].paid && (fines[i].paid ==> r[i] == fines[i]))
      && (forall i | |fines| <= i < |r| :: !r[i].paid)
    decreases |rows|
  {
    if rows != [] {
      ApplyFineRowsKeepsExisting(fines, rows[..|rows| - 1]);
    }
  }

  /** `_apply_fines` keeps one fine per loan, each for an existing loan and a positive amount. */
  lemma {:induction false} ApplyFineRowsWellFormed(fines: seq<Fine>, rows: seq<FineRow>, loanCount: nat)
    requires FinesWellFormed(fines, loanCount)
    requires forall j | 0 <= j < |rows| :: 1 <= rows[j].loanId <= loanCount
    ensures FinesWellFormed(ApplyFineRows(fines, rows), loanCount)
    decreases |rows|
  {
    if rows != [] {
      var init := rows[..|rows| - 1];
      ApplyFineRowsWellFormed(fines, init, loanCount);
    }
  }

  /** Applying the row would change nothing: the fine exists and is paid or already has the amount. */
  predicate Settled(fines: seq<Fine>, row: FineRow) {
    row.amount <= 0
    || match FineIndex(fines, row.loanId)
       case None => false
       case Some(i) => fines[i].paid || fines[i].amount == row.amount
  }

  /** After a row is applied it is settled, and rows of other loans stay settled. */
  lemma {:induction false} ApplyFineRowSettles(fines: seq<Fine>, row: FineRow, other: FineRow)
    requires other == row || (other.loanId != row.loanId && Settled(fines, other))
    ensures Settled(ApplyFineRow(fines, row), other)
  {
    var r := ApplyFineRow(fines, row);
    if row.amount > 0 && other.amount > 0 {
      match FineIndex(fines, row.loanId)
      case None =>
        assert r == fines + [Fine(row.loanId, row.amount, false)];
        if other == row {
          FineIndexIsFirst(r, row.loanId, |fines|);
        } else {
          FineIndexIsFirst(r, other.loanId, FineIndex(fines, other.loanId).value);
        }
      case Some(k) =>
        if other == row {
          FineIndexIsFirst(r, row.loanId, k);
        } else {
          FineIndexIsFirst(r, other.loanId, FineIndex(fines, other.loanId).value);
        }
    }
  }

  /** After `_apply_fines` every one of its rows is settled, when no loan appears twice. */
  lemma {:induction false} ApplyFineRowsSettlesAll(fines: seq<Fine>, rows: seq<FineRow>)
    requires DistinctLoanIds(rows)
    ensures forall j | 0 <= j < |rows| :: Settled(ApplyFineRows(fines, rows), rows[j])
    decreases |rows|
  {
    if rows != [] {
      var n := |rows| - 1;
      var init := rows[..n];
      ApplyFineRowsSettlesAll(fines, init);
      var before := ApplyFineRows(fines, init);
      forall j | 0 <= j < |rows| ensures Settled(ApplyFineRows(fines, rows), rows[j]) {
        if j < n {
          assert rows[j] == init[j];
        }
        ApplyFineRowSettles(before, rows[n], rows[j]);
      }
    }
  }

  /** Rows that are all settled change nothing. */
  lemma {:induction false} SettledRowsChangeNothing(fines: seq<Fine>, rows: seq<FineRow>)
    requires forall j | 0 <= j < |rows| :: Settled(fines, rows[j])
    ensures ApplyFineRows(fines, rows) == fines
    decreases |rows|
  {
    if rows != [] {
      var init := rows[..|rows| - 1];
      SettledRowsChangeNothing(fines, init);
    }
  }

  /** Running `update_fines` twice on the same day leaves FINES as the first run left it. */
  lemma {:induction false} RecomputedFinesIdempotent(loans: seq<Loan>, fines: seq<Fine>, today: int)
    requires LoanIdsAreIndices(loans)
    ensures RecomputedFines(loans, RecomputedFines(loans, fines, today), today) == RecomputedFines(loans, fines, today)
  {
    var rows := LateFineRows(loans, today);
    LateFineRowsDistinct(loans, today);
    ApplyFineRowsSettlesAll(fines, rows);
    SettledRowsChangeNothing(ApplyFineRows(fines, rows), rows);
  }

  /**
   * After `update_fines`, every overdue loan has a fine, and that fine is
   * either paid or charges 25 cents per day late.
   */
  lemma {:induction false} RecomputedFinesChargeOverdueLoans(loans: seq<Loan>, fines: seq<Fine>, today: int, i: int)
    requires LoanIdsAreIndices(loans) && 0 <= i < |loans| && DaysLate(loans[i], today) > 0
    ensures var r := RecomputedFines(loans, fines, today);
      && FineIndex(r, i + 1).Some?
      && (r[FineIndex(r, i + 1).value].paid || r[FineIndex(r, i + 1).value].amount == CentsPerLateDay * DaysLate(loans[i], today))
  {
    var rows := LateFineRows(loans, today);
    var row := FineRow(i + 1, FineCents(loans[i], today));
    var returned := loans[i].dateIn.Some?;
    assert Overdue(loans[i], today, returned);
    OverdueRowsSelectOverdueLoans(loans, today, returned);
    assert row in rows;
    LateFineRowsDistinct(loans, today);
    ApplyFineRowsSettlesAll(fines, rows);
    var j :| 0 <= j < |rows| && rows[j] == row;
  }

  /** Applying a row of another loan leaves this loan's fine where it was, and as it was. */
  lemma ApplyFineRowSparesOtherLoans(fines: seq<Fine>, row: FineRow, loanId: int)
    requires row.loanId != loanId
    ensures var r := ApplyFineRow(fines, row);
      && FineIndex(r, loanId) == FineIndex(fines, loanId)
      && (FineIndex(fines, loanId).Some? ==> r[FineIndex(fines, loanId).value] == fines[FineIndex(fines, loanId).value])
  {
    var r := ApplyFineRow(fines, row);
    if row.amount > 0 {
      if FineIndex(fines, row.loanId).None? {
        assert r == fines + [Fine(row.loanId, row.amount, false)];
      } else {
        var i := FineIndex(fines, row.loanId).value;
        assert |r| == |fines|;
        assert forall j | 0 <= j < |fines| :: r[j].loanId == fines[j].loanId && (j != i ==> r[j] == fines[j]);
      }
      if FineIndex(fines, loanId).Some? {
        FineIndexIsFirst(r, loanId, FineIndex(fines, loanId).value);
      }
    }
  }

  /** Rows of other loans leave this loan's fine where it was, and as it was. */
  lemma {:induction false} ApplyFineRowsSparesOtherLoans(fines: seq<Fine>, rows: seq<FineRow>, loanId: int)
    requires forall j | 0 <= j < |rows| :: rows[j].loanId != loanId
    ensures var r := ApplyFineRows(fines, rows);
      && FineIndex(r, loanId) == FineIndex(fines, loanId)
      && (FineIndex(fines, loanId).Some? ==> r[FineIndex(fines, loanId).value] == fines[FineIndex(fines, loanId).value])
    decreases |rows|
  {
    if rows != [] {
      var init := rows[..|rows| - 1];
      ApplyFineRowsSparesOtherLoans(fines, init, loanId);
      ApplyFineRowSparesOtherLoans(ApplyFineRows(fines, init), rows[|rows| - 1], loanId);
    }
  }

  /**
   * A loan that is not late is not revisited by `update_fines`: it gains no
   * fine, and a fine it already has stays where it was and as it was.
   */
  lemma RecomputedFinesSpareLoansNotLate(loans: seq<Loan>, fines: seq<Fine>, today: int, i: int)
    requires LoanIdsAreIndices(loans) && 0 <= i < |loans| && DaysLate(loans[i], today) <= 0
    ensures var r := RecomputedFines(loans, fines, today);
      && FineIndex(r, i + 1) == FineIndex(fines, i + 1)
      && (FineIndex(fines, i + 1).Some? ==> r[FineIndex(fines, i + 1).value] == fines[FineIndex(fines, i + 1).value])
  {
    var a := OverdueRows(loans, today, true);
    var b := OverdueRows(loans, today, false);
    var rows := a + b;
    OverdueRowsSelectOverdueLoans(loans, today, true);
    OverdueRowsSelectOverdueLoans(loans, today, false);
    forall j | 0 <= j < |rows| ensures rows[j].loanId != i + 1 {
      if j < |a| {
        assert rows[j] == a[j];
      } else {
        assert rows[j] == b[j - |a|];
      }
    }
    ApplyFineRowsSparesOtherLoans(fines, rows, i + 1);
  }

  /** A fine that `_apply_fines` adds or re-prices carries the loan and the positive amount of one of its rows. */
  lemma {:induction false} ApplyFineRowsChangesComeFromRows(fines: seq<Fine>, rows: seq<FineRow>)
    ensures var r := ApplyFineRows(fines, rows);
      forall i | 0 <= i < |r| && !(i < |fines| && r[i] == fines[i]) ::
        exists j | 0 <= j < |rows| :: rows[j].amount > 0 && rows[j] == FineRow(r[i].loanId, r[i].amount)
    decreases |rows|
  {
    if rows != [] {
      var init, row := rows[..|rows| - 1], rows[|rows| - 1];
      ApplyFineRowsChangesComeFromRows(fines, init);
      var mid := ApplyFineRows(fines, init);
      var r := ApplyFineRow(mid, row);
      forall i | 0 <= i < |r| && !(i < |fines| && r[i] == fines[i])
        ensures exists j | 0 <= j < |rows| :: rows[j].amount > 0 && rows[j] == FineRow(r[i].loanId, r[i].amount)
      {
        if i < |mid| && r[i] == mid[i] {
          var j :| 0 <= j < |init| && init[j].amount > 0 && init[j] == FineRow(mid[i].loanId, mid[i].amount);
          assert rows[j] == init[j];
        } else {
          assert row.amount > 0;
          if FineIndex(mid, row.loanId).None? {
            assert r[i] == Fine(row.loanId, row.amount, false);
          } else {
            var k := FineIndex(mid, row.loanId).value;
            assert i == k && r[i] == mid[k].(amount := row.amount);
          }
          assert rows[|rows| - 1] == row;
        }
      }
    }
  }

  // ---------------------------------------------------------------------------
  // Sums and payment
  // ---------------------------------------------------------------------------

  /**
   * The fine is unpaid and on one of the borrower's loans, which has been
   * returned when `returnedOnly` (the filter of `pay_fines`; `checkout_book`
   * filters on borrower and `Paid = 0` only).
   */
  predicate Unpaid(f: Fine, loans: seq<Loan>, cardId: string, returnedOnly: bool) {
    && !f.paid
    && LoanById(loans, f.loanId).Some?
    && LoanById(loans, f.loanId).value.cardId == cardId
    && (returnedOnly ==> LoanById(loans, f.loanId).value.dateIn.Some?)
  }

  /** `SELECT SUM(F.Fine_amt) ...` with NULL (no rows) read as 0. */
  function UnpaidTotal(fines: seq<Fine>, loans: seq<Loan>, cardId: string, returnedOnly: bool): int {
    if fines == [] then 0
    else
      var last := fines[|fines| - 1];
      UnpaidTotal(fines[..|fines| - 1], loans, cardId, returnedOnly)
        + (if Unpaid(last, loans, cardId, returnedOnly) then last.amount else 0)
  }

  /** With positive amounts, the total is positive exactly when one such fine exists. */
  lemma {:induction false} UnpaidTotalPositive(fines: seq<Fine>, loans: seq<Loan>, cardId: string, returnedOnly: bool)
    requires forall i | 0 <= i < |fines| :: fines[i].amount > 0
    ensures UnpaidTotal(fines, loans, cardId, returnedOnly) >= 0
    ensures UnpaidTotal(fines, loans, cardId, returnedOnly) > 0
        <==> exists i | 0 <= i < |fines| :: Unpaid(fines[i], loans, cardId, returnedOnly)
    decreases |fines|
  {
    if fines != [] {
      var init := fines[..|fines| - 1];
      UnpaidTotalPositive(init, loans, cardId, returnedOnly);
      if exists i | 0 <= i < |fines| :: Unpaid(fines[i], loans, cardId, returnedOnly) {
        var i :| 0 <= i < |fines| && Unpaid(fines[i], loans, cardId, returnedOnly);
        if i < |init| {
          assert init[i] == fines[i];
        }
      }
    }
  }

  /** `UPDATE FINES SET Paid = 1` on the borrower's unpaid fines on returned loans. */
  function PayOff(fines: seq<Fine>, loans: seq<Loan>, cardId: string): (r: seq<Fine>)
    ensures |r| == |fines|
    ensures forall i | 0 <= i < |fines| ::
      r[i] == if Unpaid(fines[i], loans, cardId, true) then fines[i].(paid := true) else fines[i]
  {
    if fines == [] then []
    else
      var last := fines[|fines| - 1];
      PayOff(fines[..|fines| - 1], loans, cardId)
        + [if Unpaid(last, loans, cardId, true) then last.(paid := true) else last]
  }

  /** After payment nothing remains payable: a second `pay_fines` finds a total of 0. */
  lemma {:induction false} PayOffLeavesNothingPayable(fines: seq<Fine>, loans: seq<Loan>, cardId: string)
    ensures UnpaidTotal(PayOff(fines, loans, cardId), loans, cardId, true) == 0
    decreases |fines|
  {
    if fines != [] {
      var init := fines[..|fines| - 1];
      PayOffLeavesNothingPayable(init, loans, cardId);
      assert PayOff(fines, loans, cardId)[..|fines| - 1] == PayOff(init, loans, cardId);
    }
  }

  /**
   * After payment the total that blocks checkout is exactly what was owed on
   * loans still out.
   */
  lemma {:induction false} PayOffLeavesOutstandingFines(fines: seq<Fine>, loans: seq<Loan>, cardId: string)
    ensures UnpaidTotal(PayOff(fines, loans, cardId), loans, cardId, false)
         == UnpaidTotal(fines, loans, cardId, false) - UnpaidTotal(fines, loans, cardId, true)
    decreases |fines|
  {
    if fines != [] {
      var init := fines[..|fines| - 1];
      PayOffLeavesOutstandingFines(init, loans, cardId);
      assert PayOff(fines, loans, cardId)[..|fines| - 1] == PayOff(init, loans, cardId);
    }
  }
}
