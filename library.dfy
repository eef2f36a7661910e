/**
 * `LibraryDB`: the six tables of the library database as fields, and the
 * operations that change them — registering a borrower, checking a book out,
 * checking loans in, recomputing fines and paying them. Every operation keeps
 * the table invariants of `Tables.TablesValid`; every refusal leaves all six
 * tables as they were.
 *
 * The current date `today` is a parameter (a day number), where the source
 * asks SQLite for `DATE('now')`.
 */
module Library {
  import opened Wrappers
  import opened Text
  import opened Tables
  import opened CardIds
  import opened Search
  import opened Fines

  /** Why `checkout_book` returned False, or that it returned True. */
  datatype CheckoutOutcome =
    | CheckedOut
    | NoSuchBorrower
    | FinesDue
    | LoanLimitReached
    | NoSuchBook
    | AlreadyCheckedOut

  /** Why `checkin_book` returned False, or that it returned True. */
  datatype CheckinOutcome =
    | CheckedIn
    | NoMatchingLoans
    | NoSelections
    | TooManySelections
    | SelectionOutOfRange

  /** Most loans one check-in may return. */
  const MaxSelections := 3

  function CardIdsOf(borrowers: seq<Borrower>): (ids: seq<string>)
    ensures |ids| == |borrowers|
    ensures forall i | 0 <= i < |borrowers| :: ids[i] == borrowers[i].cardId
  {
    seq(|borrowers|, i requires 0 <= i < |borrowers| => borrowers[i].cardId)
  }

  // ---------------------------------------------------------------------------
  // checkout_book
  // ---------------------------------------------------------------------------

  /** The five checks of `checkout_book`, in order; the first that fails decides. */
  function CheckoutCheck(books: seq<Book>, borrowers: seq<Borrower>, loans: seq<Loan>, fines: seq<Fine>, isbn: string, cardId: string): CheckoutOutcome {
    if !HasBorrower(borrowers, cardId) then NoSuchBorrower
    else if UnpaidTotal(fines, loans, cardId, false) > 0 then FinesDue
    else if OutstandingCount(loans, cardId) >= MaxOutstandingLoans then LoanLimitReached
    else if !HasBook(books, isbn) then NoSuchBook
    else if IsCheckedOut(loans, isbn) then AlreadyCheckedOut
    else CheckedOut
  }

  /** The row `checkout_book` inserts: due fourteen days after today, not yet returned. */
  function NewLoan(loans: seq<Loan>, isbn: string, cardId: string, today: int): Loan {
    Loan(|loans| + 1, isbn, cardId, today, today + LoanPeriodDays, None)
  }

  /** A checkout that passes the five checks keeps every loan invariant. */
  lemma CheckoutKeepsLoansValid(books: seq<Book>, borrowers: seq<Borrower>, loans: seq<Loan>, fines: seq<Fine>, isbn: string, cardId: string, today: int)
    requires LoansValid(loans)
    requires CheckoutCheck(books, borrowers, loans, fines, isbn, cardId) == CheckedOut
    ensures LoansValid(loans + [NewLoan(loans, isbn, cardId, today)])
  {
    NewLoanKeepsLimits(loans, NewLoan(loans, isbn, cardId, today));
  }

  /** A checkout that passes the five checks keeps all table invariants. */
  lemma CheckoutKeepsTablesValid(books: seq<Book>, borrowers: seq<Borrower>, loans: seq<Loan>, fines: seq<Fine>, isbn: string, cardId: string, today: int)
    requires TablesValid(books, borrowers, loans, fines)
    requires CheckoutCheck(books, borrowers, loans, fines, isbn, cardId) == CheckedOut
    ensures TablesValid(books, borrowers, loans + [NewLoan(loans, isbn, cardId, today)], fines)
  {
    CheckoutKeepsLoansValid(books, borrowers, loans, fines, isbn, cardId, today);
  }

  /**
   * A borrower with an unpaid fine on any loan, returned or not, cannot
   * borrow, whatever the book.
   */
  lemma UnpaidFineBlocksCheckout(books: seq<Book>, borrowers: seq<Borrower>, loans: seq<Loan>, fines: seq<Fine>, isbn: string, cardId: string, k: int)
    requires FinesWellFormed(fines, |loans|)
    requires 0 <= k < |fines| && Unpaid(fines[k], loans, cardId, false)
    ensures CheckoutCheck(books, borrowers, loans, fines, isbn, cardId) != CheckedOut
  {
    UnpaidTotalPositive(fines, loans, cardId, false);
  }

  // ---------------------------------------------------------------------------
  // create_borrower
  // ---------------------------------------------------------------------------

  /** A borrower under a fresh card number and an unregistered SSN keeps both BORROWER keys unique. */
  lemma NewBorrowerKeepsTablesValid(books: seq<Book>, borrowers: seq<Borrower>, loans: seq<Loan>, fines: seq<Fine>, b: Borrower)
    requires TablesValid(books, borrowers, loans, fines)
    requires !SsnTaken(borrowers, b.ssn) && !HasBorrower(borrowers, b.cardId)
    ensures TablesValid(books, borrowers + [b], loans, fines)
  {
    var borrowers' := borrowers + [b];
    forall i, j | 0 <= i < j < |borrowers'|
      ensures borrowers'[i].cardId != borrowers'[j].cardId && borrowers'[i].ssn != borrowers'[j].ssn
    {
      assert borrowers'[i] == borrowers[i];
      if j < |borrowers| {
        assert borrowers'[j] == borrowers[j];
      }
    }
  }

  /** With fixed-width card numbers, the generated card number is not registered yet. */
  lemma NextCardIdUnregistered(borrowers: seq<Borrower>)
    requires AllWellFormed(CardIdsOf(borrowers))
    ensures !HasBorrower(borrowers, NextCardId(CardIdsOf(borrowers)))
  {
    NextCardIdFresh(CardIdsOf(borrowers));
  }

  // ---------------------------------------------------------------------------
  // checkin_book
  // ---------------------------------------------------------------------------

  /** The checks of `checkin_book` on the search result and the 1-based selections, in order. */
  function CheckinCheck(rows: seq<CheckinRow>, selections: seq<int>): CheckinOutcome {
    if |rows| == 0 then NoMatchingLoans
    else if |selections| == 0 then NoSelections
    else if |selections| > MaxSelections then TooManySelections
    else if exists j | 0 <= j < |selections| :: selections[j] < 1 || selections[j] > |rows| then SelectionOutOfRange
    else CheckedIn
  }

  /** `[results[s-1]["loan_id"] for s in selections]`. */
  function SelectedLoanIds(rows: seq<CheckinRow>, selections: seq<int>): (ids: seq<int>)
    requires forall j | 0 <= j < |selections| :: 1 <= selections[j] <= |rows|
    ensures |ids| == |selections|
    ensures forall j | 0 <= j < |selections| :: ids[j] == rows[selections[j] - 1].loanId
  {
    seq(|selections|, j requires 0 <= j < |selections| => rows[selections[j] - 1].loanId)
  }

  /** `UPDATE BOOK_LOANS SET Date_in = today WHERE Loan_id = loanId`. */
  function ReturnLoan(loans: seq<Loan>, loanId: int, today: int): seq<Loan> {
    if 1 <= loanId <= |loans| then loans[loanId - 1 := loans[loanId - 1].(dateIn := Some(today))] else loans
  }

  /** The UPDATE issued once per selected loan, in selection order. */
  function ReturnLoans(loans: seq<Loan>, loanIds: seq<int>, today: int): seq<Loan> {
    if loanIds == [] then loans
    else ReturnLoan(ReturnLoans(loans, loanIds[..|loanIds| - 1], today), loanIds[|loanIds| - 1], today)
  }

  /** The selected loans get `Date_in = today`; every other loan is left as it was. */
  lemma {:induction false} ReturnLoansEffect(loans: seq<Loan>, loanIds: seq<int>, today: int)
    ensures |ReturnLoans(loans, loanIds, today)| == |loans|
    ensures forall i | 0 <= i < |loans| ::
      ReturnLoans(loans, loanIds, today)[i] == if i + 1 in loanIds then loans[i].(dateIn := Some(today)) else loans[i]
    decreases |loanIds|
  {
    if loanIds != [] {
      var init := loanIds[..|loanIds| - 1];
      ReturnLoansEffect(loans, init, today);
      assert forall x :: x in loanIds <==> x in init || x == loanIds[|loanIds| - 1] by {
        assert loanIds == init + [loanIds[|loanIds| - 1]];
      }
    }
  }

  /** The loan a row of the check-in search comes from sits at index `Loan_id - 1`. */
  lemma CheckinRowLoan(loans: seq<Loan>, books: seq<Book>, borrowers: seq<Borrower>, query: string, k: nat)
    requires LoanIdsAreIndices(loans)
    requires k < |FindLoansForCheckin(loans, books, borrowers, query)|
    ensures var row := FindLoansForCheckin(loans, books, borrowers, query)[k];
      && 1 <= row.loanId <= |loans|
      && CheckinCandidate(loans[row.loanId - 1], books, borrowers, query) == Some(row)
  {
    FindLoansForCheckinSpec(loans, books, borrowers, query);
    var row := FindLoansForCheckin(loans, books, borrowers, query)[k];
    var i :| 0 <= i < |loans| && CheckinCandidate(loans[i], books, borrowers, query) == Some(row);
    assert row.loanId == i + 1;
  }

  /**
   * Every loan a valid selection names is an outstanding loan that the
   * check-in search matched.
   */
  lemma SelectedLoansAreMatchingOutstandingLoans(loans: seq<Loan>, books: seq<Book>, borrowers: seq<Borrower>, query: string, selections: seq<int>)
    requires LoanIdsAreIndices(loans)
    requires CheckinCheck(FindLoansForCheckin(loans, books, borrowers, query), selections) == CheckedIn
    ensures var ids := SelectedLoanIds(FindLoansForCheckin(loans, books, borrowers, query), selections);
      forall j | 0 <= j < |ids| ::
        && 1 <= ids[j] <= |loans|
        && Outstanding(loans[ids[j] - 1])
        && CheckinCandidate(loans[ids[j] - 1], books, borrowers, query).Some?
  {
    var rows := FindLoansForCheckin(loans, books, borrowers, query);
    var ids := SelectedLoanIds(rows, selections);
    forall j | 0 <= j < |ids|
      ensures 1 <= ids[j] <= |loans| && CheckinCandidate(loans[ids[j] - 1], books, borrowers, query).Some?
    {
      CheckinRowLoan(loans, books, borrowers, query, selections[j] - 1);
    }
  }

  // ---------------------------------------------------------------------------
  // The database
  // ---------------------------------------------------------------------------

  class LibraryDB {
    var books: seq<Book>
    var authors: seq<Author>
    var bookAuthors: seq<BookAuthor>
    var borrowers: seq<Borrower>
    var loans: seq<Loan>
    var fines: seq<Fine>

    /** The keys and limits the schema and the circulation rules guarantee. */
    ghost predicate Valid()
      reads this
    {
      TablesValid(books, borrowers, loans, fines)
    }

    /** A handle on an existing database holding these tables. */
    constructor(books: seq<Book>, authors: seq<Author>, bookAuthors: seq<BookAuthor>, borrowers: seq<Borrower>, loans: seq<Loan>, fines: seq<Fine>)
      requires TablesValid(books, borrowers, loans, fines)
      ensures Valid()
      ensures this.books == books && this.authors == authors && this.bookAuthors == bookAuthors
      ensures this.borrowers == borrowers && this.loans == loans && this.fines == fines
    {
      this.books := books;
      this.authors := authors;
      this.bookAuthors := bookAuthors;
      this.borrowers := borrowers;
      this.loans := loans;
      this.fines := fines;
    }

    /**
     * `create_borrower`: refuse a stripped SSN that is already registered;
     * otherwise add one borrower under the next card number.
     */
    method CreateBorrower(ssn: string, name: string, address: string, phone: string) returns (cardId: Option<string>)
      requires Valid() && AllWellFormed(CardIdsOf(borrowers))
      modifies this
      ensures Valid()
      ensures books == old(books) && authors == old(authors) && bookAuthors == old(bookAuthors)
      ensures loans == old(loans) && fines == old(fines)
      ensures SsnTaken(old(borrowers), PythonStrip(ssn)) ==> cardId == None && borrowers == old(borrowers)
      ensures !SsnTaken(old(borrowers), PythonStrip(ssn)) ==>
        && cardId == Some(NextCardId(CardIdsOf(old(borrowers))))
        && borrowers == old(borrowers) + [Borrower(cardId.value, PythonStrip(ssn), PythonStrip(name), PythonStrip(address), PythonStrip(phone))]
    {
      var s, n, a, p := PythonStrip(ssn), PythonStrip(name), PythonStrip(address), PythonStrip(phone);
      if SsnTaken(borrowers, s) {
        return None;
      }
      var id := NextCardId(CardIdsOf(borrowers));
      NextCardIdUnregistered(borrowers);
      NewBorrowerKeepsTablesValid(books, borrowers, loans, fines, Borrower(id, s, n, a, p));
      borrowers := borrowers + [Borrower(id, s, n, a, p)];
      return Some(id);
    }

    /**
     * `checkout_book`: run the five checks on the stripped, upper-cased ISBN
     * and the stripped card number; when all pass, add the loan.
     */
    method CheckoutBook(isbn: string, cardId: string, today: int) returns (outcome: CheckoutOutcome)
      requires Valid()
      modifies this
      ensures Valid()
      ensures books == old(books) && authors == old(authors) && bookAuthors == old(bookAuthors)
      ensures borrowers == old(borrowers) && fines == old(fines)
      ensures outcome == CheckoutCheck(old(books), old(borrowers), old(loans), old(fines), Upper(PythonStrip(isbn)), PythonStrip(cardId))
      ensures outcome == CheckedOut ==> loans == old(loans) + [NewLoan(old(loans), Upper(PythonStrip(isbn)), PythonStrip(cardId), today)]
      ensures outcome != CheckedOut ==> loans == old(loans)
    {
      var i, c := Upper(PythonStrip(isbn)), PythonStrip(cardId);
      if !HasBorrower(borrowers, c) {
        return NoSuchBorrower;
      }
      if UnpaidTotal(fines, loans, c, false) > 0 {
        return FinesDue;
      }
      if OutstandingCount(loans, c) >= MaxOutstandingLoans {
        return LoanLimitReached;
      }
      if !HasBook(books, i) {
        return NoSuchBook;
      }
      if IsCheckedOut(loans, i) {
        return AlreadyCheckedOut;
      }
      CheckoutKeepsTablesValid(books, borrowers, loans, fines, i, c, today);
      loans := loans + [NewLoan(loans, i, c, today)];
      return CheckedOut;
    }

    /**
     * `checkin_book`: search the outstanding loans, check the selections,
     * return each selected loan today, then recompute the fines.
     */
    method CheckinBook(query: string, selections: seq<int>, today: int) returns (outcome: CheckinOutcome)
      requires Valid()
      modifies this
      ensures Valid()
      ensures books == old(books) && authors == old(authors) && bookAuthors == old(bookAuthors) && borrowers == old(borrowers)
      ensures outcome == CheckinCheck(FindLoansForCheckin(old(loans), old(books), old(borrowers), query), selections)
      ensures outcome != CheckedIn ==> loans == old(loans) && fines == old(fines)
      ensures outcome == CheckedIn ==>
        && loans == ReturnLoans(old(loans), SelectedLoanIds(FindLoansForCheckin(old(loans), old(books), old(borrowers), query), selections), today)
        && fines == RecomputedFines(loans, old(fines), today)
    {
      var rows := FindLoansForCheckin(loans, books, borrowers, query);
      if |rows| == 0 {
        return NoMatchingLoans;
      }
      if |selections| == 0 {
        return NoSelections;
      }
      if |selections| > MaxSelections {
        return TooManySelections;
      }
      if exists j | 0 <= j < |selections| :: selections[j] < 1 || selections[j] > |rows| {
        return SelectionOutOfRange;
      }
      ReturnSelected(SelectedLoanIds(rows, selections), today);
      UpdateFines(today);
      return CheckedIn;
    }

    /** The loop of `checkin_book`: set `Date_in` to today on each loan id in turn. */
    method ReturnSelected(ids: seq<int>, today: int)
      requires Valid()
      modifies this
      ensures Valid()
      ensures books == old(books) && authors == old(authors) && bookAuthors == old(bookAuthors)
      ensures borrowers == old(borrowers) && fines == old(fines)
      ensures loans == ReturnLoans(old(loans), ids, today)
    {
      var k := 0;
      while k < |ids|
        invariant 0 <= k <= |ids|
        invariant loans == ReturnLoans(old(loans), ids[..k], today)
        invariant LoansValid(loans) && |loans| == |old(loans)|
        invariant books == old(books) && authors == old(authors) && bookAuthors == old(bookAuthors)
        invariant borrowers == old(borrowers) && fines == old(fines)
      {
        var id := ids[k];
        if 1 <= id <= |loans| {
          ReturnKeepsLoansValid(loans, id - 1, today);
          loans := loans[id - 1 := loans[id - 1].(dateIn := Some(today))];
        }
        assert ids[..k + 1][..k] == ids[..k];
        k := k + 1;
      }
      assert ids[..k] == ids;
    }

    /** `update_fines`: apply the returned-late rows, then the still-out rows. */
    method UpdateFines(today: int)
      requires Valid()
      modifies this
      ensures Valid()
      ensures books == old(books) && authors == old(authors) && bookAuthors == old(bookAuthors)
      ensures borrowers == old(borrowers) && loans == old(loans)
      ensures fines == RecomputedFines(old(loans), old(fines), today)
    {
      var returnedRows := OverdueRows(loans, today, true);
      var outRows := OverdueRows(loans, today, false);
      OverdueRowsSelectOverdueLoans(loans, today, true);
      OverdueRowsSelectOverdueLoans(loans, today, false);
      ApplyFineRowsWellFormed(fines, returnedRows + outRows, |loans|);
      ApplyFineRowsAppend(fines, returnedRows, outRows);
      ApplyFines(returnedRows);
      ApplyFines(outRows);
    }

    /**
     * `_apply_fines`: for each row with a positive amount, insert the fine
     * when the loan has none, or update an unpaid fine whose amount differs.
     */
    method ApplyFines(rows: seq<FineRow>)
      modifies this
      ensures books == old(books) && authors == old(authors) && bookAuthors == old(bookAuthors)
      ensures borrowers == old(borrowers) && loans == old(loans)
      ensures fines == ApplyFineRows(old(fines), rows)
    {
      var k := 0;
      while k < |rows|
        invariant 0 <= k <= |rows|
        invariant fines == ApplyFineRows(old(fines), rows[..k])
        invariant books == old(books) && authors == old(authors) && bookAuthors == old(bookAuthors)
        invariant borrowers == old(borrowers) && loans == old(loans)
      {
        var row := rows[k];
        assert rows[..k + 1][..k] == rows[..k];
        k := k + 1;
        if row.amount <= 0 {
          continue;
        }
        match FineIndex(fines, row.loanId)
        case None =>
          fines := fines + [Fine(row.loanId, row.amount, false)];
        case Some(i) =>
          if !fines[i].paid && fines[i].amount != row.amount {
            fines := fines[i := fines[i].(amount := row.amount)];
          }
      }
      assert rows[..k] == rows;
    }

    /**
     * `pay_fines`: when the borrower owes something on returned loans, mark
     * exactly those fines paid and report the total; otherwise report 0 and
     * change nothing.
     */
    method PayFines(cardId: string) returns (paid: int)
      requires Valid()
      modifies this
      ensures Valid()
      ensures books == old(books) && authors == old(authors) && bookAuthors == old(bookAuthors)
      ensures borrowers == old(borrowers) && loans == old(loans)
      ensures var total := UnpaidTotal(old(fines), old(loans), PythonStrip(cardId), true);
        && (total <= 0 ==> paid == 0 && fines == old(fines))
        && (total > 0 ==> paid == total && fines == PayOff(old(fines), old(loans), PythonStrip(cardId)))
    {
      var c := PythonStrip(cardId);
      var total := UnpaidTotal(fines, loans, c, true);
      if total <= 0 {
        return 0;
      }
      fines := PayOff(fines, loans, c);
      return total;
    }
  }
}
