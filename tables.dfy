/**
 * The rows of the library database (BOOK, AUTHORS, BOOK_AUTHORS, BORROWER,
 * BOOK_LOANS, FINES), the lookups the circulation rules are written in, and
 * the table invariants: primary keys, and the two borrowing limits that
 * checkout enforces and every operation preserves.
 *
 * Dates are day numbers, money is whole cents. A loan's `Loan_id` is its
 * position in BOOK_LOANS plus one: loans are only ever appended, so SQLite's
 * next rowid is always the table size plus one.
 */
module Tables {
  import opened Wrappers

  /** Days between `Date_out` and `Due_date` (`DATE('now', '+14 days')`). */
  const LoanPeriodDays := 14
  /** Loans a borrower may hold at once. */
  const MaxOutstandingLoans := 3

  datatype Book = Book(isbn: string, title: string)
  datatype Author = Author(authorId: int, name: string)
  datatype BookAuthor = BookAuthor(isbn: string, authorId: int)
  datatype Borrower = Borrower(cardId: string, ssn: string, name: string, address: string, phone: string)
  /** `dateIn == None` is `Date_in IS NULL`: the book is still out. */
  datatype Loan = Loan(loanId: int, isbn: string, cardId: string, dateOut: int, dueDate: int, dateIn: Option<int>)
  /** `amount` in cents; `paid` is the `Paid` flag (0 or 1). */
  datatype Fine = Fine(loanId: int, amount: int, paid: bool)

  // ---------------------------------------------------------------------------
  // Lookups
  // ---------------------------------------------------------------------------

  predicate Outstanding(l: Loan) {
    l.dateIn.None?
  }

  predicate HasBorrower(borrowers: seq<Borrower>, cardId: string) {
    exists i | 0 <= i < |borrowers| :: borrowers[i].cardId == cardId
  }

  predicate SsnTaken(borrowers: seq<Borrower>, ssn: string) {
    exists i | 0 <= i < |borrowers| :: borrowers[i].ssn == ssn
  }

  predicate HasBook(books: seq<Book>, isbn: string) {
    exists i | 0 <= i < |books| :: books[i].isbn == isbn
  }

  /** Some loan of this ISBN has `Date_in IS NULL`. */
  predicate IsCheckedOut(loans: seq<Loan>, isbn: string) {
    exists i | 0 <= i < |loans| :: loans[i].isbn == isbn && Outstanding(loans[i])
  }

  /** `SELECT COUNT(*) FROM BOOK_LOANS WHERE Card_id = ? AND Date_in IS NULL`. */
  function OutstandingCount(loans: seq<Loan>, cardId: string): nat {
    if loans == [] then 0
    else
      var last := loans[|loans| - 1];
      OutstandingCount(loans[..|loans| - 1], cardId) + (if last.cardId == cardId && Outstanding(last) then 1 else 0)
  }

  /** The loan a `Loan_id` names (the join `F.Loan_id = BL.Loan_id`). */
  function LoanById(loans: seq<Loan>, loanId: int): Option<Loan> {
    if 1 <= loanId <= |loans| then Some(loans[loanId - 1]) else None
  }

  // ---------------------------------------------------------------------------
  // Invariants
  // ---------------------------------------------------------------------------

  predicate LoanIdsAreIndices(loans: seq<Loan>) {
    forall i | 0 <= i < |loans| :: loans[i].loanId == i + 1
  }

  /** A book cannot be checked out twice. */
  predicate AtMostOneOutstandingPerBook(loans: seq<Loan>) {
    forall i, j | 0 <= i < j < |loans| && Outstanding(loans[i]) && Outstanding(loans[j]) :: loans[i].isbn != loans[j].isbn
  }

  /** No borrower holds more than three books. */
  ghost predicate WithinLoanLimit(loans: seq<Loan>) {
    forall cardId :: OutstandingCount(loans, cardId) <= MaxOutstandingLoans
  }

  predicate BookKeysUnique(books: seq<Book>) {
    forall i, j | 0 <= i < j < |books| :: books[i].isbn != books[j].isbn
  }

  /** `Card_id` is the primary key and `Ssn` is UNIQUE. */
  predicate BorrowerKeysUnique(borrowers: seq<Borrower>) {
    forall i, j | 0 <= i < j < |borrowers| :: borrowers[i].cardId != borrowers[j].cardId && borrowers[i].ssn != borrowers[j].ssn
  }

  /** One FINES row per loan, each for an existing loan and a positive amount. */
  predicate FinesWellFormed(fines: seq<Fine>, loanCount: nat) {
    && (forall i | 0 <= i < |fines| :: 1 <= fines[i].loanId <= loanCount && fines[i].amount > 0)
    && (forall i, j | 0 <= i < j < |fines| :: fines[i].loanId != fines[j].loanId)
  }

  ghost predicate LoansValid(loans: seq<Loan>) {
    LoanIdsAreIndices(loans) && AtMostOneOutstandingPerBook(loans) && WithinLoanLimit(loans)
  }

  ghost predicate TablesValid(books: seq<Book>, borrowers: seq<Borrower>, loans: seq<Loan>, fines: seq<Fine>) {
    && BookKeysUnique(books)
    && BorrowerKeysUnique(borrowers)
    && LoansValid(loans)
    && FinesWellFormed(fines, |loans|)
  }

  // ---------------------------------------------------------------------------
  // The borrowing limits under the two changes made to BOOK_LOANS
  // ---------------------------------------------------------------------------

  /** Appending a loan adds one to its borrower's count when it is outstanding, and nothing else. */
  lemma {:induction false} OutstandingCountAppend(loans: seq<Loan>, l: Loan, cardId: string)
    ensures OutstandingCount(loans + [l], cardId)
         == OutstandingCount(loans, cardId) + (if l.cardId == cardId && Outstanding(l) then 1 else 0)
  {
    assert (loans + [l])[..|loans|] == loans;
  }

  /**
   * A new outstanding loan for a borrower below the limit, of a book that is
   * not out, keeps both borrowing limits.
   */
  lemma {:induction false} NewLoanKeepsLimits(loans: seq<Loan>, l: Loan)
    requires AtMostOneOutstandingPerBook(loans) && WithinLoanLimit(loans)
    requires OutstandingCount(loans, l.cardId) < MaxOutstandingLoans
    requires !IsCheckedOut(loans, l.isbn)
    ensures AtMostOneOutstandingPerBook(loans + [l]) && WithinLoanLimit(loans + [l])
  {
    var loans' := loans + [l];
    forall i, j | 0 <= i < j < |loans'| && Outstanding(loans'[i]) && Outstanding(loans'[j])
      ensures loans'[i].isbn != loans'[j].isbn
    {
      if j == |loans| {
        assert loans'[i] == loans[i];
      } else {
        assert loans'[i] == loans[i] && loans'[j] == loans[j];
      }
    }
    forall cardId ensures OutstandingCount(loans', cardId) <= MaxOutstandingLoans {
      OutstandingCountAppend(loans, l, cardId);
    }
  }

  /** Setting `Date_in` on one loan never raises a borrower's count. */
  lemma {:induction false} ReturnLowersCount(loans: seq<Loan>, k: int, day: int, cardId: string)
    requires 0 <= k < |loans|
    ensures OutstandingCount(loans[k := loans[k].(dateIn := Some(day))], cardId) <= OutstandingCount(loans, cardId)
    decreases |loans|
  {
    var loans' := loans[k := loans[k].(dateIn := Some(day))];
    var n := |loans| - 1;
    if k < n {
      assert loans'[..n] == loans[..n][k := loans[k].(dateIn := Some(day))];
      ReturnLowersCount(loans[..n], k, day, cardId);
    } else {
      assert loans'[..n] == loans[..n];
    }
  }

  /** Setting `Date_in` on one loan keeps the loan invariants. */
  lemma {:induction false} ReturnKeepsLoansValid(loans: seq<Loan>, k: int, day: int)
    requires LoansValid(loans) && 0 <= k < |loans|
    ensures LoansValid(loans[k := loans[k].(dateIn := Some(day))])
  {
    var loans' := loans[k := loans[k].(dateIn := Some(day))];
    forall cardId ensures OutstandingCount(loans', cardId) <= MaxOutstandingLoans {
      ReturnLowersCount(loans, k, day, cardId);
    }
  }
}
