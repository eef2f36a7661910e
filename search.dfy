/**
 * The two read-only queries of `LibraryDB`: the catalogue search of
 * `search_books` and the outstanding-loan search of `find_loans_for_checkin`,
 * which `checkin_book` runs too before it applies the selections.
 *
 * Matching is `LOWER(column) LIKE '%query%'` read as a case-insensitive
 * substring test. A NULL column (an author name missing after a LEFT JOIN)
 * never matches.
 */
module Search {
  import opened Wrappers
  import opened Text
  import opened Tables

  const StatusOut := "OUT"
  const StatusIn := "IN"
  /** The separator of `GROUP_CONCAT(A.Name, ', ')`. */
  const AuthorSeparator := ", "

  // ---------------------------------------------------------------------------
  // search_books
  // ---------------------------------------------------------------------------

  /** A result row of `search_books`; `authors` is `""` where SQL gives NULL. */
  datatype BookRow = BookRow(isbn: string, title: string, authors: string, status: string)

  /** `LEFT JOIN AUTHORS A ON BA.Author_id = A.Author_id`: the author's name, NULL when no author has the id. */
  function AuthorName(authors: seq<Author>, authorId: int): (r: Option<string>)
    ensures r.Some? ==> exists i | 0 <= i < |authors| :: authors[i] == Author(authorId, r.value)
    ensures r.None? ==> forall i | 0 <= i < |authors| :: authors[i].authorId != authorId
  {
    if authors == [] then None
    else if authors[0].authorId == authorId then Some(authors[0].name)
    else
      var r := AuthorName(authors[1..], authorId);
      assert r.Some? ==> exists i | 1 <= i < |authors| :: authors[i] == Author(authorId, r.value) by {
        if r.Some? {
          var i :| 0 <= i < |authors| - 1 && authors[1..][i] == Author(authorId, r.value);
          assert authors[i + 1] == authors[1..][i];
        }
      }
      r
  }

  /** `A.Name` for each BOOK_AUTHORS row of the book, in table order. */
  function LinkedNames(bookAuthors: seq<BookAuthor>, authors: seq<Author>, isbn: string): seq<Option<string>> {
    if bookAuthors == [] then []
    else
      var link := bookAuthors[|bookAuthors| - 1];
      LinkedNames(bookAuthors[..|bookAuthors| - 1], authors, isbn)
        + (if link.isbn == isbn then [AuthorName(authors, link.authorId)] else [])
  }

  /** The `A.Name` column of the book's joined rows: one per link, or a single NULL when it has none. */
  function JoinedNames(bookAuthors: seq<BookAuthor>, authors: seq<Author>, isbn: string): seq<Option<string>> {
    var names := LinkedNames(bookAuthors, authors, isbn);
    if names == [] then [None] else names
  }

  predicate NameMatches(name: Option<string>, query: string) {
    name.Some? && LikeSubstring(name.value, query)
  }

  predicate IsbnOrTitleMatches(b: Book, query: string) {
    LikeSubstring(b.isbn, query) || LikeSubstring(b.title, query)
  }

  /** The WHERE clause keeps at least one of the book's joined rows. */
  predicate BookMatches(b: Book, authors: seq<Author>, bookAuthors: seq<BookAuthor>, query: string) {
    var names := JoinedNames(bookAuthors, authors, b.isbn);
    IsbnOrTitleMatches(b, query) || exists i | 0 <= i < |names| :: NameMatches(names[i], query)
  }

  /**
   * The non-NULL names of the joined rows that the WHERE clause keeps: all of
   * them when `all` (the ISBN or title matched), otherwise only the names that
   * match themselves. This is what `GROUP_CONCAT` sees.
   */
  function ShownNames(names: seq<Option<string>>, query: string, all: bool): seq<string> {
    if names == [] then []
    else
      var last := names[|names| - 1];
      ShownNames(names[..|names| - 1], query, all)
        + (if last.Some? && (all || LikeSubstring(last.value, query)) then [last.value] else [])
  }

  function Status(loans: seq<Loan>, isbn: string): string {
    if IsCheckedOut(loans, isbn) then StatusOut else StatusIn
  }

  /** The grouped row of one matching book. */
  function RowOf(b: Book, authors: seq<Author>, bookAuthors: seq<BookAuthor>, loans: seq<Loan>, query: string): BookRow {
    var shown := ShownNames(JoinedNames(bookAuthors, authors, b.isbn), query, IsbnOrTitleMatches(b, query));
    BookRow(b.isbn, b.title, Join(shown, AuthorSeparator), Status(loans, b.isbn))
  }

  /** `search_books(query)`, one row per matching book, in BOOK order. */
  function SearchBooks(books: seq<Book>, authors: seq<Author>, bookAuthors: seq<BookAuthor>, loans: seq<Loan>, query: string): seq<BookRow> {
    if books == [] then []
    else
      var b := books[|books| - 1];
      SearchBooks(books[..|books| - 1], authors, bookAuthors, loans, query)
        + (if BookMatches(b, authors, bookAuthors, query) then [RowOf(b, authors, bookAuthors, loans, query)] else [])
  }

  /** `row` is the grouped row of some matching book. */
  predicate RowOfMatchingBook(row: BookRow, books: seq<Book>, authors: seq<Author>, bookAuthors: seq<BookAuthor>, loans: seq<Loan>, query: string) {
    exists i | 0 <= i < |books| ::
      BookMatches(books[i], authors, bookAuthors, query) && row == RowOf(books[i], authors, bookAuthors, loans, query)
  }

  /** Every row is the row of a matching book. */
  lemma {:induction false} SearchBooksRowsMatch(books: seq<Book>, authors: seq<Author>, bookAuthors: seq<BookAuthor>, loans: seq<Loan>, query: string)
    ensures forall k | 0 <= k < |SearchBooks(books, authors, bookAuthors, loans, query)| ::
      RowOfMatchingBook(SearchBooks(books, authors, bookAuthors, loans, query)[k], books, authors, bookAuthors, loans, query)
    decreases |books|
  {
    if books != [] {
      var n := |books| - 1;
      var init := books[..n];
      SearchBooksRowsMatch(init, authors, bookAuthors, loans, query);
      var prev := SearchBooks(init, authors, bookAuthors, loans, query);
      var rows := SearchBooks(books, authors, bookAuthors, loans, query);
      var matches := BookMatches(books[n], authors, bookAuthors, query);
      assert rows == prev + (if matches then [RowOf(books[n], authors, bookAuthors, loans, query)] else []);
      forall k | 0 <= k < |rows|
        ensures RowOfMatchingBook(rows[k], books, authors, bookAuthors, loans, query)
      {
        if k < |prev| {
          assert rows[k] == prev[k];
          assert RowOfMatchingBook(prev[k], init, authors, bookAuthors, loans, query);
          var i :| 0 <= i < |init| && BookMatches(init[i], authors, bookAuthors, query)
            && prev[k] == RowOf(init[i], authors, bookAuthors, loans, query);
          assert books[i] == init[i];
        } else {
          assert rows[k] == RowOf(books[n], authors, bookAuthors, loans, query);
        }
      }
    }
  }

  /** Every matching book has its row. */
  lemma {:induction false} SearchBooksListsMatches(books: seq<Book>, authors: seq<Author>, bookAuthors: seq<BookAuthor>, loans: seq<Loan>, query: string)
    ensures forall i | 0 <= i < |books| && BookMatches(books[i], authors, bookAuthors, query) ::
      RowOf(books[i], authors, bookAuthors, loans, query) in SearchBooks(books, authors, bookAuthors, loans, query)
    decreases |books|
  {
    if books != [] {
      var n := |books| - 1;
      var init := books[..n];
      SearchBooksListsMatches(init, authors, bookAuthors, loans, query);
      var prev := SearchBooks(init, authors, bookAuthors, loans, query);
      var rows := SearchBooks(books, authors, bookAuthors, loans, query);
      assert prev <= rows;
      forall i | 0 <= i < |books| && BookMatches(books[i], authors, bookAuthors, query)
        ensures RowOf(books[i], authors, bookAuthors, loans, query) in rows
      {
        var row := RowOf(books[i], authors, bookAuthors, loans, query);
        if i < n {
          assert books[i] == init[i];
          assert row in prev;
        } else {
          assert rows[|prev|] == row;
        }
      }
    }
  }

  /** Every row is the row of a matching book, and every matching book has its row. */
  lemma SearchBooksSelectsMatches(books: seq<Book>, authors: seq<Author>, bookAuthors: seq<BookAuthor>, loans: seq<Loan>, query: string)
    ensures forall k | 0 <= k < |SearchBooks(books, authors, bookAuthors, loans, query)| ::
      RowOfMatchingBook(SearchBooks(books, authors, bookAuthors, loans, query)[k], books, authors, bookAuthors, loans, query)
    ensures forall i | 0 <= i < |books| && BookMatches(books[i], authors, bookAuthors, query) ::
      RowOf(books[i], authors, bookAuthors, loans, query) in SearchBooks(books, authors, bookAuthors, loans, query)
  {
    SearchBooksRowsMatch(books, authors, bookAuthors, loans, query);
    SearchBooksListsMatches(books, authors, bookAuthors, loans, query);
  }

  /** The book a row of the search was grouped from. */
  lemma SearchRowSource(books: seq<Book>, authors: seq<Author>, bookAuthors: seq<BookAuthor>, loans: seq<Loan>, query: string, k: nat)
    returns (i: nat)
    requires k < |SearchBooks(books, authors, bookAuthors, loans, query)|
    ensures i < |books| && BookMatches(books[i], authors, bookAuthors, query)
    ensures SearchBooks(books, authors, bookAuthors, loans, query)[k] == RowOf(books[i], authors, bookAuthors, loans, query)
  {
    SearchBooksSelectsMatches(books, authors, bookAuthors, loans, query);
    var rows := SearchBooks(books, authors, bookAuthors, loans, query);
    assert RowOfMatchingBook(rows[k], books, authors, bookAuthors, loans, query);
    i :| 0 <= i < |books| && BookMatches(books[i], authors, bookAuthors, query)
      && rows[k] == RowOf(books[i], authors, bookAuthors, loans, query);
  }

  /** GROUP BY B.Isbn: with ISBN the primary key of BOOK, no ISBN is listed twice. */
  lemma {:induction false} SearchBooksOneRowPerIsbn(books: seq<Book>, authors: seq<Author>, bookAuthors: seq<BookAuthor>, loans: seq<Loan>, query: string)
    requires BookKeysUnique(books)
    ensures var rows := SearchBooks(books, authors, bookAuthors, loans, query);
      forall j, k | 0 <= j < k < |rows| :: rows[j].isbn != rows[k].isbn
    decreases |books|
  {
    if books != [] {
      var n := |books| - 1;
      var init := books[..n];
      SearchBooksOneRowPerIsbn(init, authors, bookAuthors, loans, query);
      var prev := SearchBooks(init, authors, bookAuthors, loans, query);
      var rows := SearchBooks(books, authors, bookAuthors, loans, query);
      if BookMatches(books[n], authors, bookAuthors, query) {
        assert rows == prev + [RowOf(books[n], authors, bookAuthors, loans, query)];
        forall j | 0 <= j < |prev| ensures prev[j].isbn != books[n].isbn {
          var i := SearchRowSource(init, authors, bookAuthors, loans, query, j);
          assert init[i] == books[i];
        }
      } else {
        assert rows == prev;
      }
    }
  }

  /** A row says "OUT" exactly when some loan of its ISBN has no `Date_in`, and "IN" otherwise. */
  lemma SearchBooksStatus(books: seq<Book>, authors: seq<Author>, bookAuthors: seq<BookAuthor>, loans: seq<Loan>, query: string)
    ensures var rows := SearchBooks(books, authors, bookAuthors, loans, query);
      forall k | 0 <= k < |rows| ::
        && (rows[k].status == StatusOut <==> IsCheckedOut(loans, rows[k].isbn))
        && (rows[k].status == StatusIn <==> !IsCheckedOut(loans, rows[k].isbn))
  {
    SearchBooksSelectsMatches(books, authors, bookAuthors, loans, query);
  }

  /** A book without BOOK_AUTHORS rows has no linked names. */
  lemma {:induction false} LinkedNamesOfUnlinkedBook(bookAuthors: seq<BookAuthor>, authors: seq<Author>, isbn: string)
    requires forall j | 0 <= j < |bookAuthors| :: bookAuthors[j].isbn != isbn
    ensures LinkedNames(bookAuthors, authors, isbn) == []
    decreases |bookAuthors|
  {
    if bookAuthors != [] {
      LinkedNamesOfUnlinkedBook(bookAuthors[..|bookAuthors| - 1], authors, isbn);
    }
  }

  /** A listed book without authors shows `""` in the authors column. */
  lemma SearchBooksUnlinkedAuthorsEmpty(books: seq<Book>, authors: seq<Author>, bookAuthors: seq<BookAuthor>, loans: seq<Loan>, query: string)
    ensures var rows := SearchBooks(books, authors, bookAuthors, loans, query);
      forall k | 0 <= k < |rows| && (forall j | 0 <= j < |bookAuthors| :: bookAuthors[j].isbn != rows[k].isbn) ::
        rows[k].authors == ""
  {
    var rows := SearchBooks(books, authors, bookAuthors, loans, query);
    SearchBooksSelectsMatches(books, authors, bookAuthors, loans, query);
    forall k | 0 <= k < |rows| && (forall j | 0 <= j < |bookAuthors| :: bookAuthors[j].isbn != rows[k].isbn)
      ensures rows[k].authors == ""
    {
      LinkedNamesOfUnlinkedBook(bookAuthors, authors, rows[k].isbn);
      assert ShownNames([None], query, IsbnOrTitleMatches(Book(rows[k].isbn, rows[k].title), query)) == [];
    }
  }

  /**
   * The authors column lists the joined names the WHERE clause kept: every
   * non-NULL name when the ISBN or title matched, only the matching names
   * otherwise, each shown name coming from one of the rows.
   */
  lemma {:induction false} ShownNamesSelect(names: seq<Option<string>>, query: string, all: bool)
    ensures var shown := ShownNames(names, query, all);
      && |shown| <= |names|
      && (forall k | 0 <= k < |shown| :: Some(shown[k]) in names && (all || LikeSubstring(shown[k], query)))
      && (forall i | 0 <= i < |names| && names[i].Some? && (all || LikeSubstring(names[i].value, query)) ::
            names[i].value in shown)
    decreases |names|
  {
    if names != [] {
      var init := names[..|names| - 1];
      ShownNamesSelect(init, query, all);
      var prev := ShownNames(init, query, all);
      var shown := ShownNames(names, query, all);
      forall k | 0 <= k < |shown| ensures Some(shown[k]) in names && (all || LikeSubstring(shown[k], query)) {
        if k < |prev| {
          assert shown[k] == prev[k];
          assert Some(prev[k]) in init;
        }
      }
      forall i | 0 <= i < |names| && names[i].Some? && (all || LikeSubstring(names[i].value, query))
        ensures names[i].value in shown
      {
        if i < |init| {
          assert names[i] == init[i];
        }
      }
    }
  }

  lemma {:induction false} ContainsEmpty(s: string)
    ensures Contains(s, "")
  {
  }

  /** The empty query (`LIKE '%%'`) lists every book, in BOOK order. */
  lemma {:induction false} EmptyQueryListsEveryBook(books: seq<Book>, authors: seq<Author>, bookAuthors: seq<BookAuthor>, loans: seq<Loan>)
    ensures var rows := SearchBooks(books, authors, bookAuthors, loans, "");
      && |rows| == |books|
      && forall i | 0 <= i < |books| :: rows[i].isbn == books[i].isbn && rows[i].title == books[i].title
    decreases |books|
  {
    if books != [] {
      var n := |books| - 1;
      EmptyQueryListsEveryBook(books[..n], authors, bookAuthors, loans);
      ContainsEmpty(Lower(books[n].isbn));
      assert Lower("") == "";
      assert BookMatches(books[n], authors, bookAuthors, "");
    }
  }

  // ---------------------------------------------------------------------------
  // find_loans_for_checkin
  // ---------------------------------------------------------------------------

  /** A result row of the outstanding-loan search. */
  datatype CheckinRow = CheckinRow(loanId: int, isbn: string, title: string, cardId: string, borrowerName: string, dateOut: int, dueDate: int)

  /** `JOIN BOOK B ON BL.Isbn = B.Isbn`: the title of the book, none when the ISBN is unknown. */
  function BookTitle(books: seq<Book>, isbn: string): (r: Option<string>)
    ensures r.Some? <==> HasBook(books, isbn)
    ensures r.Some? ==> Book(isbn, r.value) in books
  {
    if books == [] then None
    else if books[0].isbn == isbn then Some(books[0].title)
    else
      var r := BookTitle(books[1..], isbn);
      assert HasBook(books[1..], isbn) ==> HasBook(books, isbn) by {
        if HasBook(books[1..], isbn) {
          var i :| 0 <= i < |books| - 1 && books[1..][i].isbn == isbn;
          assert books[i + 1].isbn == isbn;
        }
      }
      assert HasBook(books, isbn) ==> HasBook(books[1..], isbn) by {
        if HasBook(books, isbn) {
          var i :| 0 <= i < |books| && books[i].isbn == isbn;
          assert books[1..][i - 1].isbn == isbn;
        }
      }
      r
  }

  /** `JOIN BORROWER BR ON BL.Card_id = BR.Card_id`: the borrower's name, none when the card is unknown. */
  function BorrowerName(borrowers: seq<Borrower>, cardId: string): (r: Option<string>)
    ensures r.Some? <==> HasBorrower(borrowers, cardId)
    ensures r.Some? ==> exists i | 0 <= i < |borrowers| :: borrowers[i].cardId == cardId && borrowers[i].name == r.value
  {
    if borrowers == [] then None
    else if borrowers[0].cardId == cardId then Some(borrowers[0].name)
    else
      var r := BorrowerName(borrowers[1..], cardId);
      assert HasBorrower(borrowers[1..], cardId) ==> HasBorrower(borrowers, cardId) by {
        if HasBorrower(borrowers[1..], cardId) {
          var i :| 0 <= i < |borrowers| - 1 && borrowers[1..][i].cardId == cardId;
          assert borrowers[i + 1].cardId == cardId;
        }
      }
      assert HasBorrower(borrowers, cardId) ==> HasBorrower(borrowers[1..], cardId) by {
        if HasBorrower(borrowers, cardId) {
          var i :| 0 <= i < |borrowers| && borrowers[i].cardId == cardId;
          assert borrowers[1..][i - 1].cardId == cardId;
        }
      }
      assert r.Some? ==> exists i | 0 <= i < |borrowers| :: borrowers[i].cardId == cardId && borrowers[i].name == r.value by {
        if r.Some? {
          var i :| 0 <= i < |borrowers| - 1 && borrowers[1..][i].cardId == cardId && borrowers[1..][i].name == r.value;
          assert borrowers[i + 1] == borrowers[1..][i];
        }
      }
      r
  }

  /**
   * The joined row of a loan when the loan is out, its book and borrower
   * exist, and the ISBN, card number or borrower name matches the query.
   */
  function CheckinCandidate(l: Loan, books: seq<Book>, borrowers: seq<Borrower>, query: string): (r: Option<CheckinRow>)
    ensures r.Some? ==> Outstanding(l) && Book(l.isbn, r.value.title) in books
    ensures r.Some? ==> && r.value.loanId == l.loanId && r.value.isbn == l.isbn && r.value.cardId == l.cardId
                        && r.value.dateOut == l.dateOut && r.value.dueDate == l.dueDate
  {
    if !Outstanding(l) then None
    else match (BookTitle(books, l.isbn), BorrowerName(borrowers, l.cardId))
      case (Some(title), Some(name)) =>
        if LikeSubstring(l.isbn, query) || LikeSubstring(l.cardId, query) || LikeSubstring(name, query)
        then Some(CheckinRow(l.loanId, l.isbn, title, l.cardId, name, l.dateOut, l.dueDate))
        else None
      case _ => None
  }

  /** The rows the WHERE clause keeps, in BOOK_LOANS order. */
  function CheckinCandidates(loans: seq<Loan>, books: seq<Book>, borrowers: seq<Borrower>, query: string): seq<CheckinRow> {
    if loans == [] then []
    else
      var l := loans[|loans| - 1];
      CheckinCandidates(loans[..|loans| - 1], books, borrowers, query)
        + match CheckinCandidate(l, books, borrowers, query) case Some(row) => [row] case None => []
  }

  /** `ORDER BY BL.Date_out`, ties broken by `Loan_id`. */
  predicate RowNotAfter(a: CheckinRow, b: CheckinRow) {
    a.dateOut < b.dateOut || (a.dateOut == b.dateOut && a.loanId <= b.loanId)
  }

  predicate SortedByDateOut(rows: seq<CheckinRow>) {
    forall j, k | 0 <= j < k < |rows| :: RowNotAfter(rows[j], rows[k])
  }

  /** Insert `x` in front of the first row it does not come after. */
  function InsertRow(x: CheckinRow, rows: seq<CheckinRow>): (r: seq<CheckinRow>)
    ensures multiset(r) == multiset(rows) + multiset{x}
  {
    if rows == [] then [x]
    else if RowNotAfter(x, rows[0]) then [x] + rows
    else
      assert rows == [rows[0]] + rows[1..];
      [rows[0]] + InsertRow(x, rows[1..])
  }

  function SortRows(rows: seq<CheckinRow>): (r: seq<CheckinRow>)
    ensures multiset(r) == multiset(rows)
  {
    if rows == [] then []
    else
      assert rows == [rows[0]] + rows[1..];
      InsertRow(rows[0], SortRows(rows[1..]))
  }

  lemma {:induction false} InsertRowSorted(x: CheckinRow, rows: seq<CheckinRow>)
    requires SortedByDateOut(rows)
    ensures SortedByDateOut(InsertRow(x, rows))
    decreases |rows|
  {
    if rows != [] && !RowNotAfter(x, rows[0]) {
      InsertRowSorted(x, rows[1..]);
      var rest := InsertRow(x, rows[1..]);
      forall k | 0 <= k < |rest| ensures RowNotAfter(rows[0], rest[k]) {
        assert rest[k] in multiset(rows[1..]) + multiset{x};
        if rest[k] != x {
          var i :| 0 <= i < |rows[1..]| && rows[1..][i] == rest[k];
          assert rows[i + 1] == rest[k];
        }
      }
    }
  }

  lemma {:induction false} SortRowsSorted(rows: seq<CheckinRow>)
    ensures SortedByDateOut(SortRows(rows))
    decreases |rows|
  {
    if rows != [] {
      SortRowsSorted(rows[1..]);
      InsertRowSorted(rows[0], SortRows(rows[1..]));
    }
  }

  predicate DistinctRowLoanIds(rows: seq<CheckinRow>) {
    forall j, k | 0 <= j < k < |rows| :: rows[j].loanId != rows[k].loanId
  }

  /** Inserting a row of a new loan keeps loan ids distinct. */
  lemma {:induction false} InsertRowKeepsDistinct(x: CheckinRow, rows: seq<CheckinRow>)
    requires DistinctRowLoanIds(rows)
    requires forall k | 0 <= k < |rows| :: rows[k].loanId != x.loanId
    ensures DistinctRowLoanIds(InsertRow(x, rows))
    decreases |rows|
  {
    if rows != [] && !RowNotAfter(x, rows[0]) {
      var tail := rows[1..];
      InsertRowKeepsDistinct(x, tail);
      var rest := InsertRow(x, tail);
      forall k | 0 <= k < |rest| ensures rest[k].loanId != rows[0].loanId {
        assert rest[k] in multiset(tail) + multiset{x};
        if rest[k] != x {
          var i :| 0 <= i < |tail| && tail[i] == rest[k];
          assert rows[i + 1] == rest[k];
        }
      }
    }
  }

  /** Sorting keeps loan ids distinct. */
  lemma {:induction false} SortRowsKeepsDistinct(rows: seq<CheckinRow>)
    requires DistinctRowLoanIds(rows)
    ensures DistinctRowLoanIds(SortRows(rows))
    decreases |rows|
  {
    if rows != [] {
      var tail := rows[1..];
      SortRowsKeepsDistinct(tail);
      var sorted := SortRows(tail);
      forall k | 0 <= k < |sorted| ensures sorted[k].loanId != rows[0].loanId {
        assert sorted[k] in multiset(tail);
        var i :| 0 <= i < |tail| && tail[i] == sorted[k];
        assert rows[i + 1] == sorted[k];
      }
      InsertRowKeepsDistinct(rows[0], sorted);
    }
  }

  /** Loan ids in `1..count`, strictly increasing. */
  predicate IncreasingLoanIds(rows: seq<CheckinRow>, count: nat) {
    && (forall k | 0 <= k < |rows| :: 1 <= rows[k].loanId <= count)
    && (forall j, k | 0 <= j < k < |rows| :: rows[j].loanId < rows[k].loanId)
  }

  /** The candidates come in BOOK_LOANS order, so their loan ids increase. */
  lemma {:induction false} CheckinCandidatesIncreasing(loans: seq<Loan>, books: seq<Book>, borrowers: seq<Borrower>, query: string)
    requires LoanIdsAreIndices(loans)
    ensures IncreasingLoanIds(CheckinCandidates(loans, books, borrowers, query), |loans|)
    decreases |loans|
  {
    if loans != [] {
      var n := |loans| - 1;
      var init := loans[..n];
      assert LoanIdsAreIndices(init) by {
        forall i | 0 <= i < n ensures init[i].loanId == i + 1 {
          assert init[i] == loans[i];
        }
      }
      CheckinCandidatesIncreasing(init, books, borrowers, query);
      var prev := CheckinCandidates(init, books, borrowers, query);
      var rows := CheckinCandidates(loans, books, borrowers, query);
      var last := CheckinCandidate(loans[n], books, borrowers, query);
      assert rows == prev + (if last.Some? then [last.value] else []);
      forall k | 0 <= k < |rows| ensures 1 <= rows[k].loanId <= |loans| {
        if k < |prev| {
          assert rows[k] == prev[k];
        } else {
          assert rows[k] == last.value && last.value.loanId == loans[n].loanId;
        }
      }
      forall j, k | 0 <= j < k < |rows| ensures rows[j].loanId < rows[k].loanId {
        assert rows[j] == prev[j];
        if k < |prev| {
          assert rows[k] == prev[k];
        } else {
          assert rows[k] == last.value && last.value.loanId == loans[n].loanId;
        }
      }
    }
  }

  /** `find_loans_for_checkin(query)`: the matching outstanding loans, earliest `Date_out` first. */
  function FindLoansForCheckin(loans: seq<Loan>, books: seq<Book>, borrowers: seq<Borrower>, query: string): seq<CheckinRow> {
    SortRows(CheckinCandidates(loans, books, borrowers, query))
  }

  /** The candidates are exactly the joined rows of the matching outstanding loans. */
  lemma {:induction false} CheckinCandidatesSelect(loans: seq<Loan>, books: seq<Book>, borrowers: seq<Borrower>, query: string)
    ensures var rows := CheckinCandidates(loans, books, borrowers, query);
      && (forall k | 0 <= k < |rows| :: exists i | 0 <= i < |loans| :: CheckinCandidate(loans[i], books, borrowers, query) == Some(rows[k]))
      && (forall i | 0 <= i < |loans| && CheckinCandidate(loans[i], books, borrowers, query).Some? ::
            CheckinCandidate(loans[i], books, borrowers, query).value in rows)
    decreases |loans|
  {
    if loans != [] {
      var n := |loans| - 1;
      var init := loans[..n];
      CheckinCandidatesSelect(init, books, borrowers, query);
      var prev := CheckinCandidates(init, books, borrowers, query);
      var rows := CheckinCandidates(loans, books, borrowers, query);
      forall k | 0 <= k < |rows|
        ensures exists i | 0 <= i < |loans| :: CheckinCandidate(loans[i], books, borrowers, query) == Some(rows[k])
      {
        if k < |prev| {
          assert rows[k] == prev[k];
          var i :| 0 <= i < |init| && CheckinCandidate(init[i], books, borrowers, query) == Some(prev[k]);
          assert loans[i] == init[i];
        } else {
          assert CheckinCandidate(loans[n], books, borrowers, query) == Some(rows[k]);
        }
      }
      forall i | 0 <= i < |loans| && CheckinCandidate(loans[i], books, borrowers, query).Some?
        ensures CheckinCandidate(loans[i], books, borrowers, query).value in rows
      {
        if i < n {
          assert loans[i] == init[i];
        }
      }
    }
  }

  /**
   * The check-in search lists exactly the candidate rows of the matching
   * outstanding loans, each once, sorted by `Date_out`.
   */
  lemma FindLoansForCheckinSpec(loans: seq<Loan>, books: seq<Book>, borrowers: seq<Borrower>, query: string)
    requires LoanIdsAreIndices(loans)
    ensures SortedByDateOut(FindLoansForCheckin(loans, books, borrowers, query))
    ensures forall j, k | 0 <= j < k < |FindLoansForCheckin(loans, books, borrowers, query)| ::
      FindLoansForCheckin(loans, books, borrowers, query)[j].loanId != FindLoansForCheckin(loans, books, borrowers, query)[k].loanId
    ensures forall k | 0 <= k < |FindLoansForCheckin(loans, books, borrowers, query)| ::
      exists i | 0 <= i < |loans| ::
        CheckinCandidate(loans[i], books, borrowers, query) == Some(FindLoansForCheckin(loans, books, borrowers, query)[k])
    ensures forall i | 0 <= i < |loans| && CheckinCandidate(loans[i], books, borrowers, query).Some? ::
      CheckinCandidate(loans[i], books, borrowers, query).value in FindLoansForCheckin(loans, books, borrowers, query)
  {
    var cands := CheckinCandidates(loans, books, borrowers, query);
    var rows := FindLoansForCheckin(loans, books, borrowers, query);
    CheckinCandidatesSelect(loans, books, borrowers, query);
    SortRowsSorted(cands);
    CheckinCandidatesIncreasing(loans, books, borrowers, query);
    SortRowsKeepsDistinct(cands);
    forall k | 0 <= k < |rows|
      ensures exists i | 0 <= i < |loans| :: CheckinCandidate(loans[i], books, borrowers, query) == Some(rows[k])
    {
      assert rows[k] in multiset(rows);
      var j :| 0 <= j < |cands| && cands[j] == rows[k];
    }
    forall i | 0 <= i < |loans| && CheckinCandidate(loans[i], books, borrowers, query).Some?
      ensures CheckinCandidate(loans[i], books, borrowers, query).value in rows
    {
      assert CheckinCandidate(loans[i], books, borrowers, query).value in multiset(cands);
    }
  }

  /** A loan is a candidate exactly when it is out, its book and borrower exist, and one of the three columns matches. */
  lemma CheckinCandidateIff(l: Loan, books: seq<Book>, borrowers: seq<Borrower>, query: string)
    ensures CheckinCandidate(l, books, borrowers, query).Some? <==>
      && Outstanding(l) && HasBook(books, l.isbn) && HasBorrower(borrowers, l.cardId)
      && (LikeSubstring(l.isbn, query) || LikeSubstring(l.cardId, query)
          || LikeSubstring(BorrowerName(borrowers, l.cardId).value, query))
  {
  }
}
