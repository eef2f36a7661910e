# Library circulation and CSV normalisation, in Dafny

This project models the two working parts of a small library system and
proves what they promise.

1. **`LibraryDB`** (backend/library_db.py) is the circulation engine over the
   tables BOOK, AUTHORS, BOOK_AUTHORS, BORROWER, BOOK_LOANS and FINES:
   - registering a borrower under a generated `ID######` card number;
   - searching the catalogue with an IN/OUT status;
   - checking a book out (five ordered checks);
   - checking loans in by 1-based selections from an outstanding-loan search;
   - recomputing fines at 25 cents per day late, where a paid fine never changes again;
   - paying the fines on returned loans.

   The tables are sequences of rows held as fields of the class
   `Library.LibraryDB`. The operations that change them are methods. The two
   read-only queries, `search_books` and `find_loans_for_checkin`, are
   functions in module `Search`. Dates are whole day numbers, money is whole
   cents, and the current date is a parameter `today`.

2. **`Main.normalize`** (src/Main.java) reads a tab-separated books file and a
   comma-separated borrowers file line by line. It builds the book, author,
   book-author and borrower tables in insertion-ordered maps and sets, and
   writes them as four CSV files with RFC 4180 quoting (section 2, rules 6
   and 7).
   - The line loops are methods (`Normalize.ReadBooks`,
     `Normalize.ReadBorrowers`) proved equal to line-by-line fold functions.
   - Java's `LinkedHashMap`/`LinkedHashSet` are sequences in insertion order
     (module `LinkedMaps`).
   - A file is the sequence of its lines. Each output file is returned as its
     text.

Modules:

| module | contents |
|---|---|
| `Wrappers` | `Option` |
| `Text` | Java `trim`/`isBlank`/`split`/`toUpperCase`, Python `strip`, lower-casing, substring search, `String.join`, decimal digits |
| `Tables` | row datatypes, lookups, table invariants |
| `CardIds` | card-number generation |
| `Fines` | fine rows, `_apply_fines` as a fold, unpaid totals, payment |
| `Search` | `search_books`, `find_loans_for_checkin` |
| `Library` | checks and effects of each operation, class `LibraryDB` |
| `Csv` | `quote`, `writeCsv`, `isbn#id` keys |
| `LinkedMaps` | insertion-ordered maps and sets |
| `Normalize` | `normalize` |

## Model

| member | source | states |
|---|---|---|
| Library.LibraryDB.CreateBorrower | backend/library_db.py:20-64 | A stripped SSN already registered gives no card id and leaves BORROWER as it was. Otherwise exactly one borrower is appended with the stripped fields under `NextCardId`. Every other table is unchanged and the invariants are kept. |
| CardIds.FirstCardId | backend/library_db.py:44-45 | With no borrowers, the first card id is `ID000001`. |
| CardIds.FormatCardIdParses | backend/library_db.py:48-53 | A formatted card id is `ID` followed by digits whose value is the number. |
| CardIds.FormatCardIdWellFormed | backend/library_db.py:48-53 | A number below 10^6 is formatted as `ID` plus exactly six digits. |
| CardIds.MaxTextIsMaximum | backend/library_db.py:40-42 | `MAX(Card_id)` is a registered id that no other id exceeds in text order. |
| CardIds.DigitOrderIsTextOrder | backend/library_db.py:40-48 | For equal-width digit strings, one sorts before the other in text order exactly when its number is smaller. |
| CardIds.MaxCardIdHasGreatestNumber | backend/library_db.py:40-48 | With fixed-width ids, the number of the text-maximal id is at least every registered number. |
| CardIds.NextCardIdFresh | backend/library_db.py:39-53 | With fixed-width ids below 999999, the generated id is not registered yet. |
| Library.NextCardIdUnregistered | backend/library_db.py:39-61 | The generated card id is not the id of any borrower. |
| Library.NewBorrowerKeepsTablesValid | backend/library_db.py:55-61 | A borrower with a fresh card id and an unregistered SSN keeps Card_id and Ssn unique. |
| Search.SearchBooksSelectsMatches | backend/library_db.py:69-106 | Every result row is the grouped row of a book whose ISBN, title or some author name contains the query case-insensitively. Every such book has its row. |
| Search.SearchBooksOneRowPerIsbn | backend/library_db.py:85-92 | With ISBN the key of BOOK, no ISBN is listed twice. |
| Search.SearchBooksStatus | backend/library_db.py:77-84 | A row says `OUT` exactly when some loan of its ISBN has no `Date_in`, and `IN` otherwise. |
| Search.SearchBooksUnlinkedAuthorsEmpty | backend/library_db.py:86-103 | A listed book without author links shows `""` as its authors. |
| Search.ShownNamesSelect | backend/library_db.py:76-92 | When only an author matched, the authors shown are exactly the matching linked names. Otherwise all linked names are shown. |
| Search.EmptyQueryListsEveryBook | backend/library_db.py:70-91 | The empty query lists every book, in BOOK order. |
| Search.AuthorName | backend/library_db.py:87 | The LEFT JOIN gives the author's name when the id exists and NULL otherwise. |
| Search.BookTitle | backend/library_db.py:283 | The join finds a title exactly when the ISBN is in BOOK. |
| Search.BorrowerName | backend/library_db.py:284 | The join finds a name exactly when the card id is in BORROWER. |
| Search.CheckinCandidateIff | backend/library_db.py:282-291 | A loan is a result exactly when it is out, its book and borrower exist, and its ISBN, card id or borrower name contains the query. |
| Search.FindLoansForCheckinSpec | backend/library_db.py:252-310 | The result is sorted by `Date_out` (ties by `Loan_id`). Every row is the joined row of a matching outstanding loan, every such loan has its row, and no loan is listed twice. |
| Search.CheckinCandidatesIncreasing | backend/library_db.py:282-291 | Before sorting, the joined rows come in BOOK_LOANS order, so their loan ids are distinct and increasing. |
| Search.SortRows | backend/library_db.py:292 | Sorting keeps exactly the same rows (same multiset). |
| Search.SortRowsSorted | backend/library_db.py:292 | Sorted rows are in `Date_out` order. |
| Library.LibraryDB.CheckoutBook | backend/library_db.py:111-176 | The outcome is the first failing check on the stripped, upper-cased ISBN and the stripped card: borrower exists, no unpaid fine on any loan, fewer than 3 loans out, book exists, book not out. Success appends exactly one loan (today, due today + 14, not returned). Failure changes nothing, and the invariants are kept. |
| Library.CheckoutKeepsTablesValid | backend/library_db.py:139-173 | A checkout that passes the checks keeps at most one outstanding loan per ISBN and at most 3 per borrower. |
| Library.UnpaidFineBlocksCheckout | backend/library_db.py:126-137 | Any unpaid fine of the borrower, on a returned loan or not, refuses the checkout. |
| Tables.NewLoanKeepsLimits | backend/library_db.py:147-173 | A new loan for a book not out, by a borrower with fewer than 3 loans out, keeps both limits. |
| Tables.ReturnKeepsLoansValid | backend/library_db.py:235-239 | Returning a loan keeps the loan invariants. |
| Library.LibraryDB.CheckinBook | backend/library_db.py:181-246 | The outcome is the first failure among: no matching loan, no selection, more than 3 selections, a selection outside 1..rows. Any failure changes no loan and no fine. Success sets `Date_in = today` on the selected loans of the `find_loans_for_checkin` result, then recomputes fines. |
| Library.LibraryDB.ReturnSelected | backend/library_db.py:234-240 | The loop sets `Date_in = today` on each selected loan id in turn, giving `ReturnLoans`. Fines and the other tables are unchanged, and the loan invariants are kept. |
| Library.ReturnLoansEffect | backend/library_db.py:231-239 | Exactly the selected loans get `Date_in = today`; every other loan is unchanged. |
| Library.SelectedLoansAreMatchingOutstandingLoans | backend/library_db.py:226-231 | Every loan a valid selection names is an outstanding loan that the search matched. |
| Library.LibraryDB.UpdateFines | backend/library_db.py:316-363 | FINES becomes `RecomputedFines`: the returned-late rows are applied, then the still-out rows. The other tables are unchanged. |
| Library.LibraryDB.ApplyFines | backend/library_db.py:366-395 | The loop leaves FINES equal to the fold `ApplyFineRows` over the rows. |
| Fines.OverdueRowsSelectOverdueLoans | backend/library_db.py:331-357 | Each overdue query returns exactly the overdue loans, each once, with 25 cents per full day late. |
| Fines.LateFineRowsDistinct | backend/library_db.py:359-360 | No loan appears twice among the rows `update_fines` applies. |
| Fines.ApplyFineRowsKeepsExisting | backend/library_db.py:371-395 | No fine is deleted. Each fine keeps its place, its loan and its `Paid` flag. A paid fine is left exactly as it was. New fines are unpaid. |
| Fines.ApplyFineRowsWellFormed | backend/library_db.py:379-386 | One fine per loan, each for an existing loan with a positive amount. |
| Fines.ApplyFineRowSettles | backend/library_db.py:381-395 | After a row is applied, its loan's fine is paid or has the row's amount. |
| Fines.RecomputedFinesIdempotent | backend/library_db.py:316-395 | Running `update_fines` twice on the same day leaves FINES as the first run left it. |
| Fines.RecomputedFinesChargeOverdueLoans | backend/library_db.py:316-395 | After recomputation every overdue loan has a fine, either paid or charging 25 cents per day late. |
| Fines.RecomputedFinesSpareLoansNotLate | backend/library_db.py:331-360 | A loan that is not late is not revisited: it gains no fine, and a fine it already has stays in place and unchanged. |
| Fines.ApplyFineRowsChangesComeFromRows | backend/library_db.py:366-395 | Every fine `_apply_fines` adds or re-prices carries the loan id and the positive amount of one of its rows. |
| Fines.UnpaidTotalPositive | backend/library_db.py:410-421 | With positive amounts, the unpaid total is positive exactly when the borrower has a fine the filter selects. |
| Library.LibraryDB.PayFines | backend/library_db.py:400-441 | A total of 0 or less returns 0 and changes nothing. Otherwise exactly that borrower's unpaid fines on returned loans are marked paid and the total is returned. |
| Fines.PayOff | backend/library_db.py:426-437 | Only fines of the borrower's returned loans that were unpaid become paid. Every other fine is unchanged. |
| Fines.PayOffLeavesNothingPayable | backend/library_db.py:410-423 | After payment nothing is payable, so an immediate second `pay_fines` finds a total of 0 and pays nothing. |
| Fines.PayOffLeavesOutstandingFines | backend/library_db.py:426-437 | After payment, the total that blocks checkout is exactly what is owed on loans still out. |
| Csv.QuoteIsRfc4180Field | src/Main.java:102-107 | `quote` leaves a string unchanged exactly when it holds no comma and no double quote. Otherwise it gives an RFC 4180 escaped field. |
| Csv.UnquoteQuote | src/Main.java:102-107 | Un-quoting a quoted string gives it back. |
| Csv.UnescapeEscape | src/Main.java:104 | Undoubling the doubled quotes gives the string back, and the doubled text is a valid escaped body. |
| Csv.WriteCsv | src/Main.java:92-100 | The loop writes `CsvText`: the header, then one row per element in order, each followed by a line break. |
| Csv.CsvTextLines | src/Main.java:92-100 | Read back line by line, the text is the header, then the rows in order, then an empty rest. |
| Csv.PairKeySplits | src/Main.java:48-84 | Splitting `isbn#id` at its last `#` gives back exactly the ISBN and the id, even when the ISBN holds `#`. |
| LinkedMaps.PutAllFirstWins | src/Main.java:36-78 | After a run of `putIfAbsent`, each key maps to the value of its first entry, and keys are in order of first appearance. |
| LinkedMaps.FirstAppearancesSpec | src/Main.java:44-48 | Keeping first appearances gives distinct elements, with what was seen first in front, and exactly the elements given. |
| Normalize.ReadBooks | src/Main.java:15-56 | The nested loops over the books file build exactly `BookCatalog`. |
| Normalize.ReadBorrowers | src/Main.java:59-80 | The loop over the borrowers file builds exactly `BorrowerTable`. |
| Normalize.Normalize | src/Main.java:14-86 | The four written texts are `NormalizedFiles`. |
| Normalize.BookCatalogValid | src/Main.java:19-49 | Author ids are 1, 2, 3, … in insertion order; names are distinct and non-empty; ISBNs are distinct; links are distinct; every link is `isbn#id` for a stored ISBN and an assigned id. |
| Normalize.AuthorsInFirstAppearanceOrder | src/Main.java:38-47 | The authors are the distinct trimmed non-empty names of the lines read, in order of first appearance. |
| Normalize.BooksFirstTitleWins | src/Main.java:34-36 | Each ISBN (trimmed, upper-cased) keeps the title of the first line read with it. ISBNs are in order of first appearance. |
| Normalize.BookCatalogLinksEveryAuthor | src/Main.java:38-49 | Every author named on a line read is linked to that line's book. |
| Normalize.BookCatalogLinksOnlyNamedAuthors | src/Main.java:38-49 | Conversely, every book-author link is the ISBN of a line read joined to the id of an author named on that same line. |
| Normalize.OnlyLinesReadMatter | src/Main.java:26-32 | Blank lines and lines with fewer than 4 tab-separated fields change nothing. |
| Normalize.BorrowersFirstRecordWins | src/Main.java:60-79 | Each card id keeps the record of the first line read with it. Card ids are distinct, in order of first appearance, and each is its record's id. |
| Normalize.LineBorrowerFields | src/Main.java:66-76 | The address is street, city and state, trimmed and joined by `", "`, so it splits back at its two commas. Card id, SSN and phone hold no comma. |
| Normalize.AddressAlwaysQuoted | src/Main.java:75-85 | The address is always written as an escaped field and reads back unchanged. |
| Normalize.OutputReferencesResolve | src/Main.java:82-84 | Row `k` of authors.csv has id `k + 1`. Every row of book_authors.csv is an ISBN with a row in book.csv and an id with a row in authors.csv. |

## Left out

- SQLite `LIKE` wildcards. A `%` or `_` in the query is matched literally; the model uses plain case-insensitive substring search.
- Unicode case mapping. `lower()`/`toUpperCase()` are modelled on ASCII letters only.
- Floating point money, `ROUND(…, 2)` and `julianday`. Amounts are whole cents and dates are whole days. Since a fine is a whole number of quarters, rounding is exact.
- The source has no tie-break for `ORDER BY BL.Date_out`; the model orders equal dates by `Loan_id`.
- `GROUP BY B.Isbn`: SQLite does not promise an output order. The model lists rows in BOOK table order.
- The two overdue queries of `update_fines` have no `ORDER BY`. The model reads their rows in BOOK_LOANS order, which fixes the order in which new FINES rows are appended.
- `GROUP_CONCAT(A.Name, ', ')`: SQLite does not promise the order of the names it joins. The model joins them in BOOK_AUTHORS table order.
- Loan ids are modelled as position + 1 in BOOK_LOANS, which holds because the core never deletes a loan.
- Library.LibraryDB.CreateBorrower: requires every existing card id to be `ID` plus six digits. The `ValueError` fallback to number 1 for malformed ids (backend/library_db.py:47-51) is not modelled. Ids past `ID999999` are not modelled either.
- Printed messages become outcome values (`CheckoutOutcome`, `CheckinOutcome`). Python's `True`/`False`/`None` returns map to these outcomes and to `Option`.
- `checkin_book` runs its own copy of the check-in query, filtering on `BL.Isbn` where `find_loans_for_checkin` filters on `B.Isbn`. The join makes the two equal, so `CheckinBook` uses `FindLoansForCheckin`.
- Connection, cursor, `commit`, transactions and the foreign-key pragma are left out. The constructor takes tables that already satisfy the invariants.
- Java file I/O (`BufferedReader`, `BufferedWriter`, directories) is left out. Files are sequences of lines, and output files are their texts.
- Java `int` overflow of `nextAuthorId` is not modelled; ids are unbounded naturals.
- `quote` does not quote fields that hold CR or LF. Since `readLine` never returns a line break, such fields cannot occur, and the model does not treat this as a defect.
- `String.split` is modelled for a one-character literal separator only. That is all the source uses.

## Notes

- The Python source hands `find_loans_for_checkin` results to the check-in by position. The model makes this explicit: `CheckinBook` selects rows of exactly the list `FindLoansForCheckin` returns.
- A book line whose author field is empty still stores the book, with no links. `AuthorNames` yields no name for it.
