/**
 * `Main.normalize`: read the tab-separated books file and the
 * comma-separated borrowers file line by line, collect books, authors,
 * book-author links and borrowers in insertion-ordered maps and sets, and
 * write them out as four CSV files.
 *
 * A file is given as the sequence of its lines (what `readLine` returns, so
 * no line holds a line break), and each CSV file is returned as its text.
 */
module Normalize {
  import opened Wrappers
  import opened Text
  import opened Csv
  import opened LinkedMaps

  const Tab := '\t'
  /** Lines of the books file with fewer fields than this are skipped. */
  const MinBookFields := 4
  /** Lines of the borrowers file with fewer fields than this are skipped. */
  const MinBorrowerFields := 9
  const FirstAuthorId := 1

  const BookHeader := "Isbn,Title"
  const AuthorsHeader := "Author_id,Name"
  const BookAuthorsHeader := "Isbn,Author_id"
  const BorrowerHeader := "Card_id,Ssn,Bname,Address,Phone"

  /** The state `normalize` builds from the books file. */
  datatype Catalog = Catalog(
    books: seq<Entry<string>>,   // ISBN -> title
    authors: seq<Entry<nat>>,    // name -> author id
    bookAuthors: seq<string>,    // "isbn#id" keys
    nextAuthorId: nat)

  const EmptyCatalog := Catalog([], [], [], FirstAuthorId)

  // ---------------------------------------------------------------------------
  // Books file, one line at a time
  // ---------------------------------------------------------------------------

  /** A line that is read: not blank, and with at least four tab-separated fields. */
  predicate IsBookLine(line: string) {
    !JavaIsBlank(line) && |SplitAll(line, Tab)| >= MinBookFields
  }

  /** The first field, trimmed and upper-cased. */
  function LineIsbn(line: string): string
    requires IsBookLine(line)
  {
    Upper(JavaTrim(SplitAll(line, Tab)[0]))
  }

  /** The third field, trimmed. */
  function LineTitle(line: string): string
    requires IsBookLine(line)
  {
    JavaTrim(SplitAll(line, Tab)[2])
  }

  /** The fourth field split at commas (trailing empty names dropped). */
  function LineAuthorList(line: string): seq<string>
    requires IsBookLine(line)
  {
    JavaSplit(SplitAll(line, Tab)[3], Comma)
  }

  /** One name of a book's author list: an unseen name gets the next id, and the book is linked to it. */
  function AddAuthor(cat: Catalog, isbn: string, rawName: string): Catalog {
    var name := JavaTrim(rawName);
    if name == [] then cat
    else match Lookup(cat.authors, name)
      case Some(id) => cat.(bookAuthors := Add(cat.bookAuthors, PairKey(isbn, id)))
      case None =>
        Catalog(cat.books, cat.authors + [Entry(name, cat.nextAuthorId)],
                Add(cat.bookAuthors, PairKey(isbn, cat.nextAuthorId)), cat.nextAuthorId + 1)
  }

  /** The names of a book's author list, in order. */
  function AddAuthors(cat: Catalog, isbn: string, names: seq<string>): Catalog {
    if names == [] then cat
    else AddAuthor(AddAuthors(cat, isbn, names[..|names| - 1]), isbn, names[|names| - 1])
  }

  /** One line of the books file: the first title of an ISBN wins, then its authors are added. */
  function AddBookLine(cat: Catalog, line: string): Catalog {
    if !IsBookLine(line) then cat
    else
      var isbn := LineIsbn(line);
      AddAuthors(cat.(books := PutIfAbsent(cat.books, isbn, LineTitle(line))), isbn, LineAuthorList(line))
  }

  function AddBookLines(cat: Catalog, lines: seq<string>): Catalog {
    if lines == [] then cat
    else AddBookLine(AddBookLines(cat, lines[..|lines| - 1]), lines[|lines| - 1])
  }

  /** The catalog built from the books file; its first line is a header and is skipped. */
  function BookCatalog(lines: seq<string>): Catalog {
    if lines == [] then EmptyCatalog else AddBookLines(EmptyCatalog, lines[1..])
  }

  // ---------------------------------------------------------------------------
  // Reference definitions
  // ---------------------------------------------------------------------------

  /** The trimmed, non-empty names of an author list, in order. */
  function AuthorNames(names: seq<string>): seq<string> {
    if names == [] then []
    else
      var name := JavaTrim(names[|names| - 1]);
      AuthorNames(names[..|names| - 1]) + (if name == [] then [] else [name])
  }

  /** The ISBN and title of every line that is read, in file order. */
  function BookEntries(lines: seq<string>): seq<Entry<string>> {
    if lines == [] then []
    else
      var line := lines[|lines| - 1];
      BookEntries(lines[..|lines| - 1]) + (if IsBookLine(line) then [Entry(LineIsbn(line), LineTitle(line))] else [])
  }

  /** The author names of every line that is read, in file order. */
  function AuthorNamesOfLines(lines: seq<string>): seq<string> {
    if lines == [] then []
    else
      var line := lines[|lines| - 1];
      AuthorNamesOfLines(lines[..|lines| - 1]) + (if IsBookLine(line) then AuthorNames(LineAuthorList(line)) else [])
  }

  /** The lines that are read. */
  function BookLinesRead(lines: seq<string>): (r: seq<string>)
    ensures forall i | 0 <= i < |r| :: IsBookLine(r[i]) && r[i] in lines
  {
    if lines == [] then []
    else
      var line := lines[|lines| - 1];
      BookLinesRead(lines[..|lines| - 1]) + (if IsBookLine(line) then [line] else [])
  }

  /**
   * What a catalog built from nothing keeps true: author ids are 1, 2, 3, ...
   * in insertion order and the next id follows the last; names are distinct
   * and non-empty; ISBNs are distinct; every link is `isbn#id` for a stored
   * ISBN and an assigned id, and no link is stored twice.
   */
  predicate CatalogValid(cat: Catalog) {
    && KeysDistinct(cat.books)
    && KeysDistinct(cat.authors)
    && cat.nextAuthorId == |cat.authors| + 1
    && (forall i | 0 <= i < |cat.authors| :: cat.authors[i].value == i + 1 && cat.authors[i].key != [])
    && Distinct(cat.bookAuthors)
    && (forall k | 0 <= k < |cat.bookAuthors| :: LinkValid(cat, cat.bookAuthors[k]))
  }

  /** A link key is `isbn#id` for a stored ISBN and an assigned author id. */
  predicate LinkValid(cat: Catalog, key: string) {
    && WellFormedPairKey(key)
    && key == PairKey(PairIsbn(key), PairAuthorId(key))
    && PairIsbn(key) in Keys(cat.books)
    && 1 <= PairAuthorId(key) <= |cat.authors|
  }

  // ---------------------------------------------------------------------------
  // Lemmas about the books file
  // ---------------------------------------------------------------------------

  lemma {:induction false} AddAuthorsKeepsBooks(cat: Catalog, isbn: string, names: seq<string>)
    ensures AddAuthors(cat, isbn, names).books == cat.books
    decreases |names|
  {
    if names != [] {
      AddAuthorsKeepsBooks(cat, isbn, names[..|names| - 1]);
    }
  }

  /** The books table is the first title of each ISBN, put into an empty map line by line. */
  lemma {:induction false} AddBookLinesBooks(cat: Catalog, lines: seq<string>)
    ensures AddBookLines(cat, lines).books == PutAll(cat.books, BookEntries(lines))
    decreases |lines|
  {
    if lines != [] {
      var init, line := lines[..|lines| - 1], lines[|lines| - 1];
      AddBookLinesBooks(cat, init);
      var before := AddBookLines(cat, init);
      if IsBookLine(line) {
        AddAuthorsKeepsBooks(before.(books := PutIfAbsent(before.books, LineIsbn(line), LineTitle(line))),
                             LineIsbn(line), LineAuthorList(line));
        var es := BookEntries(init) + [Entry(LineIsbn(line), LineTitle(line))];
        assert es[..|es| - 1] == BookEntries(init);
      } else {
        assert BookEntries(lines) == BookEntries(init);
      }
    }
  }

  /**
   * First title wins: each ISBN of the book table maps to the title of the
   * first line read with that ISBN, and the ISBNs are in order of first
   * appearance.
   */
  lemma BooksFirstTitleWins(lines: seq<string>)
    requires lines != []
    ensures forall isbn :: Lookup(BookCatalog(lines).books, isbn) == Lookup(BookEntries(lines[1..]), isbn)
    ensures Keys(BookCatalog(lines).books) == FirstAppearances([], Keys(BookEntries(lines[1..])))
  {
    AddBookLinesBooks(EmptyCatalog, lines[1..]);
    PutAllFirstWins(BookEntries(lines[1..]));
  }

  /** Adding one name: the author names grow by its first appearance. */
  lemma AddAuthorNames(cat: Catalog, isbn: string, rawName: string)
    ensures var name := JavaTrim(rawName);
      Keys(AddAuthor(cat, isbn, rawName).authors)
        == if name == [] then Keys(cat.authors) else Add(Keys(cat.authors), name)
  {
    var name := JavaTrim(rawName);
    if name != [] {
      LookupFound(cat.authors, name);
      assert Keys(cat.authors + [Entry(name, cat.nextAuthorId)]) == Keys(cat.authors) + [name];
    }
  }

  lemma {:induction false} AddAuthorsNames(cat: Catalog, isbn: string, names: seq<string>)
    ensures Keys(AddAuthors(cat, isbn, names).authors) == FirstAppearances(Keys(cat.authors), AuthorNames(names))
    decreases |names|
  {
    if names != [] {
      var init, last := names[..|names| - 1], names[|names| - 1];
      AddAuthorsNames(cat, isbn, init);
      AddAuthorNames(AddAuthors(cat, isbn, init), isbn, last);
      var name := JavaTrim(last);
      if name != [] {
        var ns := AuthorNames(init) + [name];
        assert ns[..|ns| - 1] == AuthorNames(init);
      } else {
        assert AuthorNames(names) == AuthorNames(init);
      }
    }
  }

  lemma {:induction false} AddBookLinesNames(cat: Catalog, lines: seq<string>)
    ensures Keys(AddBookLines(cat, lines).authors) == FirstAppearances(Keys(cat.authors), AuthorNamesOfLines(lines))
    decreases |lines|
  {
    if lines != [] {
      var init, line := lines[..|lines| - 1], lines[|lines| - 1];
      AddBookLinesNames(cat, init);
      var before := AddBookLines(cat, init);
      if IsBookLine(line) {
        var isbn := LineIsbn(line);
        AddAuthorsNames(before.(books := PutIfAbsent(before.books, isbn, LineTitle(line))), isbn, LineAuthorList(line));
        FirstAppearancesAppend(Keys(cat.authors), AuthorNamesOfLines(init), AuthorNames(LineAuthorList(line)));
      } else {
        assert AuthorNamesOfLines(lines) == AuthorNamesOfLines(init);
      }
    }
  }

  /**
   * Author ids follow the order of first appearance: the authors table holds
   * each distinct non-empty name of the lines read, in the order each is first
   * met, and (with `BookCatalogValid`) the author at position `i` has id `i + 1`.
   */
  lemma AuthorsInFirstAppearanceOrder(lines: seq<string>)
    requires lines != []
    ensures Keys(BookCatalog(lines).authors) == FirstAppearances([], AuthorNamesOfLines(lines[1..]))
  {
    AddBookLinesNames(EmptyCatalog, lines[1..]);
  }

  /** Linking a stored ISBN to an assigned id keeps every link valid. */
  lemma AddLinkValid(cat: Catalog, r: Catalog, isbn: string, id: nat)
    requires forall k | 0 <= k < |cat.bookAuthors| :: LinkValid(cat, cat.bookAuthors[k])
    requires r.books == cat.books && |cat.authors| <= |r.authors|
    requires isbn in Keys(r.books) && 1 <= id <= |r.authors|
    requires r.bookAuthors == Add(cat.bookAuthors, PairKey(isbn, id))
    ensures forall k | 0 <= k < |r.bookAuthors| :: LinkValid(r, r.bookAuthors[k])
  {
    PairKeySplits(isbn, id);
    forall k | 0 <= k < |r.bookAuthors| ensures LinkValid(r, r.bookAuthors[k]) {
      if k < |cat.bookAuthors| {
        assert r.bookAuthors[k] == cat.bookAuthors[k];
        assert LinkValid(cat, cat.bookAuthors[k]);
      } else {
        assert r.bookAuthors[k] == PairKey(isbn, id);
      }
    }
  }

  lemma AddAuthorValid(cat: Catalog, isbn: string, rawName: string)
    requires CatalogValid(cat)
    requires isbn in Keys(cat.books)
    ensures CatalogValid(AddAuthor(cat, isbn, rawName))
  {
    var name := JavaTrim(rawName);
    if name != [] {
      var r := AddAuthor(cat, isbn, rawName);
      LookupFound(cat.authors, name);
      if Lookup(cat.authors, name).Some? {
        var id := Lookup(cat.authors, name).value;
        var i :| 0 <= i < |cat.authors| && cat.authors[i] == Entry(name, id);
        assert r == cat.(bookAuthors := Add(cat.bookAuthors, PairKey(isbn, id)));
        AddKeepsDistinct(cat.bookAuthors, PairKey(isbn, id));
        AddLinkValid(cat, r, isbn, id);
      } else {
        var id := cat.nextAuthorId;
        assert r == Catalog(cat.books, cat.authors + [Entry(name, id)], Add(cat.bookAuthors, PairKey(isbn, id)), id + 1);
        assert Keys(r.authors) == Keys(cat.authors) + [name];
        AddLinkValid(cat, r, isbn, id);
      }
    }
  }

  lemma {:induction false} AddAuthorsValid(cat: Catalog, isbn: string, names: seq<string>)
    requires CatalogValid(cat)
    requires isbn in Keys(cat.books)
    ensures CatalogValid(AddAuthors(cat, isbn, names))
    decreases |names|
  {
    if names != [] {
      var init := names[..|names| - 1];
      AddAuthorsValid(cat, isbn, init);
      AddAuthorsKeepsBooks(cat, isbn, init);
      AddAuthorValid(AddAuthors(cat, isbn, init), isbn, names[|names| - 1]);
    }
  }

  lemma AddBookLineValid(cat: Catalog, line: string)
    requires CatalogValid(cat)
    ensures CatalogValid(AddBookLine(cat, line))
  {
    if IsBookLine(line) {
      var isbn := LineIsbn(line);
      var withBook := cat.(books := PutIfAbsent(cat.books, isbn, LineTitle(line)));
      PutIfAbsentKeepsDistinct(cat.books, isbn, LineTitle(line));
      LookupFound(cat.books, isbn);
      assert Keys(cat.books) <= Keys(withBook.books);
      assert isbn in Keys(withBook.books) by {
        if Lookup(cat.books, isbn).None? {
          assert Keys(withBook.books)[|cat.books|] == isbn;
        }
      }
      assert CatalogValid(withBook) by {
        forall k | 0 <= k < |withBook.bookAuthors| ensures LinkValid(withBook, withBook.bookAuthors[k]) {
          var key := cat.bookAuthors[k];
          assert LinkValid(cat, key);
          var i :| 0 <= i < |cat.books| && Keys(cat.books)[i] == PairIsbn(key);
          assert Keys(withBook.books)[i] == PairIsbn(key);
        }
      }
      AddAuthorsValid(withBook, isbn, LineAuthorList(line));
    }
  }

  lemma {:induction false} AddBookLinesValid(cat: Catalog, lines: seq<string>)
    requires CatalogValid(cat)
    ensures CatalogValid(AddBookLines(cat, lines))
    decreases |lines|
  {
    if lines != [] {
      AddBookLinesValid(cat, lines[..|lines| - 1]);
      AddBookLineValid(AddBookLines(cat, lines[..|lines| - 1]), lines[|lines| - 1]);
    }
  }

  /** Every catalog `normalize` builds satisfies `CatalogValid`. */
  lemma BookCatalogValid(lines: seq<string>)
    ensures CatalogValid(BookCatalog(lines))
  {
    if lines != [] {
      AddBookLinesValid(EmptyCatalog, lines[1..]);
    }
  }

  /** The book is linked to the id the author has. */
  predicate Linked(cat: Catalog, isbn: string, name: string) {
    Lookup(cat.authors, name).Some? && PairKey(isbn, Lookup(cat.authors, name).value) in cat.bookAuthors
  }

  /** Later steps only append authors and links: ids once given and links once made stay. */
  predicate Grows(cat: Catalog, r: Catalog) {
    cat.authors <= r.authors && forall key | key in cat.bookAuthors :: key in r.bookAuthors
  }

  lemma GrowsKeepsLinks(cat: Catalog, r: Catalog, isbn: string, name: string)
    requires Grows(cat, r) && Linked(cat, isbn, name)
    ensures Linked(r, isbn, name)
  {
    assert r.authors == cat.authors + r.authors[|cat.authors|..];
    LookupExtend(cat.authors, r.authors[|cat.authors|..], name);
  }

  lemma GrowsTransitive(a: Catalog, b: Catalog, c: Catalog)
    requires Grows(a, b) && Grows(b, c)
    ensures Grows(a, c)
  {
  }

  lemma {:induction false} AddAuthorsGrows(cat: Catalog, isbn: string, names: seq<string>)
    ensures Grows(cat, AddAuthors(cat, isbn, names))
    decreases |names|
  {
    if names != [] {
      var init := names[..|names| - 1];
      AddAuthorsGrows(cat, isbn, init);
      var mid := AddAuthors(cat, isbn, init);
      GrowsTransitive(cat, mid, AddAuthor(mid, isbn, names[|names| - 1]));
    }
  }

  lemma {:induction false} AddBookLinesGrows(cat: Catalog, lines: seq<string>)
    ensures Grows(cat, AddBookLines(cat, lines))
    decreases |lines|
  {
    if lines != [] {
      var init, line := lines[..|lines| - 1], lines[|lines| - 1];
      AddBookLinesGrows(cat, init);
      var mid := AddBookLines(cat, init);
      if IsBookLine(line) {
        var isbn := LineIsbn(line);
        var withBook := mid.(books := PutIfAbsent(mid.books, isbn, LineTitle(line)));
        AddAuthorsGrows(withBook, isbn, LineAuthorList(line));
        GrowsTransitive(cat, withBook, AddBookLine(mid, line));
      }
    }
  }

  /** Adding the names of an author list links the book to every one of them. */
  lemma {:induction false} AddAuthorsLinks(cat: Catalog, isbn: string, names: seq<string>)
    ensures forall name | name in AuthorNames(names) :: Linked(AddAuthors(cat, isbn, names), isbn, name)
    decreases |names|
  {
    if names != [] {
      var init, last := names[..|names| - 1], names[|names| - 1];
      AddAuthorsLinks(cat, isbn, init);
      var mid := AddAuthors(cat, isbn, init);
      var r := AddAuthor(mid, isbn, last);
      assert Grows(mid, r);
      forall name | name in AuthorNames(names) ensures Linked(r, isbn, name) {
        if name in AuthorNames(init) {
          GrowsKeepsLinks(mid, r, isbn, name);
        } else {
          assert name == JavaTrim(last);
          LookupFound(mid.authors, name);
          if Lookup(mid.authors, name).None? {
            LookupAppend(mid.authors, Entry(name, mid.nextAuthorId), name);
          }
        }
      }
    }
  }

  /**
   * Every author named on a line that is read is linked to that line's book:
   * the author has an id and `isbn#id` is in the book-author set.
   */
  lemma {:induction false} AddBookLinesLinks(cat: Catalog, lines: seq<string>)
    ensures forall j, name | 0 <= j < |lines| && IsBookLine(lines[j]) && name in AuthorNames(LineAuthorList(lines[j])) ::
      Linked(AddBookLines(cat, lines), LineIsbn(lines[j]), name)
    decreases |lines|
  {
    if lines != [] {
      var init, line := lines[..|lines| - 1], lines[|lines| - 1];
      AddBookLinesLinks(cat, init);
      var mid := AddBookLines(cat, init);
      var r := AddBookLine(mid, line);
      AddBookLinesGrows(mid, [line]);
      assert [line][..0] == [];
      assert AddBookLines(mid, [line]) == r;
      forall j, name | 0 <= j < |lines| && IsBookLine(lines[j]) && name in AuthorNames(LineAuthorList(lines[j]))
        ensures Linked(r, LineIsbn(lines[j]), name)
      {
        if j < |init| {
          assert lines[j] == init[j];
          GrowsKeepsLinks(mid, r, LineIsbn(lines[j]), name);
        } else {
          var isbn := LineIsbn(line);
          AddAuthorsLinks(mid.(books := PutIfAbsent(mid.books, isbn, LineTitle(line))), isbn, LineAuthorList(line));
        }
      }
    }
  }

  /** `BookCatalog` links the book of every line read to every author that line names. */
  lemma BookCatalogLinksEveryAuthor(lines: seq<string>, j: nat, name: string)
    requires 1 <= j < |lines| && IsBookLine(lines[j])
    requires name in AuthorNames(LineAuthorList(lines[j]))
    ensures Linked(BookCatalog(lines), LineIsbn(lines[j]), name)
  {
    AddBookLinesLinks(EmptyCatalog, lines[1..]);
    assert lines[1..][j - 1] == lines[j];
  }

  /** The link key of `name` for `isbn`, once the name has an author id. */
  function LinkOf(cat: Catalog, isbn: string, name: string): Option<string> {
    match Lookup(cat.authors, name)
    case Some(id) => Some(PairKey(isbn, id))
    case None => None
  }

  /** Some trimmed, non-empty name of the author list links `isbn` under `key`. */
  predicate LinkFromNames(cat: Catalog, isbn: string, names: seq<string>, key: string) {
    exists name | name in AuthorNames(names) :: LinkOf(cat, isbn, name) == Some(key)
  }

  /** Some line that is read links its own ISBN under `key` to one of the authors it names. */
  predicate LinkFromLines(cat: Catalog, lines: seq<string>, key: string) {
    exists j | 0 <= j < |lines| && IsBookLine(lines[j]) ::
      LinkFromNames(cat, LineIsbn(lines[j]), LineAuthorList(lines[j]), key)
  }

  /** A name's link key is kept as authors are appended. */
  lemma LinkOfGrows(cat: Catalog, r: Catalog, isbn: string, name: string)
    requires cat.authors <= r.authors && LinkOf(cat, isbn, name).Some?
    ensures LinkOf(r, isbn, name) == LinkOf(cat, isbn, name)
  {
    assert r.authors == cat.authors + r.authors[|cat.authors|..];
    LookupExtend(cat.authors, r.authors[|cat.authors|..], name);
  }

  /** Every link an author list adds joins the book to one of the names on that list. */
  lemma {:induction false} AddAuthorsLinkSources(cat: Catalog, isbn: string, names: seq<string>)
    ensures forall key | key in AddAuthors(cat, isbn, names).bookAuthors ::
      key in cat.bookAuthors || LinkFromNames(AddAuthors(cat, isbn, names), isbn, names, key)
    decreases |names|
  {
    if names != [] {
      var init, last := names[..|names| - 1], names[|names| - 1];
      AddAuthorsLinkSources(cat, isbn, init);
      var mid := AddAuthors(cat, isbn, init);
      var r := AddAuthor(mid, isbn, last);
      assert Grows(mid, r);
      assert AuthorNames(names) == AuthorNames(init) + (if JavaTrim(last) == [] then [] else [JavaTrim(last)]);
      forall key | key in r.bookAuthors ensures key in cat.bookAuthors || LinkFromNames(r, isbn, names, key) {
        if key in mid.bookAuthors {
          if key !in cat.bookAuthors {
            var name :| name in AuthorNames(init) && LinkOf(mid, isbn, name) == Some(key);
            LinkOfGrows(mid, r, isbn, name);
            assert name in AuthorNames(names);
          }
        } else {
          var name := JavaTrim(last);
          assert name in AuthorNames(names);
          if Lookup(mid.authors, name).None? {
            LookupAppend(mid.authors, Entry(name, mid.nextAuthorId), name);
          }
          assert LinkOf(r, isbn, name) == Some(key);
        }
      }
    }
  }

  /** Every link the lines add joins a line's own ISBN to an author that line names. */
  lemma {:induction false} AddBookLinesLinkSources(cat: Catalog, lines: seq<string>)
    ensures forall key | key in AddBookLines(cat, lines).bookAuthors ::
      key in cat.bookAuthors || LinkFromLines(AddBookLines(cat, lines), lines, key)
    decreases |lines|
  {
    if lines != [] {
      var init, line := lines[..|lines| - 1], lines[|lines| - 1];
      AddBookLinesLinkSources(cat, init);
      var mid := AddBookLines(cat, init);
      var r := AddBookLine(mid, line);
      AddBookLinesGrows(mid, [line]);
      assert [line][..0] == [];
      assert AddBookLines(mid, [line]) == r;
      forall key | key in r.bookAuthors ensures key in cat.bookAuthors || LinkFromLines(r, lines, key) {
        if key in mid.bookAuthors {
          if key !in cat.bookAuthors {
            var j :| 0 <= j < |init| && IsBookLine(init[j])
              && LinkFromNames(mid, LineIsbn(init[j]), LineAuthorList(init[j]), key);
            var name :| name in AuthorNames(LineAuthorList(init[j])) && LinkOf(mid, LineIsbn(init[j]), name) == Some(key);
            LinkOfGrows(mid, r, LineIsbn(init[j]), name);
            assert lines[j] == init[j];
            assert LinkFromNames(r, LineIsbn(lines[j]), LineAuthorList(lines[j]), key);
          }
        } else {
          var isbn := LineIsbn(line);
          AddAuthorsLinkSources(mid.(books := PutIfAbsent(mid.books, isbn, LineTitle(line))), isbn, LineAuthorList(line));
          assert lines[|init|] == line;
          assert LinkFromNames(r, LineIsbn(lines[|init|]), LineAuthorList(lines[|init|]), key);
        }
      }
    }
  }

  /**
   * Conversely, every link of `BookCatalog` comes from a line that is read:
   * it is that line's ISBN joined to the id of an author the line names.
   */
  lemma BookCatalogLinksOnlyNamedAuthors(lines: seq<string>, key: string)
    requires key in BookCatalog(lines).bookAuthors
    ensures exists j | 1 <= j < |lines| && IsBookLine(lines[j]) ::
      exists name | name in AuthorNames(LineAuthorList(lines[j])) ::
        && Lookup(BookCatalog(lines).authors, name).Some?
        && key == PairKey(LineIsbn(lines[j]), Lookup(BookCatalog(lines).authors, name).value)
  {
    var cat := BookCatalog(lines);
    AddBookLinesLinkSources(EmptyCatalog, lines[1..]);
    var j :| 0 <= j < |lines[1..]| && IsBookLine(lines[1..][j])
      && LinkFromNames(cat, LineIsbn(lines[1..][j]), LineAuthorList(lines[1..][j]), key);
    assert lines[1..][j] == lines[j + 1];
    var name :| name in AuthorNames(LineAuthorList(lines[j + 1])) && LinkOf(cat, LineIsbn(lines[j + 1]), name) == Some(key);
  }

  /** Blank lines and lines with too few fields change nothing: only the lines read matter. */
  lemma {:induction false} OnlyLinesReadMatter(cat: Catalog, lines: seq<string>)
    ensures AddBookLines(cat, lines) == AddBookLines(cat, BookLinesRead(lines))
    decreases |lines|
  {
    if lines != [] {
      var init, line := lines[..|lines| - 1], lines[|lines| - 1];
      OnlyLinesReadMatter(cat, init);
      var read := BookLinesRead(init);
      if IsBookLine(line) {
        var r := read + [line];
        assert r[..|r| - 1] == read;
        assert BookLinesRead(lines) == r;
        calc {
          AddBookLines(cat, r);
          AddBookLine(AddBookLines(cat, read), line);
          AddBookLine(AddBookLines(cat, init), line);
        }
      } else {
        assert BookLinesRead(lines) == read;
        assert AddBookLine(AddBookLines(cat, init), line) == AddBookLines(cat, init);
      }
    }
  }

  // ---------------------------------------------------------------------------
  // Borrowers file
  // ---------------------------------------------------------------------------

  /** A borrower as `normalize` keeps it. */
  datatype BorrowerRecord = BorrowerRecord(id: string, ssn: string, name: string, address: string, phone: string)

  /** A line that is read: not blank, and with at least nine comma-separated fields. */
  predicate IsBorrowerLine(line: string) {
    !JavaIsBlank(line) && |SplitAll(line, Comma)| >= MinBorrowerFields
  }

  /**
   * The record of a line: the card id, the SSN, first and last name joined
   * by a space, street, city and state joined by ", ", and the phone, each
   * field trimmed; the fifth field (the e-mail) is not kept.
   */
  function LineBorrower(line: string): BorrowerRecord
    requires IsBorrowerLine(line)
  {
    var c := SplitAll(line, Comma);
    BorrowerRecord(JavaTrim(c[0]), JavaTrim(c[1]), JavaTrim(c[2]) + " " + JavaTrim(c[3]),
                   JavaTrim(c[5]) + ", " + JavaTrim(c[6]) + ", " + JavaTrim(c[7]), JavaTrim(c[8]))
  }

  /** One line of the borrowers file: the first record of a card id wins. */
  function AddBorrowerLine(m: seq<Entry<BorrowerRecord>>, line: string): seq<Entry<BorrowerRecord>> {
    if !IsBorrowerLine(line) then m
    else
      var b := LineBorrower(line);
      PutIfAbsent(m, b.id, b)
  }

  function AddBorrowerLines(m: seq<Entry<BorrowerRecord>>, lines: seq<string>): seq<Entry<BorrowerRecord>> {
    if lines == [] then m
    else AddBorrowerLine(AddBorrowerLines(m, lines[..|lines| - 1]), lines[|lines| - 1])
  }

  /** The borrower table built from the borrowers file; its first line is a header and is skipped. */
  function BorrowerTable(lines: seq<string>): seq<Entry<BorrowerRecord>> {
    if lines == [] then [] else AddBorrowerLines([], lines[1..])
  }

  /** The record of every line that is read, keyed by its card id, in file order. */
  function BorrowerEntries(lines: seq<string>): seq<Entry<BorrowerRecord>> {
    if lines == [] then []
    else
      var line := lines[|lines| - 1];
      BorrowerEntries(lines[..|lines| - 1])
        + (if IsBorrowerLine(line) then [Entry(LineBorrower(line).id, LineBorrower(line))] else [])
  }

  lemma {:induction false} AddBorrowerLinesPutAll(m: seq<Entry<BorrowerRecord>>, lines: seq<string>)
    ensures AddBorrowerLines(m, lines) == PutAll(m, BorrowerEntries(lines))
    decreases |lines|
  {
    if lines != [] {
      var init, line := lines[..|lines| - 1], lines[|lines| - 1];
      AddBorrowerLinesPutAll(m, init);
      if IsBorrowerLine(line) {
        var es := BorrowerEntries(init) + [Entry(LineBorrower(line).id, LineBorrower(line))];
        assert es[..|es| - 1] == BorrowerEntries(init);
      } else {
        assert BorrowerEntries(lines) == BorrowerEntries(init);
      }
    }
  }

  /**
   * First record wins: each card id maps to the record of the first line read
   * with that id, the card ids are distinct and in order of first appearance,
   * and each entry's key is its record's card id.
   */
  lemma BorrowersFirstRecordWins(lines: seq<string>)
    requires lines != []
    ensures forall id :: Lookup(BorrowerTable(lines), id) == Lookup(BorrowerEntries(lines[1..]), id)
    ensures Keys(BorrowerTable(lines)) == FirstAppearances([], Keys(BorrowerEntries(lines[1..])))
    ensures Distinct(Keys(BorrowerTable(lines)))
    ensures forall k | 0 <= k < |BorrowerTable(lines)| :: BorrowerTable(lines)[k].key == BorrowerTable(lines)[k].value.id
  {
    AddBorrowerLinesPutAll([], lines[1..]);
    PutAllFirstWins(BorrowerEntries(lines[1..]));
    FirstAppearancesSpec([], Keys(BorrowerEntries(lines[1..])));
    var t := BorrowerTable(lines);
    forall k | 0 <= k < |t| ensures t[k].key == t[k].value.id {
      BorrowerEntryKeys(lines[1..]);
      LookupFound(t, t[k].key);
      PutAllEntriesFrom([], BorrowerEntries(lines[1..]));
      assert t[k] in BorrowerEntries(lines[1..]);
    }
  }

  lemma {:induction false} BorrowerEntryKeys(lines: seq<string>)
    ensures forall e | e in BorrowerEntries(lines) :: e.key == e.value.id
    decreases |lines|
  {
    if lines != [] {
      BorrowerEntryKeys(lines[..|lines| - 1]);
    }
  }

  /**
   * The address holds exactly the three trimmed address fields, split at its
   * two commas; card id, SSN and phone hold no comma.
   */
  lemma LineBorrowerFields(line: string)
    requires IsBorrowerLine(line)
    ensures var c := SplitAll(line, Comma); var b := LineBorrower(line);
      && Comma !in b.id && Comma !in b.ssn && Comma !in b.phone
      && SplitAll(b.address, Comma) == [JavaTrim(c[5]), " " + JavaTrim(c[6]), " " + JavaTrim(c[7])]
  {
    var c := SplitAll(line, Comma);
    SplitAllFields(line, Comma);
    forall i | 0 <= i < |c| ensures Comma !in JavaTrim(c[i]) {
      StripKeepsOut(c[i], JavaTrimmable, Comma);
    }
    var street, city, state := JavaTrim(c[5]), JavaTrim(c[6]), JavaTrim(c[7]);
    var parts := [street, " " + city, " " + state];
    JoinThree(street, " " + city, " " + state, [Comma]);
    assert street + ", " + city + ", " + state == street + [Comma] + (" " + city) + [Comma] + (" " + state);
    SplitAllJoin(parts, Comma);
  }

  // ---------------------------------------------------------------------------
  // normalize
  // ---------------------------------------------------------------------------

  /** The loop over the books file: skip the header, then read each line. */
  method ReadBooks(lines: seq<string>) returns (books: seq<Entry<string>>, authors: seq<Entry<nat>>, bookAuthors: seq<string>)
    ensures books == BookCatalog(lines).books
    ensures authors == BookCatalog(lines).authors
    ensures bookAuthors == BookCatalog(lines).bookAuthors
  {
    books, authors, bookAuthors := [], [], [];
    var nextAuthorId: nat := FirstAuthorId;
    if lines == [] {
      return;
    }
    var k := 1;
    while k < |lines|
      invariant 1 <= k <= |lines|
      invariant Catalog(books, authors, bookAuthors, nextAuthorId) == AddBookLines(EmptyCatalog, lines[1..k])
    {
      var line := lines[k];
      k := k + 1;
      assert lines[1..k][..k - 2] == lines[1..k - 1];
      if JavaIsBlank(line) {
        continue;
      }
      var c := SplitAll(line, Tab);
      if |c| < MinBookFields {
        continue;
      }
      var isbn := Upper(JavaTrim(c[0]));
      var title := JavaTrim(c[2]);
      books := PutIfAbsent(books, isbn, title);
      var names := JavaSplit(c[3], Comma);
      ghost var start := Catalog(books, authors, bookAuthors, nextAuthorId);
      var j := 0;
      while j < |names|
        invariant 0 <= j <= |names|
        invariant Catalog(books, authors, bookAuthors, nextAuthorId) == AddAuthors(start, isbn, names[..j])
      {
        var name := JavaTrim(names[j]);
        j := j + 1;
        assert names[..j][..j - 1] == names[..j - 1];
        if name == [] {
          continue;
        }
        var id: nat;
        match Lookup(authors, name) {
          case Some(v) =>
            id := v;
          case None =>
            id := nextAuthorId;
            authors := authors + [Entry(name, id)];
            nextAuthorId := nextAuthorId + 1;
        }
        bookAuthors := Add(bookAuthors, PairKey(isbn, id));
      }
      assert names[..j] == names;
    }
    assert lines[1..k] == lines[1..];
  }

  /** The loop over the borrowers file: skip the header, then read each line. */
  method ReadBorrowers(lines: seq<string>) returns (borrowers: seq<Entry<BorrowerRecord>>)
    ensures borrowers == BorrowerTable(lines)
  {
    borrowers := [];
    if lines == [] {
      return;
    }
    var k := 1;
    while k < |lines|
      invariant 1 <= k <= |lines|
      invariant borrowers == AddBorrowerLines([], lines[1..k])
    {
      var line := lines[k];
      k := k + 1;
      assert lines[1..k][..k - 2] == lines[1..k - 1];
      if JavaIsBlank(line) {
        continue;
      }
      var c := SplitAll(line, Comma);
      if |c| < MinBorrowerFields {
        continue;
      }
      var id := JavaTrim(c[0]);
      var ssn := JavaTrim(c[1]);
      var name := JavaTrim(c[2]) + " " + JavaTrim(c[3]);
      var address := JavaTrim(c[5]) + ", " + JavaTrim(c[6]) + ", " + JavaTrim(c[7]);
      var phone := JavaTrim(c[8]);
      borrowers := PutIfAbsent(borrowers, id, BorrowerRecord(id, ssn, name, address, phone));
    }
    assert lines[1..k] == lines[1..];
  }

  /** A row of book.csv: the ISBN, then the quoted title. */
  function BookRow(e: Entry<string>): string {
    e.key + [Comma] + Quote(e.value)
  }

  /** A row of authors.csv: the decimal id, then the quoted name. */
  function AuthorRow(e: Entry<nat>): string {
    NatToDigits(e.value) + [Comma] + Quote(e.key)
  }

  /** A row of borrower.csv: card id and SSN as they are, name, address and phone quoted. */
  function BorrowerRow(b: BorrowerRecord): string {
    Join([b.id, b.ssn, Quote(b.name), Quote(b.address), Quote(b.phone)], [Comma])
  }

  /** The texts of book.csv, authors.csv, book_authors.csv and borrower.csv. */
  datatype OutputFiles = OutputFiles(book: string, authors: string, bookAuthors: string, borrower: string)

  function BookRows(bookLines: seq<string>): seq<string> {
    Rows(BookCatalog(bookLines).books, BookRow)
  }

  function AuthorRows(bookLines: seq<string>): seq<string> {
    Rows(BookCatalog(bookLines).authors, AuthorRow)
  }

  function BookAuthorRows(bookLines: seq<string>): seq<string> {
    BookCatalogValid(bookLines);
    Rows(BookCatalog(bookLines).bookAuthors, PairRow)
  }

  function BorrowerRows(borrowerLines: seq<string>): seq<string> {
    Rows(Values(BorrowerTable(borrowerLines)), BorrowerRow)
  }

  /** What `normalize` writes for the given books and borrowers files. */
  function NormalizedFiles(bookLines: seq<string>, borrowerLines: seq<string>): OutputFiles {
    OutputFiles(
      CsvText(BookHeader, BookRows(bookLines)),
      CsvText(AuthorsHeader, AuthorRows(bookLines)),
      CsvText(BookAuthorsHeader, BookAuthorRows(bookLines)),
      CsvText(BorrowerHeader, BorrowerRows(borrowerLines)))
  }

  /**
   * The written tables refer to each other correctly: the author at row `k`
   * of authors.csv has id `k + 1`, and every row of book_authors.csv is an
   * ISBN that has a row in book.csv, a comma and an id that has a row in
   * authors.csv.
   */
  lemma OutputReferencesResolve(bookLines: seq<string>)
    ensures var cat := BookCatalog(bookLines);
      && |AuthorRows(bookLines)| == |cat.authors|
      && (forall k | 0 <= k < |cat.authors| ::
            AuthorRows(bookLines)[k] == NatToDigits(k + 1) + [Comma] + Quote(cat.authors[k].key))
      && CatalogValid(cat)
      && |BookAuthorRows(bookLines)| == |cat.bookAuthors|
      && forall k | 0 <= k < |cat.bookAuthors| ::
           var isbn, id := PairIsbn(cat.bookAuthors[k]), PairAuthorId(cat.bookAuthors[k]);
           && BookAuthorRows(bookLines)[k] == isbn + [Comma] + NatToDigits(id)
           && isbn in Keys(cat.books)
           && 1 <= id <= |cat.authors| && AuthorRows(bookLines)[id - 1] == NatToDigits(id) + [Comma] + Quote(cat.authors[id - 1].key)
  {
    var cat := BookCatalog(bookLines);
    BookCatalogValid(bookLines);
    forall k | 0 <= k < |cat.bookAuthors|
      ensures BookAuthorRows(bookLines)[k] == PairIsbn(cat.bookAuthors[k]) + [Comma] + NatToDigits(PairAuthorId(cat.bookAuthors[k]))
    {
      var key := cat.bookAuthors[k];
      assert LinkValid(cat, key);
      PairKeySplits(PairIsbn(key), PairAuthorId(key));
    }
  }

  /**
   * The address is always written as an RFC 4180 escaped field, since it
   * always holds commas, and reading that field gives the address back.
   */
  lemma AddressAlwaysQuoted(line: string)
    requires IsBorrowerLine(line)
    ensures var address := LineBorrower(line).address;
      Quote(address) != address && EscapedField(Quote(address)) && Unquote(Quote(address)) == address
  {
    var address := LineBorrower(line).address;
    LineBorrowerFields(line);
    var c := SplitAll(line, Comma);
    var street := JavaTrim(c[5]);
    assert address[|street|] == Comma;
    QuoteIsRfc4180Field(address);
    UnquoteQuote(address);
  }

  /** `normalize(booksFile, borrowersFile, outDir)`, on the files' lines and returning the four texts. */
  method Normalize(bookLines: seq<string>, borrowerLines: seq<string>) returns (files: OutputFiles)
    ensures files == NormalizedFiles(bookLines, borrowerLines)
  {
    var books, authors, bookAuthors := ReadBooks(bookLines);
    var borrowers := ReadBorrowers(borrowerLines);
    BookCatalogValid(bookLines);
    assert forall k | 0 <= k < |bookAuthors| :: LinkValid(BookCatalog(bookLines), bookAuthors[k]);
    var book := WriteCsv(BookHeader, books, BookRow);
    var authorsText := WriteCsv(AuthorsHeader, authors, AuthorRow);
    var bookAuthorsText := WriteCsv(BookAuthorsHeader, bookAuthors, PairRow);
    var borrower := WriteCsv(BorrowerHeader, Values(borrowers), BorrowerRow);
    files := OutputFiles(book, authorsText, bookAuthorsText, borrower);
  }
}
