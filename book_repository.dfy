/** The `books` table operations (`MySQLBookRepository`): insert, delete,
    lookups by id and by QR code, substring search ordered by name, a paged
    listing, and a partial update. Every row read back goes through the
    `Book` constructor. */
module BookRepository {
  import opened Common
  import opened Schema
  import opened Books

  // ---------------------------------------------------------------------
  // Reading rows back as books
  // ---------------------------------------------------------------------

  /** `mapRowToBook`: the row's columns fed to `new Book`; a NULL edition or
      genre becomes "". */
  function BookOf(row: BookRow): (b: Book)
    ensures b.Id == Some(row.id)
    ensures b.Name == row.name && b.AuthorName == row.authorName
    ensures b.Edition == row.edition.GetOr("") && b.Genre == row.genre.GetOr("")
    ensures b.TotalCopies == row.totalCopies && b.AvailableCopies == row.availableCopies
  {
    NewBook(BookData(Some(row.id), Some(row.name), Some(row.authorName), row.edition, row.genre,
                     Some(row.totalCopies), Some(row.availableCopies)))
  }

  /** `rows.map(mapRowToBook)`. */
  function ToBooks(rows: seq<BookRow>): (r: seq<Book>)
    ensures |r| == |rows|
    ensures forall i :: 0 <= i < |rows| ==> r[i] == BookOf(rows[i])
  {
    seq(|rows|, i requires 0 <= i < |rows| => BookOf(rows[i]))
  }

  /** `SELECT * FROM books WHERE id = ?`, first row, as a book. */
  function BookWithId(books: seq<BookRow>, id: string): (r: Option<Book>)
    ensures r.None? <==> forall i :: 0 <= i < |books| ==> books[i].id != id
    ensures r.Some? ==> exists row :: row in books && row.id == id && r.value == BookOf(row)
  {
    var found := FindBook(books, id);
    if found.Some? then Some(BookOf(found.value)) else None
  }

  /** `SELECT * FROM books WHERE qrCode = ?`, first row in table order. */
  function BookWithQRCode(books: seq<BookRow>, qrCode: string): (r: Option<Book>)
    ensures r.None? <==> forall i :: 0 <= i < |books| ==> books[i].qrCode != Some(qrCode)
    ensures r.Some? ==> exists i ::
      && 0 <= i < |books| && books[i].qrCode == Some(qrCode)
      && r.value == BookOf(books[i])
      && forall j :: 0 <= j < i ==> books[j].qrCode != Some(qrCode)
    decreases |books|
  {
    if books == [] then None
    else if books[0].qrCode == Some(qrCode) then Some(BookOf(books[0]))
    else
      var rest := BookWithQRCode(books[1..], qrCode);
      assert forall i :: 1 <= i < |books| ==> books[i] == books[1..][i - 1];
      rest
  }

  // ---------------------------------------------------------------------
  // Substring search ordered by name
  // ---------------------------------------------------------------------

  /** `name LIKE '%q%' OR authorName LIKE '%q%' OR genre LIKE '%q%'`; a NULL
      genre matches nothing. */
  predicate Matches(row: BookRow, q: string) {
    Contains(row.name, q) || Contains(row.authorName, q) || (row.genre.Some? && Contains(row.genre.value, q))
  }

  /** The rows the search condition selects, in table order. */
  function Matching(books: seq<BookRow>, q: string): (r: seq<BookRow>)
    ensures |r| <= |books|
    ensures forall row :: row in r <==> row in books && Matches(row, q)
  {
    Filter(books, (row: BookRow) => Matches(row, q))
  }

  /** `ORDER BY name ASC`. */
  predicate NameLe(a: BookRow, b: BookRow) {
    StringLe(a.name, b.name)
  }

  lemma NameOrderIsTotal()
    ensures IsTotalPreorder(NameLe)
  {
    forall a: BookRow, b: BookRow ensures NameLe(a, b) || NameLe(b, a) {
      StringLeTotal(a.name, b.name);
    }
    forall a: BookRow, b: BookRow, c: BookRow | NameLe(a, b) && NameLe(b, c) ensures NameLe(a, c) {
      StringLeTransitive(a.name, b.name, c.name);
    }
  }

  /** Rows ordered by name and read back as books: exactly the given rows,
      each once per occurrence, names ascending. */
  function ByName(rows: seq<BookRow>): (r: seq<Book>)
    ensures |r| == |rows|
    ensures forall i :: 0 <= i < |r| ==> exists row :: row in rows && r[i] == BookOf(row)
    ensures forall row :: row in rows ==> BookOf(row) in r
    ensures forall i, j :: 0 <= i < j < |r| ==> StringLe(r[i].Name, r[j].Name)
  {
    NameOrderIsTotal();
    var sorted := SortBy(rows, NameLe);
    var r := ToBooks(sorted);
    assert forall i :: 0 <= i < |r| ==> sorted[i] in rows by {
      forall i | 0 <= i < |r| ensures sorted[i] in rows {
        assert sorted[i] in multiset(sorted);
      }
    }
    assert forall row :: row in rows ==> BookOf(row) in r by {
      forall row | row in rows ensures BookOf(row) in r {
        assert row in multiset(sorted);
        var k :| 0 <= k < |sorted| && sorted[k] == row;
        assert r[k] == BookOf(row);
      }
    }
    r
  }

  /** What `search(q)` returns. */
  function SearchResult(books: seq<BookRow>, q: string): (r: seq<Book>)
    ensures |r| == |Matching(books, q)|
    ensures forall i :: 0 <= i < |r| ==> exists row :: row in books && Matches(row, q) && r[i] == BookOf(row)
    ensures forall row :: row in books && Matches(row, q) ==> BookOf(row) in r
    ensures forall i, j :: 0 <= i < j < |r| ==> StringLe(r[i].Name, r[j].Name)
  {
    ByName(Matching(books, q))
  }

  // ---------------------------------------------------------------------
  // Paged listing
  // ---------------------------------------------------------------------

  /** `Number.isInteger`. */
  predicate IsInteger(x: real) {
    x.Floor as real == x
  }

  /** `getAll`'s answer: one page of books and the number of matches. */
  datatype BookPage = BookPage(books: seq<Book>, total: nat)

  /** The rows `getAll` counts and pages: all of them, or those matching a
      non-empty search. */
  function Listed(books: seq<BookRow>, search: Option<string>): (r: seq<BookRow>)
    ensures search.Some? && search.value != "" ==> r == Matching(books, search.value)
    ensures search.None? || search.value == "" ==> r == books
  {
    if search.Some? && search.value != "" then Matching(books, search.value) else books
  }

  // ---------------------------------------------------------------------
  // Partial update
  // ---------------------------------------------------------------------

  /** The keys of an update object (`Partial<Book>`, so `Id` included); an
      absent key is not written. */
  datatype BookPatch = BookPatch(
    Id: Option<string>,
    Name: Option<string>,
    AuthorName: Option<string>,
    Edition: Option<string>,
    Genre: Option<string>,
    TotalCopies: Option<int>,
    AvailableCopies: Option<int>)

  /** `Object.keys(data).length === 0`. */
  predicate IsEmptyPatch(p: BookPatch) {
    p.Id.None? && p.Name.None? && p.AuthorName.None? && p.Edition.None? && p.Genre.None?
    && p.TotalCopies.None? && p.AvailableCopies.None?
  }

  /** `SET key = ?, ...` on one row: the given columns, the key included,
      take the new values; the others and the QR code stay. */
  function Patched(row: BookRow, p: BookPatch): (r: BookRow)
    ensures r.id == p.Id.GetOr(row.id) && r.qrCode == row.qrCode
    ensures r.name == p.Name.GetOr(row.name) && r.authorName == p.AuthorName.GetOr(row.authorName)
    ensures r.edition == (if p.Edition.Some? then p.Edition else row.edition)
    ensures r.genre == (if p.Genre.Some? then p.Genre else row.genre)
    ensures r.totalCopies == p.TotalCopies.GetOr(row.totalCopies)
    ensures r.availableCopies == p.AvailableCopies.GetOr(row.availableCopies)
    ensures IsEmptyPatch(p) ==> r == row
  {
    BookRow(
      id := if p.Id.Some? then p.Id.value else row.id,
      name := if p.Name.Some? then p.Name.value else row.name,
      authorName := if p.AuthorName.Some? then p.AuthorName.value else row.authorName,
      edition := if p.Edition.Some? then p.Edition else row.edition,
      genre := if p.Genre.Some? then p.Genre else row.genre,
      totalCopies := if p.TotalCopies.Some? then p.TotalCopies.value else row.totalCopies,
      availableCopies := if p.AvailableCopies.Some? then p.AvailableCopies.value else row.availableCopies,
      qrCode := row.qrCode)
  }

  /** `UPDATE books SET ... WHERE id = ?`. */
  function PatchBooks(books: seq<BookRow>, id: string, p: BookPatch): (r: seq<BookRow>)
    ensures |r| == |books|
    ensures forall i :: 0 <= i < |books| ==> r[i] == if books[i].id == id then Patched(books[i], p) else books[i]
  {
    seq(|books|, i requires 0 <= i < |books| => if books[i].id == id then Patched(books[i], p) else books[i])
  }

  /** The update moves an existing row onto a key that another row already
      holds: MySQL refuses it with a duplicate-key error. An update that
      matches no row raises none. */
  predicate KeyClash(books: seq<BookRow>, id: string, p: BookPatch) {
    p.Id.Some? && p.Id.value != id && FindBook(books, id).Some? && FindBook(books, p.Id.value).Some?
  }

  /** `DELETE FROM books WHERE id = ?`. */
  function WithoutBook(books: seq<BookRow>, id: string): (r: seq<BookRow>)
    ensures FindBook(r, id).None?
    ensures forall row :: row in r <==> row in books && row.id != id
    ensures FindBook(books, id).Some? ==> |r| < |books|
  {
    var r := Filter(books, (row: BookRow) => row.id != id);
    assert forall i :: 0 <= i < |r| ==> r[i] in r;
    if FindBook(books, id).Some? then
      assert FindBook(books, id).value !in r;
      FilterDropsSome(books, (row: BookRow) => row.id != id, FindBook(books, id).value);
      r
    else r
  }

  /** The row inserted by `addNewBook`: the supplied values, a NULL QR code. */
  function InsertedRow(id: string, data: BookData): BookRow
    requires data.Name.Some? && data.AuthorName.Some? && data.TotalCopies.Some? && data.AvailableCopies.Some?
  {
    BookRow(id, data.Name.value, data.AuthorName.value, data.Edition, data.Genre,
            data.TotalCopies.value, data.AvailableCopies.value, None)
  }

  // ---------------------------------------------------------------------
  // The repository
  // ---------------------------------------------------------------------

  class BookRepository {
    const db: Database

    constructor (db: Database)
      ensures this.db == db
    {
      this.db := db;
    }

    /** `addNewBook(data)` with the freshly drawn uuid `id`. The callers
        supply name, author and both counts (the non-null assertions); an
        id already in the table is a duplicate-key error. */
    method AddNewBook(data: BookData, id: string) returns (r: Result<Book>)
      requires db.Valid()
      requires data.Name.Some? && data.AuthorName.Some? && data.TotalCopies.Some? && data.AvailableCopies.Some?
      modifies db
      ensures db.Valid()
      ensures db.transactions == old(db.transactions) && db.students == old(db.students)
      ensures db.librarians == old(db.librarians) && db.nextTransactionId == old(db.nextTransactionId)
      ensures r.Err? <==> FindBook(old(db.books), id).Some?
      ensures r.Err? ==> db.books == old(db.books)
      ensures r.Ok? ==> db.books == old(db.books) + [InsertedRow(id, data)]
      ensures r.Ok? ==> r.value == NewBook(data.(Id := Some(id)))
      ensures r.Ok? ==> BookWithId(db.books, id) == Some(r.value)
    {
      if FindBook(db.books, id).Some? {
        return Err("Duplicate entry for key 'PRIMARY'");
      }
      var row := InsertedRow(id, data);
      DistinctByAppend(db.books, row, BookKey);
      FindBookAppendNew(db.books, row);
      db.books := db.books + [row];
      r := Ok(NewBook(data.(Id := Some(id))));
    }

    /** `removeBook(id)`: true exactly when a row with that id existed;
        afterwards none does. */
    method RemoveBook(id: string) returns (removed: bool)
      requires db.Valid()
      modifies db
      ensures db.Valid()
      ensures db.transactions == old(db.transactions) && db.students == old(db.students)
      ensures db.librarians == old(db.librarians) && db.nextTransactionId == old(db.nextTransactionId)
      ensures removed <==> FindBook(old(db.books), id).Some?
      ensures db.books == WithoutBook(old(db.books), id)
    {
      removed := FindBook(db.books, id).Some?;
      FilterKeepsDistinct(db.books, (row: BookRow) => row.id != id, BookKey);
      db.books := WithoutBook(db.books, id);
    }

    /** `getById(id)`. */
    method GetById(id: string) returns (r: Option<Book>)
      ensures r == BookWithId(db.books, id)
    {
      r := BookWithId(db.books, id);
    }

    /** `displayBookInfo(id)`: the same query as `getById`. */
    method DisplayBookInfo(id: string) returns (r: Option<Book>)
      ensures r == BookWithId(db.books, id)
    {
      r := BookWithId(db.books, id);
    }

    /** `getByQRCode(qrCode)`. */
    method GetByQRCode(qrCode: string) returns (r: Option<Book>)
      ensures r == BookWithQRCode(db.books, qrCode)
    {
      r := BookWithQRCode(db.books, qrCode);
    }

    /** `search(query)`. */
    method Search(query: string) returns (r: seq<Book>)
      ensures r == SearchResult(db.books, query)
    {
      r := SearchResult(db.books, query);
    }

    /** `getAll({page, limit, search})`: a non-integer page or limit is
        refused, and so is a negative `LIMIT` or `OFFSET` (the interpolated
        query does not parse); otherwise one page of the listing ordered by
        name, with the number of all listed rows. */
    method GetAll(page: real, limit: real, search: Option<string>) returns (r: Result<BookPage>)
      ensures r.Err? <==>
        || !IsInteger(page) || !IsInteger(limit)
        || limit < 0.0 || Offset(page.Floor, limit.Floor) < 0
      ensures r.Ok? ==> r.value.total == |Listed(db.books, search)|
      ensures r.Ok? ==> |r.value.books| <= limit.Floor
      ensures r.Ok? ==>
        r.value.books == Page(ByName(Listed(db.books, search)), Offset(page.Floor, limit.Floor), limit.Floor)
    {
      var rows := Listed(db.books, search);
      var total := |rows|;
      if !IsInteger(page) || !IsInteger(limit) {
        return Err("Invalid pagination parameters");
      }
      var offset := Offset(page.Floor, limit.Floor);
      if limit < 0.0 || offset < 0 {
        return Err("You have an error in your SQL syntax");
      }
      r := Ok(BookPage(Page(ByName(rows), offset, limit.Floor), total));
    }

    /** `update(id, data)`: with no keys, a plain `getById`; otherwise the
        given columns are written on the row with that id, unless that would
        duplicate a key, and the result is the book read back under `id`:
        null when no row matched or when the update moved the row to a new
        key. */
    method Update(id: string, patch: BookPatch) returns (r: Result<Option<Book>>)
      requires db.Valid()
      modifies db
      ensures db.Valid()
      ensures db.transactions == old(db.transactions) && db.students == old(db.students)
      ensures db.librarians == old(db.librarians) && db.nextTransactionId == old(db.nextTransactionId)
      ensures r.Err? <==> KeyClash(old(db.books), id, patch)
      ensures r.Err? ==> db.books == old(db.books)
      ensures r.Ok? ==> db.books == PatchBooks(old(db.books), id, patch)
      ensures r.Ok? ==> r.value == BookWithId(db.books, id)
    {
      if IsEmptyPatch(patch) {
        assert PatchBooks(db.books, id, patch) == db.books;
        r := Ok(BookWithId(db.books, id));
        return;
      }
      if KeyClash(db.books, id, patch) {
        return Err("Duplicate entry for key 'PRIMARY'");
      }
      var affected := FindBook(db.books, id).Some?;
      PatchKeepsKeys(db.books, id, patch);
      db.books := PatchBooks(db.books, id, patch);
      if !affected {
        return Ok(None);
      }
      r := Ok(BookWithId(db.books, id));
    }
  }

  // ---------------------------------------------------------------------
  // Properties
  // ---------------------------------------------------------------------

  /** A partial update keeps the keys unique exactly when it does not move
      a row onto a key already held; the row is still found under `id`
      exactly when it existed and its key was not changed. */
  lemma PatchKeepsKeys(books: seq<BookRow>, id: string, p: BookPatch)
    requires DistinctBy(books, BookKey)
    ensures DistinctBy(PatchBooks(books, id, p), BookKey) <==> !KeyClash(books, id, p)
    ensures FindBook(PatchBooks(books, id, p), id).Some? <==>
      FindBook(books, id).Some? && (p.Id.None? || p.Id.value == id)
  {
    var after := PatchBooks(books, id, p);
    if KeyClash(books, id, p) {
      var k :| 0 <= k < |books| && books[k] == FindBook(books, id).value;
      var j :| 0 <= j < |books| && books[j] == FindBook(books, p.Id.value).value;
      assert after[k].id == p.Id.value == after[j].id && k != j;
      if k < j { assert BookKey(after[k]) == BookKey(after[j]); }
      else { assert BookKey(after[j]) == BookKey(after[k]); }
    } else {
      forall i, j | 0 <= i < j < |after| ensures BookKey(after[i]) != BookKey(after[j]) {
        assert books[i].id != books[j].id;
        if books[i].id == id {
          assert books[j] in books;
        } else if books[j].id == id {
          assert books[i] in books;
        }
      }
    }
    if FindBook(books, id).Some? {
      var k :| 0 <= k < |books| && books[k] == FindBook(books, id).value;
      if p.Id.None? || p.Id.value == id {
        assert after[k].id == id;
      } else {
        forall i | 0 <= i < |after| ensures after[i].id != id {
          if i != k { assert books[i].id != books[k].id; }
        }
      }
    }
  }

  /** Rewriting the key of an existing book writes the row, yet the read-back
      under the old key finds nothing, while the new key does. */
  lemma KeyChangeLosesTheBook(books: seq<BookRow>, id: string, p: BookPatch)
    requires DistinctBy(books, BookKey)
    requires FindBook(books, id).Some? && p.Id.Some? && p.Id.value != id
    requires !KeyClash(books, id, p)
    ensures PatchBooks(books, id, p) != books
    ensures BookWithId(PatchBooks(books, id, p), id).None?
    ensures BookWithId(PatchBooks(books, id, p), p.Id.value).Some?
  {
    var after := PatchBooks(books, id, p);
    PatchKeepsKeys(books, id, p);
    var k :| 0 <= k < |books| && books[k] == FindBook(books, id).value;
    assert after[k].id == p.Id.value != books[k].id;
    assert after[k] in after;
  }
}
