/** The catalog rules (`BookServices`): what `addNewBook`, `removeBook`,
    `getAll`, `search`, `getByQRCode` and `update` check before they reach
    the books table, and the page count `getAll` adds. */
module BookService {
  import opened Common
  import opened Schema
  import opened Books
  import opened BookRepository

  /** The body of a create request; name and author may be missing. */
  datatype AddNewBookDto = AddNewBookDto(
    Name: Option<string>,
    AuthorName: Option<string>,
    Edition: Option<string>,
    Genre: Option<string>,
    TotalCopies: int,
    AvailableCopies: Option<int>)

  /** `!x || x.trim() === ""`. */
  predicate MissingText(v: Option<string>) {
    v.None? || IsBlank(v.value)
  }

  /** The first check of `addNewBook` that fails, if any, in source order. */
  function AddRejection(dto: AddNewBookDto): (r: Option<string>)
    ensures r.None? <==> !MissingText(dto.Name) && !MissingText(dto.AuthorName) && dto.TotalCopies > 0
    ensures MissingText(dto.Name) ==> r == Some("Book name is required")
    ensures !MissingText(dto.Name) && MissingText(dto.AuthorName) ==> r == Some("Author name is required")
    ensures !MissingText(dto.Name) && !MissingText(dto.AuthorName) && dto.TotalCopies <= 0 ==>
      r == Some("Total copies must be greater than 0")
  {
    if MissingText(dto.Name) then Some("Book name is required")
    else if MissingText(dto.AuthorName) then Some("Author name is required")
    else if dto.TotalCopies <= 0 then Some("Total copies must be greater than 0")
    else None
  }

  /** `existing.some(b => b.AuthorName === dto.AuthorName)`. */
  predicate SameAuthorAmong(found: seq<Book>, author: string) {
    exists i :: 0 <= i < |found| && found[i].AuthorName == author
  }

  /** The constructor input `addNewBook` hands on, with the available count
      overwritten by the total. */
  function CreateData(dto: AddNewBookDto): (d: BookData)
    ensures d.AvailableCopies == Some(dto.TotalCopies) && d.TotalCopies == Some(dto.TotalCopies)
    ensures d.Name == dto.Name && d.AuthorName == dto.AuthorName
    ensures d.Edition == dto.Edition && d.Genre == dto.Genre && d.Id.None?
  {
    BookData(None, dto.Name, dto.AuthorName, dto.Edition, dto.Genre, Some(dto.TotalCopies), Some(dto.TotalCopies))
  }

  /** `update`'s one cross-field rule: both counts given and available above
      total. */
  predicate ExceedsTotal(p: BookPatch) {
    p.AvailableCopies.Some? && p.TotalCopies.Some? && p.AvailableCopies.value > p.TotalCopies.value
  }

  /** `Math.ceil(total / limit)` on a whole total and a positive whole
      limit: no page exactly when there is no book, and never more pages
      than books. */
  function CeilDiv(total: nat, limit: int): (pages: nat)
    requires limit > 0
    ensures pages == 0 <==> total == 0
    ensures pages <= total
  {
    CeilQuotientBounds(total, limit);
    (total + limit - 1) / limit
  }

  lemma CeilQuotientBounds(total: nat, limit: int)
    requires limit > 0
    ensures (total + limit - 1) / limit == 0 <==> total == 0
    ensures (total + limit - 1) / limit <= total
  {
    var q := (total + limit - 1) / limit;
    var m := (total + limit - 1) % limit;
    assert total + limit - 1 == q * limit + m && 0 <= m < limit;
    assert q >= 0;
    if q >= 1 {
      var k: nat := q - 1;
      var e: nat := limit - 1;
      assert k * limit == k + k * e;
      assert k * e >= 0;
      assert q * limit == limit + k * limit;
      assert q * limit >= limit + k;
    }
  }

  /** `getAll`'s answer: the repository's page and total, page and limit
      echoed, and the number of pages. */
  datatype BookListing = BookListing(books: seq<Book>, total: nat, page: real, limit: real, totalPages: nat)

  class BookServices {
    const repo: BookRepository

    constructor (repo: BookRepository)
      ensures this.repo == repo
    {
      this.repo := repo;
    }

    /** `addNewBook(dto)` with `id` the uuid the insert would draw. The
        checks run in order (name, author, copies, then a search on the name
        for a book by the same author), and a rejected call writes nothing.
        A created book has as many copies available as it has in total. */
    method AddNewBook(dto: AddNewBookDto, id: string) returns (r: Result<Book>)
      requires repo.db.Valid()
      modifies repo.db
      ensures repo.db.Valid()
      ensures AddRejection(dto).Some? ==> r == Err(AddRejection(dto).value) && unchanged(repo.db)
      ensures AddRejection(dto).None? && SameAuthorAmong(SearchResult(old(repo.db.books), dto.Name.value), dto.AuthorName.value)
        ==> r == Err("A book with the same name and author already exists") && unchanged(repo.db)
      ensures r.Ok? <==>
        && AddRejection(dto).None?
        && !SameAuthorAmong(SearchResult(old(repo.db.books), dto.Name.value), dto.AuthorName.value)
        && FindBook(old(repo.db.books), id).None?
      ensures r.Ok? ==> repo.db.books == old(repo.db.books) + [InsertedRow(id, CreateData(dto))]
      ensures r.Ok? ==> r.value.AvailableCopies == r.value.TotalCopies == dto.TotalCopies
      ensures r.Ok? ==> r.value.Id == Some(id) && r.value.Name == dto.Name.value && r.value.AuthorName == dto.AuthorName.value
      ensures r.Err? ==> repo.db.books == old(repo.db.books)
      ensures repo.db.transactions == old(repo.db.transactions) && repo.db.students == old(repo.db.students)
      ensures repo.db.librarians == old(repo.db.librarians) && repo.db.nextTransactionId == old(repo.db.nextTransactionId)
    {
      var rejection := AddRejection(dto);
      if rejection.Some? {
        return Err(rejection.value);
      }
      var existing := repo.Search(dto.Name.value);
      if SameAuthorAmong(existing, dto.AuthorName.value) {
        return Err("A book with the same name and author already exists");
      }
      r := repo.AddNewBook(CreateData(dto), id);
    }

    /** `removeBook(id)`: an unknown id is an error; otherwise the book is
        deleted and the answer is true. */
    method RemoveBook(id: string) returns (r: Result<bool>)
      requires repo.db.Valid()
      modifies repo.db
      ensures repo.db.Valid()
      ensures FindBook(old(repo.db.books), id).None? ==> r == Err("Book not found") && unchanged(repo.db)
      ensures FindBook(old(repo.db.books), id).Some? ==> r == Ok(true) && repo.db.books == WithoutBook(old(repo.db.books), id)
      ensures repo.db.transactions == old(repo.db.transactions) && repo.db.students == old(repo.db.students)
      ensures repo.db.librarians == old(repo.db.librarians) && repo.db.nextTransactionId == old(repo.db.nextTransactionId)
    {
      var book := repo.GetById(id);
      if book.None? {
        return Err("Book not found");
      }
      var removed := repo.RemoveBook(id);
      r := Ok(removed);
    }

    /** `displayBookDetails(id)`. */
    method DisplayBookDetails(id: string) returns (r: Option<Book>)
      ensures r == BookWithId(repo.db.books, id)
    {
      r := repo.DisplayBookInfo(id);
    }

    /** `getById(id)`. */
    method GetById(id: string) returns (r: Option<Book>)
      ensures r == BookWithId(repo.db.books, id)
    {
      r := repo.GetById(id);
    }

    /** `getAll(params)`: page and limit must be positive (page first), and
        the repository refuses non-integers; the answer echoes both and
        counts the pages needed for all listed books. */
    method GetAll(page: real, limit: real, search: Option<string>) returns (r: Result<BookListing>)
      ensures page <= 0.0 ==> r == Err("Page must be >= 1")
      ensures page > 0.0 && limit <= 0.0 ==> r == Err("Limit must be >= 1")
      ensures r.Ok? <==> page > 0.0 && limit > 0.0 && IsInteger(page) && IsInteger(limit)
      ensures r.Ok? ==>
        && r.value.page == page && r.value.limit == limit
        && r.value.total == |Listed(repo.db.books, search)|
        && r.value.books == Page(ByName(Listed(repo.db.books, search)), Offset(page.Floor, limit.Floor), limit.Floor)
        && r.value.totalPages == CeilDiv(r.value.total, limit.Floor)
    {
      if page <= 0.0 {
        return Err("Page must be >= 1");
      }
      if limit <= 0.0 {
        return Err("Limit must be >= 1");
      }
      var result := repo.GetAll(page, limit, search);
      if result.Err? {
        return Err(result.message);
      }
      r := Ok(BookListing(result.value.books, result.value.total, page, limit,
                          CeilDiv(result.value.total, limit.Floor)));
    }

    /** `search(query)`: a blank query is refused. */
    method Search(query: string) returns (r: Result<seq<Book>>)
      ensures r.Err? <==> IsBlank(query)
      ensures r.Err? ==> r.message == "Search query cannot be empty"
      ensures r.Ok? ==> r.value == SearchResult(repo.db.books, query)
    {
      if IsBlank(query) {
        return Err("Search query cannot be empty");
      }
      var found := repo.Search(query);
      r := Ok(found);
    }

    /** `getByQRCode(qrCode)`: a blank code is refused. */
    method GetByQRCode(qrCode: string) returns (r: Result<Option<Book>>)
      ensures r.Err? <==> IsBlank(qrCode)
      ensures r.Err? ==> r.message == "QR Code cannot be empty"
      ensures r.Ok? ==> r.value == BookWithQRCode(repo.db.books, qrCode)
    {
      if IsBlank(qrCode) {
        return Err("QR Code cannot be empty");
      }
      var found := repo.GetByQRCode(qrCode);
      r := Ok(found);
    }

    /** `update(id, dto)`: an unknown id is an error, and so is an update
        that gives both counts with more available than total; otherwise the
        repository's update runs, and its duplicate-key error propagates. */
    method Update(id: string, dto: BookPatch) returns (r: Result<Option<Book>>)
      requires repo.db.Valid()
      modifies repo.db
      ensures repo.db.Valid()
      ensures FindBook(old(repo.db.books), id).None? ==> r == Err("Book not found") && unchanged(repo.db)
      ensures FindBook(old(repo.db.books), id).Some? && ExceedsTotal(dto) ==>
        r == Err("Available copies cannot exceed total copies") && unchanged(repo.db)
      ensures repo.db.transactions == old(repo.db.transactions) && repo.db.students == old(repo.db.students)
      ensures repo.db.librarians == old(repo.db.librarians) && repo.db.nextTransactionId == old(repo.db.nextTransactionId)
      ensures FindBook(old(repo.db.books), id).Some? && KeyClash(old(repo.db.books), id, dto) ==>
        r.Err? && repo.db.books == old(repo.db.books)
      ensures r.Ok? <==>
        FindBook(old(repo.db.books), id).Some? && !ExceedsTotal(dto) && !KeyClash(old(repo.db.books), id, dto)
      ensures r.Ok? ==>
        && repo.db.books == PatchBooks(old(repo.db.books), id, dto)
        && r.value == BookWithId(repo.db.books, id)
        && (r.value.Some? <==> dto.Id.None? || dto.Id.value == id)
    {
      var existing := repo.GetById(id);
      if existing.None? {
        return Err("Book not found");
      }
      if ExceedsTotal(dto) {
        return Err("Available copies cannot exceed total copies");
      }
      ghost var before := repo.db.books;
      PatchKeepsKeys(before, id, dto);
      r := repo.Update(id, dto);
      if r.Ok? {
        assert r.value.Some? <==> FindBook(repo.db.books, id).Some?;
      } else {
        assert repo.db.books == before;
      }
    }
  }

  // ---------------------------------------------------------------------
  // Properties
  // ---------------------------------------------------------------------

  /** The page count is the least number of pages of `limit` books that
      holds all `total` of them. */
  lemma CeilDivIsLeastCover(total: nat, limit: int)
    requires limit > 0
    ensures CeilDiv(total, limit) * limit >= total
    ensures CeilDiv(total, limit) == 0 || (CeilDiv(total, limit) - 1) * limit < total
  {
    var q := CeilDiv(total, limit);
    var m := (total + limit - 1) % limit;
    assert total + limit - 1 == q * limit + m;
    assert (q - 1) * limit == q * limit - limit;
  }

  /** A title is always found by a search on itself. */
  lemma ContainsItself(s: string)
    ensures Contains(s, s)
  {
  }

  /** A book already stored under the same name and author is found by the
      duplicate check, so adding it again is refused. */
  lemma ExactDuplicateIsFound(books: seq<BookRow>, row: BookRow)
    requires row in books
    ensures SameAuthorAmong(SearchResult(books, row.name), row.authorName)
  {
    ContainsItself(row.name);
    assert Matches(row, row.name);
    var found := SearchResult(books, row.name);
    assert BookOf(row) in found;
    var k :| 0 <= k < |found| && found[k] == BookOf(row);
    assert found[k].AuthorName == row.authorName;
  }

  /** The duplicate check is a substring search: a stored book whose title
      merely contains the new title, by the same author, also blocks it. */
  lemma LongerTitleBlocksShorter()
    ensures var stored := BookRow("Dune Messiah", "Dune Messiah", "Frank Herbert", None, None, 2, 2, None);
      SameAuthorAmong(SearchResult([stored], "Dune"), "Frank Herbert")
  {
    var stored := BookRow("Dune Messiah", "Dune Messiah", "Frank Herbert", None, None, 2, 2, None);
    assert IsPrefix("Dune", stored.name);
    assert Matches(stored, "Dune");
    ExactDuplicateAmong([stored], stored, "Dune");
  }

  /** A stored row matching the query, by the author, is found by the
      duplicate check. */
  lemma ExactDuplicateAmong(books: seq<BookRow>, row: BookRow, q: string)
    requires row in books && Matches(row, q)
    ensures SameAuthorAmong(SearchResult(books, q), row.authorName)
  {
    var found := SearchResult(books, q);
    assert BookOf(row) in found;
    var k :| 0 <= k < |found| && found[k] == BookOf(row);
    assert found[k].AuthorName == row.authorName;
  }

  /** The count rule looks only inside one update: lowering the total alone
      below the available count passes the check and leaves more copies
      available than exist. */
  lemma OneSidedUpdateCanExceedTotal(row: BookRow, total: int)
    requires total < row.availableCopies
    ensures var p := BookPatch(None, None, None, None, None, Some(total), None);
      !ExceedsTotal(p) && Patched(row, p).availableCopies > Patched(row, p).totalCopies
  {
  }
}
