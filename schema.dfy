/** The MySQL database the repositories share, as in-memory tables. Each
    table is a sequence of rows in storage order; a query without
    `ORDER BY` returns rows in that order. */
module Schema {
  import opened Common
  import opened Transactions

  /** A row of `books`. */
  datatype BookRow = BookRow(
    id: string,
    name: string,
    authorName: string,
    edition: Option<string>,
    genre: Option<string>,
    totalCopies: int,
    availableCopies: int,
    qrCode: Option<string>)

  /** A row of `transactions`; the dates other than `createdAt` start NULL. */
  datatype TransactionRow = TransactionRow(
    id: nat,
    bookId: string,
    studentReg: string,
    status: Status,
    createdAt: Time,
    borrowedDate: Option<Time>,
    dueDate: Option<Time>,
    returnDate: Option<Time>)

  /** A row of `students`. */
  datatype StudentRow = StudentRow(
    id: string,
    Name: string,
    Roll: string,
    Registration: string,
    Department: string,
    Session: string,
    ContactNumber: string,
    Address: string,
    Email: string,
    Password: string,
    qrCode: Option<string>,
    createdAt: Time)

  /** A row of `librarians`. */
  datatype LibrarianRow = LibrarianRow(
    id: string,
    name: string,
    contact: Option<string>,
    email: string,
    password: string,
    createdAt: Time)

  function BookKey(b: BookRow): string { b.id }
  function StudentKey(s: StudentRow): string { s.id }
  function LibrarianKey(l: LibrarianRow): string { l.id }

  /** `SELECT * FROM books WHERE id = ?`, first row. */
  function FindBook(books: seq<BookRow>, id: string): (r: Option<BookRow>)
    ensures r.None? <==> forall i :: 0 <= i < |books| ==> books[i].id != id
    ensures r.Some? ==> r.value in books && r.value.id == id
    decreases |books|
  {
    if books == [] then None
    else if books[0].id == id then Some(books[0])
    else FindBook(books[1..], id)
  }

  /** A row appended under a new id is the one a lookup of that id finds. */
  lemma {:induction false} FindBookAppendNew(books: seq<BookRow>, row: BookRow)
    requires FindBook(books, row.id).None?
    ensures FindBook(books + [row], row.id) == Some(row)
    decreases |books|
  {
    if books == [] {
      assert books + [row] == [row];
    } else {
      assert (books + [row])[0] == books[0] && (books + [row])[1..] == books[1..] + [row];
      FindBookAppendNew(books[1..], row);
    }
  }

  /** Every transaction id was handed out by the auto-increment counter. */
  predicate TransactionIdsBelow(rows: seq<TransactionRow>, next: nat) {
    forall i :: 0 <= i < |rows| ==> rows[i].id < next
  }

  /** The whole database. Primary keys are unique in every table; the
      transactions' AUTO_INCREMENT counter is `nextTransactionId`. */
  class Database {
    var books: seq<BookRow>
    var transactions: seq<TransactionRow>
    var students: seq<StudentRow>
    var librarians: seq<LibrarianRow>
    var nextTransactionId: nat

    ghost predicate Valid()
      reads this
    {
      && DistinctBy(books, BookKey)
      && DistinctBy(students, StudentKey)
      && DistinctBy(librarians, LibrarianKey)
      && TransactionIdsBelow(transactions, nextTransactionId)
    }

    /** A freshly initialised, empty database. */
    constructor ()
      ensures Valid()
      ensures books == [] && transactions == [] && students == [] && librarians == []
      ensures nextTransactionId == 1
    {
      books, transactions, students, librarians := [], [], [], [];
      nextTransactionId := 1;
    }
  }
}
