/** The lending engine's storage layer (`MySQLTransactionRepository`):
    request, confirm (issue), return and list-by-status, each a sequence of
    SQL statements run one after another on the `books` and `transactions`
    tables, with no guard on copy counts, duplicates or statuses. */
module BorrowRepository {
  import opened Common
  import opened Transactions
  import opened Schema

  /** A storage failure: the statement with index `step` (counted from 0 in
      each operation) throws, and every statement before it has run. */
  datatype Fault = NoFault | FailsAt(step: nat)

  /** Statement `step` runs without throwing. */
  predicate Runs(fault: Fault, step: nat) {
    fault.NoFault? || step < fault.step
  }

  /** The record that request, confirm and list return for a row. */
  datatype TransactionSummary = TransactionSummary(
    id: nat,
    bookId: string,
    studentReg: string,
    status: Status,
    borrowedDate: Option<Time>,
    dueDate: Option<Time>)

  /** The columns that return selects for each row of the pair. */
  datatype ReturnSummary = ReturnSummary(
    id: nat,
    bookId: string,
    studentReg: string,
    status: Status,
    returnDate: Option<Time>)

  function Summary(t: TransactionRow): TransactionSummary {
    TransactionSummary(t.id, t.bookId, t.studentReg, t.status, t.borrowedDate, t.dueDate)
  }

  function Summaries(rows: seq<TransactionRow>): (r: seq<TransactionSummary>)
    ensures |r| == |rows| && forall i :: 0 <= i < |rows| ==> r[i] == Summary(rows[i])
  {
    seq(|rows|, i requires 0 <= i < |rows| => Summary(rows[i]))
  }

  function ReturnSummaries(rows: seq<TransactionRow>): (r: seq<ReturnSummary>)
    ensures |r| == |rows|
    ensures forall i :: 0 <= i < |rows| ==>
      r[i] == ReturnSummary(rows[i].id, rows[i].bookId, rows[i].studentReg, rows[i].status, rows[i].returnDate)
  {
    seq(|rows|, i requires 0 <= i < |rows| =>
      ReturnSummary(rows[i].id, rows[i].bookId, rows[i].studentReg, rows[i].status, rows[i].returnDate))
  }

  // ---------------------------------------------------------------------
  // The SQL statements, as functions on the tables
  // ---------------------------------------------------------------------

  /** `UPDATE books SET availableCopies = ? WHERE id = ?`. */
  function SetAvailable(books: seq<BookRow>, id: string, copies: int): (r: seq<BookRow>)
    ensures |r| == |books|
    ensures forall i :: 0 <= i < |books| ==>
      r[i] == if books[i].id == id then books[i].(availableCopies := copies) else books[i]
  {
    seq(|books|, i requires 0 <= i < |books| =>
      if books[i].id == id then books[i].(availableCopies := copies) else books[i])
  }

  predicate OfPair(t: TransactionRow, studentReg: string, bookId: string) {
    t.studentReg == studentReg && t.bookId == bookId
  }

  /** `SELECT * FROM transactions WHERE studentReg = ? AND bookId = ?`. */
  function RowsOfPair(txs: seq<TransactionRow>, studentReg: string, bookId: string): seq<TransactionRow> {
    Filter(txs, (t: TransactionRow) => OfPair(t, studentReg, bookId))
  }

  /** The row `INSERT INTO transactions (bookId, studentReg, status,
      createdAt) VALUES (?, ?, 'REQUESTED', NOW())` adds. */
  function RequestRow(id: nat, bookId: string, studentReg: string, now: Time): TransactionRow {
    TransactionRow(id, bookId, studentReg, Requested, now, None, None, None)
  }

  /** `UPDATE transactions SET status = 'ISSUED', borrowedDate = NOW()
      WHERE studentReg = ? AND bookId = ?`. */
  function MarkIssued(txs: seq<TransactionRow>, studentReg: string, bookId: string, now: Time): (r: seq<TransactionRow>)
    ensures |r| == |txs|
    ensures forall i :: 0 <= i < |txs| ==>
      r[i] == if OfPair(txs[i], studentReg, bookId) then txs[i].(status := Issued, borrowedDate := Some(now)) else txs[i]
  {
    seq(|txs|, i requires 0 <= i < |txs| =>
      if OfPair(txs[i], studentReg, bookId) then txs[i].(status := Issued, borrowedDate := Some(now)) else txs[i])
  }

  /** `UPDATE transactions SET returnDate = NOW(), status = 'RETURNED'
      WHERE studentReg = ? AND bookId = ?`. */
  function MarkReturned(txs: seq<TransactionRow>, studentReg: string, bookId: string, now: Time): (r: seq<TransactionRow>)
    ensures |r| == |txs|
    ensures forall i :: 0 <= i < |txs| ==>
      r[i] == if OfPair(txs[i], studentReg, bookId) then txs[i].(status := Returned, returnDate := Some(now)) else txs[i]
  {
    seq(|txs|, i requires 0 <= i < |txs| =>
      if OfPair(txs[i], studentReg, bookId) then txs[i].(status := Returned, returnDate := Some(now)) else txs[i])
  }

  /** `SELECT * FROM transactions WHERE status = ?`. */
  function WithStatus(txs: seq<TransactionRow>, status: string): seq<TransactionRow> {
    Filter(txs, (t: TransactionRow) => StatusName(t.status) == status)
  }

  // ---------------------------------------------------------------------
  // Invariants the code does not enforce
  // ---------------------------------------------------------------------

  predicate IsOpen(t: TransactionRow) {
    t.status == Requested || t.status == Issued
  }

  /** At most one open (REQUESTED or ISSUED) record per (student, book). */
  predicate AtMostOneOpenPerPair(txs: seq<TransactionRow>) {
    forall i, j :: 0 <= i < j < |txs| && IsOpen(txs[i]) && IsOpen(txs[j]) ==>
      !OfPair(txs[j], txs[i].studentReg, txs[i].bookId)
  }

  predicate HasOpenRow(txs: seq<TransactionRow>, studentReg: string, bookId: string) {
    exists i :: 0 <= i < |txs| && IsOpen(txs[i]) && OfPair(txs[i], studentReg, bookId)
  }

  /** The pair has at most one record, whatever its status. */
  predicate AtMostOneRowOfPair(txs: seq<TransactionRow>, studentReg: string, bookId: string) {
    forall i, j :: 0 <= i < j < |txs| && OfPair(txs[i], studentReg, bookId) ==> !OfPair(txs[j], studentReg, bookId)
  }

  /** No book has a negative count of available copies. */
  predicate CopiesNonNegative(books: seq<BookRow>) {
    forall i :: 0 <= i < |books| ==> books[i].availableCopies >= 0
  }

  /** Every book's available count lies between 0 and its total. */
  predicate CopiesInRange(books: seq<BookRow>) {
    forall i :: 0 <= i < |books| ==> 0 <= books[i].availableCopies <= books[i].totalCopies
  }

  // ---------------------------------------------------------------------
  // The repository
  // ---------------------------------------------------------------------

  class TransactionRepository {
    const db: Database

    constructor (db: Database)
      ensures this.db == db
    {
      this.db := db;
    }

    /** `RequestANewBook`: look the book up (step 0); if it exists, insert a
        REQUESTED row (step 1) and read back the pair's rows (step 2),
        returning the FIRST of them. A missing book or a failure gives None. */
    method RequestANewBook(bookId: string, studentReg: string, now: Time, fault: Fault)
      returns (r: Option<TransactionSummary>)
      requires db.Valid()
      modifies db
      ensures db.Valid()
      ensures db.books == old(db.books) && db.students == old(db.students) && db.librarians == old(db.librarians)
      ensures FindBook(old(db.books), bookId).Some? && Runs(fault, 1) ==>
        && db.transactions == old(db.transactions) + [RequestRow(old(db.nextTransactionId), bookId, studentReg, now)]
        && db.nextTransactionId == old(db.nextTransactionId) + 1
      ensures !(FindBook(old(db.books), bookId).Some? && Runs(fault, 1)) ==>
        db.transactions == old(db.transactions) && db.nextTransactionId == old(db.nextTransactionId)
      ensures r.Some? <==> FindBook(old(db.books), bookId).Some? && Runs(fault, 2)
      ensures r.Some? ==>
        && RowsOfPair(db.transactions, studentReg, bookId) != []
        && r.value == Summary(RowsOfPair(db.transactions, studentReg, bookId)[0])
    {
      if !Runs(fault, 0) { return None; }
      var book := FindBook(db.books, bookId);
      if book.None? { return None; }
      if !Runs(fault, 1) { return None; }
      var row := RequestRow(db.nextTransactionId, bookId, studentReg, now);
      db.transactions := db.transactions + [row];
      db.nextTransactionId := db.nextTransactionId + 1;
      if !Runs(fault, 2) { return None; }
      var inserted := RowsOfPair(db.transactions, studentReg, bookId);
      assert row in inserted;
      r := Some(Summary(inserted[0]));
    }

    /** `ConfirmRequestForBook`: read the book (step 0; a missing book makes
        `book[0]` throw before any write), write its count minus one
        (step 1), mark every row of the pair ISSUED (step 2), read the
        pair's rows back (step 3); with no row `insertedRow[0]` throws. */
    method ConfirmRequestForBook(bookId: string, studentReg: string, now: Time, fault: Fault)
      returns (r: Option<TransactionSummary>)
      requires db.Valid()
      modifies db
      ensures db.Valid()
      ensures db.nextTransactionId == old(db.nextTransactionId)
      ensures db.students == old(db.students) && db.librarians == old(db.librarians)
      ensures var found := FindBook(old(db.books), bookId);
        db.books == if found.Some? && Runs(fault, 1)
                    then SetAvailable(old(db.books), bookId, found.value.availableCopies - 1)
                    else old(db.books)
      ensures db.transactions == if FindBook(old(db.books), bookId).Some? && Runs(fault, 2)
                                 then MarkIssued(old(db.transactions), studentReg, bookId, now)
                                 else old(db.transactions)
      ensures r.Some? <==>
        FindBook(old(db.books), bookId).Some? && Runs(fault, 3) && RowsOfPair(old(db.transactions), studentReg, bookId) != []
      ensures r.Some? ==>
        && RowsOfPair(db.transactions, studentReg, bookId) != []
        && r.value == Summary(RowsOfPair(db.transactions, studentReg, bookId)[0])
    {
      if !Runs(fault, 0) { return None; }
      var book := FindBook(db.books, bookId);
      if book.None? { return None; }
      var updatedCopies := book.value.availableCopies - 1;
      if !Runs(fault, 1) { return None; }
      SetAvailableKeepsKeys(db.books, bookId, updatedCopies);
      db.books := SetAvailable(db.books, bookId, updatedCopies);
      if !Runs(fault, 2) { return None; }
      ghost var before := db.transactions;
      MarkingKeepsIds(before, studentReg, bookId, now, db.nextTransactionId);
      db.transactions := MarkIssued(db.transactions, studentReg, bookId, now);
      if !Runs(fault, 3) { return None; }
      var rows := RowsOfPair(db.transactions, studentReg, bookId);
      MarkedPairStaysNonEmpty(before, studentReg, bookId, now);
      if rows == [] { return None; }
      r := Some(Summary(rows[0]));
    }

    /** `ReturnBorrowedBook`: read the book (step 0), write its count plus
        one (step 1), take a pooled connection (step 2), mark every row of
        the pair RETURNED (step 3) and return ALL of the pair's rows
        (step 4), possibly none. */
    method ReturnBorrowedBook(bookId: string, studentReg: string, now: Time, fault: Fault)
      returns (r: Option<seq<ReturnSummary>>)
      requires db.Valid()
      modifies db
      ensures db.Valid()
      ensures db.nextTransactionId == old(db.nextTransactionId)
      ensures db.students == old(db.students) && db.librarians == old(db.librarians)
      ensures var found := FindBook(old(db.books), bookId);
        db.books == if found.Some? && Runs(fault, 1)
                    then SetAvailable(old(db.books), bookId, found.value.availableCopies + 1)
                    else old(db.books)
      ensures db.transactions == if FindBook(old(db.books), bookId).Some? && Runs(fault, 3)
                                 then MarkReturned(old(db.transactions), studentReg, bookId, now)
                                 else old(db.transactions)
      ensures r.Some? <==> FindBook(old(db.books), bookId).Some? && Runs(fault, 4)
      ensures r.Some? ==> r.value == ReturnSummaries(RowsOfPair(db.transactions, studentReg, bookId))
    {
      if !Runs(fault, 0) { return None; }
      var book := FindBook(db.books, bookId);
      if book.None? { return None; }
      var updatedCopies := book.value.availableCopies + 1;
      if !Runs(fault, 1) { return None; }
      SetAvailableKeepsKeys(db.books, bookId, updatedCopies);
      db.books := SetAvailable(db.books, bookId, updatedCopies);
      if !Runs(fault, 2) { return None; }
      if !Runs(fault, 3) { return None; }
      MarkingKeepsIds(db.transactions, studentReg, bookId, now, db.nextTransactionId);
      db.transactions := MarkReturned(db.transactions, studentReg, bookId, now);
      if !Runs(fault, 4) { return None; }
      r := Some(ReturnSummaries(RowsOfPair(db.transactions, studentReg, bookId)));
    }

    /** `GetAllTransactionsByStatus`: the rows whose status is spelled
        `status`, in storage order; a failing query gives the empty list. */
    method GetAllTransactionsByStatus(status: string, fault: Fault)
      returns (r: seq<TransactionSummary>)
      ensures !Runs(fault, 0) ==> r == []
      ensures ParseStatus(status).None? ==> r == []
      ensures forall x :: x in r ==> x.status == ParseStatus(status).value
      ensures Runs(fault, 0) ==>
        forall t :: t in db.transactions && StatusName(t.status) == status ==> Summary(t) in r
      ensures Runs(fault, 0) ==> r == Summaries(WithStatus(db.transactions, status))
    {
      if !Runs(fault, 0) { return []; }
      var rows := WithStatus(db.transactions, status);
      WithStatusMatches(db.transactions, status);
      r := Summaries(rows);
      forall t | t in db.transactions && StatusName(t.status) == status ensures Summary(t) in r {
        var k :| 0 <= k < |rows| && rows[k] == t;
        assert r[k] == Summary(t);
      }
    }
  }

  // ---------------------------------------------------------------------
  // Properties of the statements
  // ---------------------------------------------------------------------

  /** Writing a count never touches the key column. */
  lemma SetAvailableKeepsKeys(books: seq<BookRow>, id: string, copies: int)
    requires DistinctBy(books, BookKey)
    ensures DistinctBy(SetAvailable(books, id, copies), BookKey)
  {
    var after := SetAvailable(books, id, copies);
    assert forall i :: 0 <= i < |books| ==> after[i].id == books[i].id;
  }

  /** Marking rows never changes a transaction id. */
  lemma MarkingKeepsIds(txs: seq<TransactionRow>, studentReg: string, bookId: string, now: Time, next: nat)
    requires TransactionIdsBelow(txs, next)
    ensures TransactionIdsBelow(MarkIssued(txs, studentReg, bookId, now), next)
    ensures TransactionIdsBelow(MarkReturned(txs, studentReg, bookId, now), next)
  {
    var issued, returned := MarkIssued(txs, studentReg, bookId, now), MarkReturned(txs, studentReg, bookId, now);
    assert forall i :: 0 <= i < |txs| ==> issued[i].id == txs[i].id && returned[i].id == txs[i].id;
  }

  /** Marking rows never removes a row of the pair. */
  lemma MarkedPairStaysNonEmpty(txs: seq<TransactionRow>, studentReg: string, bookId: string, now: Time)
    ensures RowsOfPair(MarkIssued(txs, studentReg, bookId, now), studentReg, bookId) == []
        <==> RowsOfPair(txs, studentReg, bookId) == []
  {
    var after := MarkIssued(txs, studentReg, bookId, now);
    var p := (t: TransactionRow) => OfPair(t, studentReg, bookId);
    if RowsOfPair(txs, studentReg, bookId) != [] {
      var t := RowsOfPair(txs, studentReg, bookId)[0];
      assert t in Filter(txs, p);
      assert t in txs && p(t);
      var k :| 0 <= k < |txs| && txs[k] == t;
      assert after[k] in after && p(after[k]);
      assert after[k] in Filter(after, p);
    }
    if RowsOfPair(after, studentReg, bookId) != [] {
      var t := RowsOfPair(after, studentReg, bookId)[0];
      assert t in Filter(after, p);
      assert t in after && p(t);
      var k :| 0 <= k < |after| && after[k] == t;
      assert txs[k] in txs && p(txs[k]);
      assert txs[k] in Filter(txs, p);
    }
  }

  /** Listing by status selects exactly the rows spelled that way, and an
      unrecognised spelling selects nothing. */
  lemma WithStatusMatches(txs: seq<TransactionRow>, status: string)
    ensures forall t :: t in WithStatus(txs, status) <==> t in txs && StatusName(t.status) == status
    ensures ParseStatus(status).None? ==> WithStatus(txs, status) == []
    ensures forall t :: t in WithStatus(txs, status) ==> t.status == ParseStatus(status).value
  {
    var p := (t: TransactionRow) => StatusName(t.status) == status;
    forall t | t in WithStatus(txs, status) ensures ParseStatus(status) == Some(t.status) {
      assert t in Filter(txs, p) && p(t);
      ParseStatusName(t.status);
    }
    if WithStatus(txs, status) != [] {
      assert WithStatus(txs, status)[0] in WithStatus(txs, status);
    }
  }

  /** A request adds a row and touches no book; when the pair already has
      a row, the record read back is that older row, not the new one. */
  lemma {:induction false} RepeatRequestReturnsOldRow(txs: seq<TransactionRow>, id: nat, bookId: string, studentReg: string, now: Time)
    requires RowsOfPair(txs, studentReg, bookId) != []
    ensures RowsOfPair(txs + [RequestRow(id, bookId, studentReg, now)], studentReg, bookId) != []
    ensures RowsOfPair(txs + [RequestRow(id, bookId, studentReg, now)], studentReg, bookId)[0]
         == RowsOfPair(txs, studentReg, bookId)[0]
  {
    FilterAppend(txs, [RequestRow(id, bookId, studentReg, now)], (t: TransactionRow) => OfPair(t, studentReg, bookId));
  }

  /** With no earlier row for the pair, the record read back is the new
      REQUESTED row. */
  lemma {:induction false} FirstRequestReturnsNewRow(txs: seq<TransactionRow>, id: nat, bookId: string, studentReg: string, now: Time)
    requires RowsOfPair(txs, studentReg, bookId) == []
    ensures RowsOfPair(txs + [RequestRow(id, bookId, studentReg, now)], studentReg, bookId)
         == [RequestRow(id, bookId, studentReg, now)]
  {
    var row := RequestRow(id, bookId, studentReg, now);
    FilterAppend(txs, [row], (t: TransactionRow) => OfPair(t, studentReg, bookId));
    assert Filter([row], (t: TransactionRow) => OfPair(t, studentReg, bookId)) == [row];
  }

  /** A request keeps "one open record per pair" exactly when the pair had
      no open record: the code inserts without looking. */
  lemma {:induction false} RequestKeepsUniquenessIff(txs: seq<TransactionRow>, id: nat, bookId: string, studentReg: string, now: Time)
    requires AtMostOneOpenPerPair(txs)
    ensures AtMostOneOpenPerPair(txs + [RequestRow(id, bookId, studentReg, now)])
        <==> !HasOpenRow(txs, studentReg, bookId)
  {
    var row := RequestRow(id, bookId, studentReg, now);
    var after := txs + [row];
    var n := |txs|;
    if HasOpenRow(txs, studentReg, bookId) {
      var i :| 0 <= i < n && IsOpen(txs[i]) && OfPair(txs[i], studentReg, bookId);
      assert after[i] == txs[i] && after[n] == row;
      assert !AtMostOneOpenPerPair(after);
    } else {
      forall i, j | 0 <= i < j < |after| && IsOpen(after[i]) && IsOpen(after[j])
        ensures !OfPair(after[j], after[i].studentReg, after[i].bookId)
      {
        if j < n {
          assert after[i] == txs[i] && after[j] == txs[j];
        } else {
          assert after[i] == txs[i];
        }
      }
    }
  }

  /** Confirm writes "count minus one" with no lower bound: the counts stay
      non-negative exactly when the book had a copy available. */
  lemma ConfirmKeepsCopiesIff(books: seq<BookRow>, bookId: string)
    requires CopiesNonNegative(books)
    requires FindBook(books, bookId).Some?
    ensures CopiesNonNegative(SetAvailable(books, bookId, FindBook(books, bookId).value.availableCopies - 1))
        <==> FindBook(books, bookId).value.availableCopies >= 1
  {
    var b := FindBook(books, bookId).value;
    var after := SetAvailable(books, bookId, b.availableCopies - 1);
    if b.availableCopies >= 1 {
      forall i | 0 <= i < |after| ensures after[i].availableCopies >= 0 {
        if books[i].id == bookId {
          assert after[i].availableCopies == b.availableCopies - 1;
        } else {
          assert after[i] == books[i];
        }
      }
      assert CopiesNonNegative(after);
    } else {
      var k :| 0 <= k < |books| && books[k] == b;
      assert after[k].availableCopies == b.availableCopies - 1 < 0;
      assert !CopiesNonNegative(after);
    }
  }

  /** Return writes "count plus one" with no upper bound: the counts stay
      within the totals exactly when a copy was out. */
  lemma ReturnKeepsCopiesIff(books: seq<BookRow>, bookId: string)
    requires DistinctBy(books, BookKey) && CopiesInRange(books)
    requires FindBook(books, bookId).Some?
    ensures CopiesInRange(SetAvailable(books, bookId, FindBook(books, bookId).value.availableCopies + 1))
        <==> FindBook(books, bookId).value.availableCopies < FindBook(books, bookId).value.totalCopies
  {
    var b := FindBook(books, bookId).value;
    FoundIsOnlyMatch(books, bookId);
    ReturnBumpsFound(books, bookId, b);
    if b.availableCopies < b.totalCopies {
      ReturnStaysInRange(books, bookId, b);
    }
  }

  /** The found row's count goes one past its old value. */
  lemma ReturnBumpsFound(books: seq<BookRow>, bookId: string, b: BookRow)
    requires b in books && b.id == bookId
    ensures var after := SetAvailable(books, bookId, b.availableCopies + 1);
      exists k :: 0 <= k < |after| && after[k].availableCopies == b.availableCopies + 1
        && after[k].totalCopies == b.totalCopies
  {
    var after := SetAvailable(books, bookId, b.availableCopies + 1);
    var k :| 0 <= k < |books| && books[k] == b;
    assert after[k].availableCopies == b.availableCopies + 1 && after[k].totalCopies == b.totalCopies;
  }

  /** With one row per id and a copy out, the bumped table stays in range. */
  lemma ReturnStaysInRange(books: seq<BookRow>, bookId: string, b: BookRow)
    requires CopiesInRange(books)
    requires forall i :: 0 <= i < |books| && books[i].id == bookId ==> books[i] == b
    requires b.availableCopies < b.totalCopies
    ensures CopiesInRange(SetAvailable(books, bookId, b.availableCopies + 1))
  {
    var after := SetAvailable(books, bookId, b.availableCopies + 1);
    forall i | 0 <= i < |after| ensures 0 <= after[i].availableCopies <= after[i].totalCopies {
      if books[i].id == bookId { assert books[i] == b; }
    }
  }

  /** Confirm followed by return on the same existing book gives every book
      its old count back: the book's count goes down and up by one and no
      other book is touched. */
  lemma ConfirmThenReturnRestoresCopies(books: seq<BookRow>, bookId: string)
    requires DistinctBy(books, BookKey)
    requires FindBook(books, bookId).Some?
    ensures var mid := SetAvailable(books, bookId, FindBook(books, bookId).value.availableCopies - 1);
      && FindBook(mid, bookId).Some?
      && SetAvailable(mid, bookId, FindBook(mid, bookId).value.availableCopies + 1) == books
  {
    var b := FindBook(books, bookId).value;
    var mid := SetAvailable(books, bookId, b.availableCopies - 1);
    FoundIsOnlyMatch(books, bookId);
    FoundIsOnlyMatch(mid, bookId);
    var m := FindBook(mid, bookId).value;
    assert m.availableCopies == b.availableCopies - 1;
    var after := SetAvailable(mid, bookId, m.availableCopies + 1);
    forall i | 0 <= i < |books| ensures after[i] == books[i] {
      if books[i].id == bookId {
        assert books[i] == b;
      }
    }
  }

  /** With distinct ids, the row found for an id is every row with that id. */
  lemma FoundIsOnlyMatch(books: seq<BookRow>, bookId: string)
    requires DistinctBy(books, BookKey)
    requires FindBook(books, bookId).Some?
    ensures forall i :: 0 <= i < |books| && books[i].id == bookId ==> books[i] == FindBook(books, bookId).value
  {
    var b := FindBook(books, bookId).value;
    var k :| 0 <= k < |books| && books[k] == b;
  }

  /** Confirm marks every row of the pair ISSUED whatever its status was,
      so a RETURNED record is reopened; other pairs' rows are untouched. */
  lemma ConfirmMarksWholePair(txs: seq<TransactionRow>, studentReg: string, bookId: string, now: Time)
    ensures forall t :: t in RowsOfPair(MarkIssued(txs, studentReg, bookId, now), studentReg, bookId) ==>
      t.status == Issued && t.borrowedDate == Some(now)
    ensures forall i :: 0 <= i < |txs| && !OfPair(txs[i], studentReg, bookId) ==>
      MarkIssued(txs, studentReg, bookId, now)[i] == txs[i]
    ensures forall i :: 0 <= i < |txs| ==> MarkIssued(txs, studentReg, bookId, now)[i].id == txs[i].id
  {
    var after := MarkIssued(txs, studentReg, bookId, now);
    forall t | t in RowsOfPair(after, studentReg, bookId) ensures t.status == Issued && t.borrowedDate == Some(now) {
      var k :| 0 <= k < |after| && after[k] == t;
    }
  }

  /** Return marks every row of the pair RETURNED with the return date,
      whatever its status was; other pairs' rows are untouched. */
  lemma ReturnMarksWholePair(txs: seq<TransactionRow>, studentReg: string, bookId: string, now: Time)
    ensures forall t :: t in RowsOfPair(MarkReturned(txs, studentReg, bookId, now), studentReg, bookId) ==>
      t.status == Returned && t.returnDate == Some(now)
    ensures forall i :: 0 <= i < |txs| && !OfPair(txs[i], studentReg, bookId) ==>
      MarkReturned(txs, studentReg, bookId, now)[i] == txs[i]
  {
    var after := MarkReturned(txs, studentReg, bookId, now);
    forall t | t in RowsOfPair(after, studentReg, bookId) ensures t.status == Returned && t.returnDate == Some(now) {
      var k :| 0 <= k < |after| && after[k] == t;
    }
  }

  /** Confirm reopens every record of the pair, so from a table with one
      open record per pair it keeps that property exactly when the pair had
      at most one record at all: a RETURNED history row becomes a second
      ISSUED one. */
  lemma ConfirmKeepsUniquenessIff(txs: seq<TransactionRow>, studentReg: string, bookId: string, now: Time)
    requires AtMostOneOpenPerPair(txs)
    ensures AtMostOneOpenPerPair(MarkIssued(txs, studentReg, bookId, now))
        <==> AtMostOneRowOfPair(txs, studentReg, bookId)
  {
    var after := MarkIssued(txs, studentReg, bookId, now);
    if !AtMostOneRowOfPair(txs, studentReg, bookId) {
      var i, j :| 0 <= i < j < |txs| && OfPair(txs[i], studentReg, bookId) && OfPair(txs[j], studentReg, bookId);
      assert IsOpen(after[i]) && IsOpen(after[j]) && OfPair(after[j], after[i].studentReg, after[i].bookId);
    } else {
      forall i, j | 0 <= i < j < |after| && IsOpen(after[i]) && IsOpen(after[j])
        ensures !OfPair(after[j], after[i].studentReg, after[i].bookId)
      {
        if OfPair(txs[i], studentReg, bookId) {
          assert !OfPair(txs[j], studentReg, bookId);
        } else if !OfPair(txs[j], studentReg, bookId) {
          assert after[i] == txs[i] && after[j] == txs[j];
        }
      }
    }
  }

  /** Return closes every record of the pair and touches no other, so it
      always keeps one open record per pair. */
  lemma ReturnKeepsUniqueness(txs: seq<TransactionRow>, studentReg: string, bookId: string, now: Time)
    requires AtMostOneOpenPerPair(txs)
    ensures AtMostOneOpenPerPair(MarkReturned(txs, studentReg, bookId, now))
  {
    var after := MarkReturned(txs, studentReg, bookId, now);
    forall i, j | 0 <= i < j < |after| && IsOpen(after[i]) && IsOpen(after[j])
      ensures !OfPair(after[j], after[i].studentReg, after[i].bookId)
    {
      assert after[i] == txs[i] && after[j] == txs[j];
    }
  }
}
