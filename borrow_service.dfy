/** The lending orchestrator (`borrowService`). Each method guards its call
    to the lending repository with a condition over the results of the
    student and book lookups, but those lookups are started without being
    awaited, so the condition sees two pending promises (objects) and its
    value never depends on whether the student or the book exists. */
module BorrowService {
  import opened Common
  import opened Schema
  import opened Transactions
  import opened BorrowRepository

  /** The JavaScript values the guards can see. */
  datatype JsValue = Undefined | Null | Bool(b: bool) | Object

  /** JavaScript truthiness; every object, a pending promise included, is
      truthy. */
  predicate Truthy(v: JsValue) {
    match v
    case Undefined => false
    case Null => false
    case Bool(b) => b
    case Object => true
  }

  /** `!v`. */
  function Not(v: JsValue): (r: JsValue)
    ensures r.Bool? && (r.b <==> !Truthy(v))
  {
    Bool(!Truthy(v))
  }

  /** `v != null`: loose inequality, false only for null and undefined. */
  predicate LooselyNotNull(v: JsValue) {
    !v.Null? && !v.Undefined?
  }

  /** What an async lookup called without `await` evaluates to. */
  const Pending: JsValue := Object

  /** `requestNewBook`'s condition on the student lookup `s` and the book
      lookup `b`: `s != null && !b != null`. */
  predicate RequestGuard(s: JsValue, b: JsValue) {
    LooselyNotNull(s) && LooselyNotNull(Not(b))
  }

  /** The condition of `confirmBookRequest` and `returnBook`:
      `!s && !b`. */
  predicate ConfirmGuard(s: JsValue, b: JsValue) {
    !Truthy(s) && !Truthy(b)
  }

  /** The request guard ignores the book lookup entirely (`!b` is a
      boolean, never null) and passes any pending student lookup. */
  lemma RequestGuardIgnoresLookups(b: JsValue)
    ensures RequestGuard(Pending, b)
    ensures RequestGuard(Object, Null) && RequestGuard(Object, Undefined)
  {
  }

  /** Even awaited, the request guard would still not look at the book. */
  lemma RequestGuardNeverChecksBook(s: JsValue, b: JsValue)
    ensures RequestGuard(s, b) <==> LooselyNotNull(s)
  {
  }

  /** The confirm and return guard fails whenever the student lookup is a
      promise, whatever the book lookup is. */
  lemma ConfirmGuardNeverHolds(b: JsValue)
    ensures !ConfirmGuard(Pending, b)
  {
  }

  /** Even awaited, the confirm and return guard would hold only when
      neither the student nor the book was found. */
  lemma ConfirmGuardIsInverted(s: JsValue, b: JsValue)
    ensures ConfirmGuard(s, b) ==> !Truthy(s) && !Truthy(b)
    ensures Truthy(s) || Truthy(b) ==> !ConfirmGuard(s, b)
  {
  }

  class BorrowServices {
    const repo: TransactionRepository

    constructor (repo: TransactionRepository)
      ensures this.repo == repo
    {
      this.repo := repo;
    }

    /** `requestNewBook`: the guard always passes, so the request goes to
        `RequestANewBook` unchanged; whether the student exists plays no
        part, and a failure inside becomes None. */
    method RequestNewBook(bookId: string, studentReg: string, now: Time, fault: Fault)
      returns (r: Option<TransactionSummary>)
      requires repo.db.Valid()
      modifies repo.db
      ensures repo.db.Valid()
      ensures repo.db.books == old(repo.db.books) && repo.db.students == old(repo.db.students)
      ensures repo.db.librarians == old(repo.db.librarians)
      ensures FindBook(old(repo.db.books), bookId).Some? && Runs(fault, 1) ==>
        && repo.db.transactions == old(repo.db.transactions) + [RequestRow(old(repo.db.nextTransactionId), bookId, studentReg, now)]
        && repo.db.nextTransactionId == old(repo.db.nextTransactionId) + 1
      ensures !(FindBook(old(repo.db.books), bookId).Some? && Runs(fault, 1)) ==>
        repo.db.transactions == old(repo.db.transactions) && repo.db.nextTransactionId == old(repo.db.nextTransactionId)
      ensures r.Some? <==> FindBook(old(repo.db.books), bookId).Some? && Runs(fault, 2)
      ensures r.Some? ==>
        && RowsOfPair(repo.db.transactions, studentReg, bookId) != []
        && r.value == Summary(RowsOfPair(repo.db.transactions, studentReg, bookId)[0])
    {
      if !RequestGuard(Pending, Pending) {
        // "Book or Student not exist" would be thrown and caught here
        assert false;
      }
      r := repo.RequestANewBook(bookId, studentReg, now, fault);
    }

    /** `confirmBookRequest`: the guard never passes, so the thrown error is
        caught and the answer is None; no table is touched. */
    method ConfirmBookRequest(bookId: string, studentReg: string, now: Time, fault: Fault)
      returns (r: Option<TransactionSummary>)
      ensures r.None?
    {
      if ConfirmGuard(Pending, Pending) {
        // `ConfirmRequestForBook` would run here
        assert false;
      }
      r := None;
    }

    /** `returnBook`: like `confirmBookRequest`, always None and no write. */
    method ReturnBook(bookId: string, studentReg: string, now: Time, fault: Fault)
      returns (r: Option<seq<ReturnSummary>>)
      ensures r.None?
    {
      if ConfirmGuard(Pending, Pending) {
        // `ReturnBorrowedBook` would run here
        assert false;
      }
      r := None;
    }
  }
}
