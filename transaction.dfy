/** The lending record (`Transaction`): its status enumeration and the
    constructor that fills in defaults for a partial record. */
module Transactions {
  import opened Common

  /** A point in time in milliseconds; "now" is always a parameter. */
  type Time = int

  /** The four statuses a lending record can carry. */
  datatype Status = Issued | Returned | Overdue | Requested

  /** The status as the database and the API spell it. */
  function StatusName(s: Status): (name: string)
    ensures |name| >= 6
  {
    match s
    case Issued => "ISSUED"
    case Returned => "RETURNED"
    case Overdue => "OVERDUE"
    case Requested => "REQUESTED"
  }

  /** Reads a spelled-out status; any other text is not a status. */
  function ParseStatus(name: string): (s: Option<Status>)
    ensures s.Some? ==> StatusName(s.value) == name
  {
    if name == "ISSUED" then Some(Issued)
    else if name == "RETURNED" then Some(Returned)
    else if name == "OVERDUE" then Some(Overdue)
    else if name == "REQUESTED" then Some(Requested)
    else None
  }

  /** Spelling a status and reading it back gives the same status, so two
      statuses never share a spelling. */
  lemma ParseStatusName(s: Status)
    ensures ParseStatus(StatusName(s)) == Some(s)
  {
  }

  /** The constructor's argument: every field may be missing. */
  datatype TransactionData = TransactionData(
    id: Option<string>,
    studentReg: Option<string>,
    bookId: Option<string>,
    librarianId: Option<string>,
    borrowedDate: Option<Time>,
    dueDate: Option<Time>,
    returnDate: Option<Time>,
    createdAt: Option<Time>,
    status: Option<Status>,
    lateFee: Option<int>)

  /** A constructed record. */
  datatype Transaction = Transaction(
    id: Option<string>,
    studentReg: string,
    bookId: string,
    librarianId: Option<string>,
    borrowedDate: Time,
    dueDate: Time,
    returnDate: Option<Time>,
    createdAt: Time,
    status: Status,
    lateFee: int)

  /** JavaScript truthiness of an optional string: present and non-empty. */
  predicate TruthyString(v: Option<string>) {
    v.Some? && v.value != ""
  }

  /** JavaScript truthiness of an optional number: present and non-zero. */
  predicate TruthyNumber(v: Option<int>) {
    v.Some? && v.value != 0
  }

  /** `new Transaction(data)` at time `now`: `x || default` for the two keys
      and the fee, `x ? new Date(x) : new Date()` for the dates (a date is
      always truthy), `status || 'REQUESTED'`; id and librarianId are copied. */
  function NewTransaction(data: TransactionData, now: Time): (t: Transaction)
    ensures t.studentReg == data.studentReg.GetOr("") && t.bookId == data.bookId.GetOr("")
    ensures t.lateFee == data.lateFee.GetOr(0)
    ensures t.status == Requested <==> data.status.None? || data.status == Some(Requested)
    ensures data.status.Some? ==> t.status == data.status.value
    ensures t.returnDate == data.returnDate
    ensures data.borrowedDate.Some? ==> t.borrowedDate == data.borrowedDate.value
    ensures data.borrowedDate.None? ==> t.borrowedDate == now
    ensures data.dueDate.Some? ==> t.dueDate == data.dueDate.value
    ensures data.dueDate.None? ==> t.dueDate == now
    ensures data.createdAt.Some? ==> t.createdAt == data.createdAt.value
    ensures data.createdAt.None? ==> t.createdAt == now
    ensures t.id == data.id && t.librarianId == data.librarianId
  {
    Transaction(
      id := data.id,
      studentReg := if TruthyString(data.studentReg) then data.studentReg.value else "",
      bookId := if TruthyString(data.bookId) then data.bookId.value else "",
      librarianId := data.librarianId,
      borrowedDate := if data.borrowedDate.Some? then data.borrowedDate.value else now,
      dueDate := if data.dueDate.Some? then data.dueDate.value else now,
      returnDate := if data.returnDate.Some? then Some(data.returnDate.value) else None,
      createdAt := if data.createdAt.Some? then data.createdAt.value else now,
      status := if data.status.Some? then data.status.value else Requested,
      lateFee := if TruthyNumber(data.lateFee) then data.lateFee.value else 0)
  }

  /** A record seen again as constructor input. */
  function AsData(t: Transaction): TransactionData {
    TransactionData(t.id, Some(t.studentReg), Some(t.bookId), t.librarianId,
                    Some(t.borrowedDate), Some(t.dueDate), t.returnDate,
                    Some(t.createdAt), Some(t.status), Some(t.lateFee))
  }

  /** The defaults are fixed points: rebuilding a constructed record, at any
      time, changes nothing. */
  lemma RebuildUnchanged(t: Transaction, later: Time)
    ensures NewTransaction(AsData(t), later) == t
  {
  }
}
