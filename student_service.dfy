/** The student service (`StudentService`): the ownership check in front of
    the profile operations, the paged listing, and issuing a student's QR
    code. The caller's id and role are explicit parameters. */
module StudentService {
  import opened Common
  import opened Schema
  import opened Transactions
  import opened StudentRepository
  import QRCode

  /** `userId && id !== userId`: a caller id that is present and non-empty
      and names someone else. The caller's role plays no part. */
  predicate OwnershipRefused(id: string, userId: Option<string>): (refused: bool)
    ensures userId.None? || userId == Some("") ==> !refused
    ensures userId == Some(id) ==> !refused
    ensures refused ==> userId.Some? && userId.value != id
  {
    userId.Some? && userId.value != "" && id != userId.value
  }

  /** `getAll`'s answer: the repository's page with page and limit echoed. */
  datatype StudentListing = StudentListing(students: seq<Student>, total: nat, page: int, limit: int)

  /** The partial student `generateQRCode` writes: only the code. */
  function QRCodeOnly(code: string): (data: StudentData)
    ensures !NoStudentFields(data)
    ensures data.qrCode == Some(code)
  {
    var data := StudentData(None, None, None, None, None, None, None, None, None, Some(code));
    assert StudentFields(data)[9].value.Some?;
    data
  }

  class StudentServices {
    const repo: StudentRepository

    constructor (repo: StudentRepository)
      ensures this.repo == repo
    {
      this.repo := repo;
    }

    /** `getAll({page, limit})`: no search, page and limit echoed unchanged. */
    method GetAll(page: int, limit: int) returns (r: Result<StudentListing>)
      ensures r.Err? <==> limit < 0 || Offset(page, limit) < 0
      ensures r.Ok? ==> r.value.page == page && r.value.limit == limit
      ensures r.Ok? ==> r.value.total == |repo.db.students|
      ensures r.Ok? ==>
        r.value.students == StudentsOf(Page(NewestStudentsFirst(repo.db.students), Offset(page, limit), limit))
    {
      var found := repo.FindAll(page, limit, None);
      if found.Err? {
        return Err(found.message);
      }
      r := Ok(StudentListing(found.value.students, found.value.total, page, limit));
    }

    /** `getById(id, userId, role)`: refused before any lookup when the
        caller is someone else; otherwise the repository lookup, without
        the password. */
    method GetById(id: string, userId: Option<string>, role: Option<string>) returns (r: Result<Option<Student>>)
      ensures r.Err? <==> OwnershipRefused(id, userId)
      ensures r.Err? ==> r.message == "You can only view your own profile"
      ensures r.Ok? ==> r.value == FindStudent(repo.db.students, id, false)
    {
      if OwnershipRefused(id, userId) {
        return Err("You can only view your own profile");
      }
      var s := repo.FindById(id, false);
      r := Ok(s);
    }

    /** `update(id, dto, userId, role)`: refused, with nothing written, when
        the caller is someone else; otherwise the repository update, the
        password stored as given. */
    method Update(id: string, data: StudentData, userId: Option<string>, role: Option<string>)
      returns (r: Result<Option<Student>>)
      requires repo.db.Valid()
      modifies repo.db
      ensures repo.db.Valid()
      ensures repo.db.books == old(repo.db.books) && repo.db.transactions == old(repo.db.transactions)
      ensures repo.db.librarians == old(repo.db.librarians)
      ensures repo.db.nextTransactionId == old(repo.db.nextTransactionId)
      ensures r.Err? <==> OwnershipRefused(id, userId)
      ensures r.Err? ==> r.message == "You can only update your own profile"
      ensures r.Err? || NoStudentFields(data) ==> repo.db.students == old(repo.db.students)
      ensures r.Ok? && !NoStudentFields(data) ==> repo.db.students == PatchStudents(old(repo.db.students), id, data)
      ensures r.Ok? && NoStudentFields(data) ==> r.value == FindStudent(repo.db.students, id, false)
      ensures r.Ok? && !NoStudentFields(data)
        && (forall i :: 0 <= i < |old(repo.db.students)| ==> !Addressed(old(repo.db.students)[i], id))
        ==> r.value.None?
      ensures r.Ok? && !NoStudentFields(data)
        && (exists i :: 0 <= i < |old(repo.db.students)| && Addressed(old(repo.db.students)[i], id))
        ==> r.value == FindStudent(repo.db.students, id, false)
    {
      if OwnershipRefused(id, userId) {
        return Err("You can only update your own profile");
      }
      var s := repo.Update(id, data);
      r := Ok(s);
    }

    /** `generateQRCode(id, userId, role)` at time `now`: refused when the
        caller is someone else; null for an unknown student; otherwise a
        code built from the student's registration number, written through
        `update(id, { qrCode })`, and returned. */
    method GenerateQRCode(id: string, userId: Option<string>, role: Option<string>, now: nat)
      returns (r: Result<Option<string>>)
      requires repo.db.Valid()
      modifies repo.db
      ensures repo.db.Valid()
      ensures repo.db.books == old(repo.db.books) && repo.db.transactions == old(repo.db.transactions)
      ensures repo.db.librarians == old(repo.db.librarians)
      ensures repo.db.nextTransactionId == old(repo.db.nextTransactionId)
      ensures r.Err? <==> OwnershipRefused(id, userId)
      ensures r.Err? ==> r.message == "You can only generate your own QR code"
      ensures r.Ok? && r.value.None? <==> !OwnershipRefused(id, userId) && FindStudent(old(repo.db.students), id, false).None?
      ensures r.Err? || r.value.None? ==> repo.db.students == old(repo.db.students)
      ensures r.Ok? && r.value.Some? ==>
        && r.value.value == QRCode.Generate(FindStudent(old(repo.db.students), id, false).value.Registration, now)
        && repo.db.students == PatchStudents(old(repo.db.students), id, QRCodeOnly(r.value.value))
    {
      if OwnershipRefused(id, userId) {
        return Err("You can only generate your own QR code");
      }
      var student := repo.FindById(id, false);
      if student.None? {
        return Ok(None);
      }
      var code := QRCode.Generate(student.value.Registration, now);
      var written := repo.Update(id, QRCodeOnly(code));
      r := Ok(Some(code));
    }
  }

  /** The issued code carries the registration number it was built from. */
  lemma IssuedCodeDecodesToRegistration(s: Student, now: nat)
    ensures QRCode.Decode(QRCode.Generate(s.Registration, now)) == Some(s.Registration)
  {
    QRCode.DecodeGenerate(s.Registration, now);
  }

  /** A student reached by id gets the code stored on their own row. */
  lemma IssuedCodeIsStored(rows: seq<StudentRow>, k: nat, code: string)
    requires k < |rows|
    ensures PatchStudents(rows, rows[k].id, QRCodeOnly(code))[k].qrCode == Some(code)
  {
  }

  /** A caller may be refused their own record: a student found by their
      Roll is refused when the caller's id is that student's id, since the
      check compares the raw key and not the student it names. */
  lemma OwnRecordByRollIsRefused(row: StudentRow)
    requires row.Roll != row.id && row.id != ""
    ensures FindStudent([row], row.Roll, false).Some?
    ensures OwnershipRefused(row.Roll, Some(row.id))
  {
    assert Identifies([row][0], row.Roll);
  }
}
