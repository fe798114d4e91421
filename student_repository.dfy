/** The `students` table operations (`MySQLStudentRepository`): create with
    defaults, lookup by any of four identifiers, lookup by QR code, the
    partial update with its dynamically built `SET` list, delete, and the
    paged listing, newest first. Passwords leave the table only on request. */
module StudentRepository {
  import opened Common
  import opened Schema
  import opened Transactions
  import opened UpdateClause

  /** A student as the repository returns it; `Password` is absent unless
      asked for. */
  datatype Student = Student(
    id: string,
    Name: string,
    Roll: string,
    Registration: string,
    Department: string,
    Session: string,
    ContactNumber: string,
    Address: string,
    Email: string,
    Password: Option<string>,
    qrCode: Option<string>)

  /** A partial student: the argument of `create` and `update`. */
  datatype StudentData = StudentData(
    Name: Option<string>,
    Roll: Option<string>,
    Registration: Option<string>,
    Department: Option<string>,
    Session: Option<string>,
    ContactNumber: Option<string>,
    Address: Option<string>,
    Email: Option<string>,
    Password: Option<string>,
    qrCode: Option<string>)

  // ---------------------------------------------------------------------
  // Reading rows back
  // ---------------------------------------------------------------------

  /** `mapRowToStudent(row, includePassword)`. */
  function StudentOf(row: StudentRow, includePassword: bool): (s: Student)
    ensures s.Password.Some? <==> includePassword
    ensures includePassword ==> s.Password == Some(row.Password)
    ensures s.id == row.id && s.Roll == row.Roll && s.Registration == row.Registration
    ensures s.Email == row.Email && s.qrCode == row.qrCode
    ensures s.Name == row.Name && s.Department == row.Department && s.Session == row.Session
    ensures s.ContactNumber == row.ContactNumber && s.Address == row.Address
  {
    Student(row.id, row.Name, row.Roll, row.Registration, row.Department, row.Session,
            row.ContactNumber, row.Address, row.Email,
            if includePassword then Some(row.Password) else None, row.qrCode)
  }

  /** `rows.map(row => mapRowToStudent(row))`: no passwords. */
  function StudentsOf(rows: seq<StudentRow>): (r: seq<Student>)
    ensures |r| == |rows|
    ensures forall i :: 0 <= i < |rows| ==> r[i] == StudentOf(rows[i], false) && r[i].Password.None?
  {
    seq(|rows|, i requires 0 <= i < |rows| => StudentOf(rows[i], false))
  }

  /** `WHERE Roll = ? OR Registration = ? OR id = ? OR Email = ?`. */
  predicate Identifies(row: StudentRow, key: string) {
    row.Roll == key || row.Registration == key || row.id == key || row.Email == key
  }

  /** `findById(key, includePassword)`: the first row that the key
      identifies in any of the four columns. */
  function FindStudent(rows: seq<StudentRow>, key: string, includePassword: bool): (r: Option<Student>)
    ensures r.None? <==> forall i :: 0 <= i < |rows| ==> !Identifies(rows[i], key)
    ensures r.Some? ==> exists i ::
      && 0 <= i < |rows| && Identifies(rows[i], key)
      && r.value == StudentOf(rows[i], includePassword)
      && forall j :: 0 <= j < i ==> !Identifies(rows[j], key)
    ensures r.Some? ==> (r.value.Password.Some? <==> includePassword)
  {
    var found := First(rows, (row: StudentRow) => Identifies(row, key));
    if found.Some? then Some(StudentOf(found.value, includePassword)) else None
  }

  /** `findByQRCode(qrCode)`: the first row carrying that code. */
  function FindStudentByQRCode(rows: seq<StudentRow>, qrCode: string): (r: Option<Student>)
    ensures r.None? <==> forall i :: 0 <= i < |rows| ==> rows[i].qrCode != Some(qrCode)
    ensures r.Some? ==> r.value.qrCode == Some(qrCode) && r.value.Password.None?
    ensures r.Some? ==> exists i ::
      && 0 <= i < |rows| && rows[i].qrCode == Some(qrCode)
      && r.value == StudentOf(rows[i], false)
      && forall j :: 0 <= j < i ==> rows[j].qrCode != Some(qrCode)
  {
    var found := First(rows, (row: StudentRow) => row.qrCode == Some(qrCode));
    if found.Some? then Some(StudentOf(found.value, false)) else None
  }

  // ---------------------------------------------------------------------
  // Create
  // ---------------------------------------------------------------------

  /** The student `create` builds and returns: every text field `|| ""`,
      the password included, the QR code as given. */
  function NewStudent(data: StudentData, id: string): (s: Student)
    ensures s.id == id && s.Password == Some(data.Password.GetOr(""))
    ensures s.Name == data.Name.GetOr("") && s.Roll == data.Roll.GetOr("")
    ensures s.Registration == data.Registration.GetOr("") && s.Email == data.Email.GetOr("")
    ensures s.qrCode == data.qrCode
    ensures s.Department == data.Department.GetOr("") && s.Session == data.Session.GetOr("")
    ensures s.ContactNumber == data.ContactNumber.GetOr("") && s.Address == data.Address.GetOr("")
  {
    Student(id, data.Name.GetOr(""), data.Roll.GetOr(""), data.Registration.GetOr(""),
            data.Department.GetOr(""), data.Session.GetOr(""), data.ContactNumber.GetOr(""),
            data.Address.GetOr(""), data.Email.GetOr(""), Some(data.Password.GetOr("")), data.qrCode)
  }

  /** The row `create` inserts: the returned student's values, with an
      empty or absent QR code stored as NULL (`qrCode || null`). */
  function NewStudentRow(data: StudentData, id: string, now: Time): (row: StudentRow)
    ensures row.qrCode.None? <==> data.qrCode.None? || data.qrCode == Some("")
    ensures row.qrCode.Some? ==> row.qrCode == data.qrCode
    ensures StudentOf(row, true) == NewStudent(data, id).(qrCode := row.qrCode)
  {
    var s := NewStudent(data, id);
    StudentRow(id, s.Name, s.Roll, s.Registration, s.Department, s.Session, s.ContactNumber,
               s.Address, s.Email, s.Password.value,
               if data.qrCode.Some? && data.qrCode.value != "" then data.qrCode else None, now)
  }

  // ---------------------------------------------------------------------
  // Update
  // ---------------------------------------------------------------------

  /** The ten keys `update` looks at, in the order it looks at them. */
  function StudentFields(data: StudentData): (fields: seq<Field>)
    ensures |fields| == 10
  {
    [Field("Name", data.Name), Field("Roll", data.Roll), Field("Registration", data.Registration),
     Field("Department", data.Department), Field("Session", data.Session),
     Field("ContactNumber", data.ContactNumber), Field("Address", data.Address),
     Field("Email", data.Email), Field("Password", data.Password), Field("qrCode", data.qrCode)]
  }

  /** No key is defined. */
  predicate NoStudentFields(data: StudentData) {
    forall i :: 0 <= i < |StudentFields(data)| ==> StudentFields(data)[i].value.None?
  }

  /** The `if (data.x !== undefined)` chain of `update`: builds the `SET`
      items and the values one key at a time, in field order. */
  method BuildStudentUpdate(data: StudentData) returns (updates: seq<string>, values: seq<string>)
    ensures updates == SetList(StudentFields(data)) && values == ValueList(StudentFields(data))
    ensures updates == [] <==> NoStudentFields(data)
  {
    ghost var done: seq<Field> := [];
    updates, values := [], [];
    assert Built(done, updates, values);
    updates, values := PushIfDefined(done, updates, values, Field("Name", data.Name));
    done := done + [Field("Name", data.Name)];
    updates, values := PushIfDefined(done, updates, values, Field("Roll", data.Roll));
    done := done + [Field("Roll", data.Roll)];
    updates, values := PushIfDefined(done, updates, values, Field("Registration", data.Registration));
    done := done + [Field("Registration", data.Registration)];
    updates, values := PushIfDefined(done, updates, values, Field("Department", data.Department));
    done := done + [Field("Department", data.Department)];
    updates, values := PushIfDefined(done, updates, values, Field("Session", data.Session));
    done := done + [Field("Session", data.Session)];
    updates, values := PushIfDefined(done, updates, values, Field("ContactNumber", data.ContactNumber));
    done := done + [Field("ContactNumber", data.ContactNumber)];
    updates, values := PushIfDefined(done, updates, values, Field("Address", data.Address));
    done := done + [Field("Address", data.Address)];
    updates, values := PushIfDefined(done, updates, values, Field("Email", data.Email));
    done := done + [Field("Email", data.Email)];
    updates, values := PushIfDefined(done, updates, values, Field("Password", data.Password));
    done := done + [Field("Password", data.Password)];
    updates, values := PushIfDefined(done, updates, values, Field("qrCode", data.qrCode));
    done := done + [Field("qrCode", data.qrCode)];
    var fields := StudentFields(data);
    assert done == fields;
    assert Built(fields, updates, values);
    ClauseEmptyIffNoneDefined(fields);
  }

  /** `WHERE id = ? or Roll = ? or Registration = ?`: unlike the lookup,
      the e-mail column is not consulted. */
  predicate Addressed(row: StudentRow, key: string) {
    row.id == key || row.Roll == key || row.Registration == key
  }

  /** One row after `SET ...`: the defined keys take their values (the
      password as given, not hashed); id and creation time stay. */
  function PatchedStudent(row: StudentRow, data: StudentData): (r: StudentRow)
    ensures r.id == row.id && r.createdAt == row.createdAt
    ensures r.Name == data.Name.GetOr(row.Name) && r.Roll == data.Roll.GetOr(row.Roll)
    ensures r.Registration == data.Registration.GetOr(row.Registration)
    ensures r.Department == data.Department.GetOr(row.Department) && r.Session == data.Session.GetOr(row.Session)
    ensures r.ContactNumber == data.ContactNumber.GetOr(row.ContactNumber)
    ensures r.Address == data.Address.GetOr(row.Address)
    ensures r.Email == data.Email.GetOr(row.Email) && r.Password == data.Password.GetOr(row.Password)
    ensures r.qrCode == (if data.qrCode.Some? then data.qrCode else row.qrCode)
    ensures NoStudentFields(data) ==> r == row
  {
    assert StudentFields(data)[0].value == data.Name && StudentFields(data)[1].value == data.Roll;
    assert StudentFields(data)[2].value == data.Registration && StudentFields(data)[3].value == data.Department;
    assert StudentFields(data)[4].value == data.Session && StudentFields(data)[5].value == data.ContactNumber;
    assert StudentFields(data)[6].value == data.Address && StudentFields(data)[7].value == data.Email;
    assert StudentFields(data)[8].value == data.Password && StudentFields(data)[9].value == data.qrCode;
    StudentRow(
      row.id,
      data.Name.GetOr(row.Name),
      data.Roll.GetOr(row.Roll),
      data.Registration.GetOr(row.Registration),
      data.Department.GetOr(row.Department),
      data.Session.GetOr(row.Session),
      data.ContactNumber.GetOr(row.ContactNumber),
      data.Address.GetOr(row.Address),
      data.Email.GetOr(row.Email),
      data.Password.GetOr(row.Password),
      if data.qrCode.Some? then data.qrCode else row.qrCode,
      row.createdAt)
  }

  /** `UPDATE students SET ... WHERE id = ? or Roll = ? or Registration = ?`. */
  function PatchStudents(rows: seq<StudentRow>, key: string, data: StudentData): (r: seq<StudentRow>)
    ensures |r| == |rows|
    ensures forall i :: 0 <= i < |rows| ==>
      r[i] == if Addressed(rows[i], key) then PatchedStudent(rows[i], data) else rows[i]
  {
    seq(|rows|, i requires 0 <= i < |rows| =>
      if Addressed(rows[i], key) then PatchedStudent(rows[i], data) else rows[i])
  }

  /** A patch never touches the key column, so keys stay unique. */
  lemma PatchKeepsStudentKeys(rows: seq<StudentRow>, key: string, data: StudentData)
    requires DistinctBy(rows, StudentKey)
    ensures DistinctBy(PatchStudents(rows, key, data), StudentKey)
  {
    var after := PatchStudents(rows, key, data);
    assert forall i :: 0 <= i < |rows| ==> after[i].id == rows[i].id;
  }

  // ---------------------------------------------------------------------
  // Delete and list
  // ---------------------------------------------------------------------

  predicate HasStudentId(rows: seq<StudentRow>, id: string) {
    exists i :: 0 <= i < |rows| && rows[i].id == id
  }

  /** `DELETE FROM students WHERE id = ?`. */
  function WithoutStudent(rows: seq<StudentRow>, id: string): (r: seq<StudentRow>)
    ensures !HasStudentId(r, id)
    ensures forall row :: row in r <==> row in rows && row.id != id
    ensures HasStudentId(rows, id) ==> |r| < |rows|
  {
    var r := Filter(rows, (row: StudentRow) => row.id != id);
    assert forall i :: 0 <= i < |r| ==> r[i] in r;
    if HasStudentId(rows, id) then
      var k :| 0 <= k < |rows| && rows[k].id == id;
      FilterDropsSome(rows, (row: StudentRow) => row.id != id, rows[k]);
      r
    else r
  }

  /** `Name LIKE ? OR Roll LIKE ? OR Registration LIKE ? OR Department LIKE ?`. */
  predicate StudentMatches(row: StudentRow, q: string) {
    Contains(row.Name, q) || Contains(row.Roll, q) || Contains(row.Registration, q) || Contains(row.Department, q)
  }

  /** The rows `findAll` counts and pages. */
  function ListedStudents(rows: seq<StudentRow>, search: Option<string>): (r: seq<StudentRow>)
    ensures search.None? || search.value == "" ==> r == rows
    ensures search.Some? && search.value != "" ==>
      forall row :: row in r <==> row in rows && StudentMatches(row, search.value)
  {
    if search.Some? && search.value != "" then Filter(rows, (row: StudentRow) => StudentMatches(row, search.value))
    else rows
  }

  /** `ORDER BY created_at DESC`. */
  predicate NewerOrSame(a: StudentRow, b: StudentRow) {
    a.createdAt >= b.createdAt
  }

  /** The listed rows, newest first. */
  function NewestStudentsFirst(rows: seq<StudentRow>): (r: seq<StudentRow>)
    ensures multiset(r) == multiset(rows)
    ensures forall i, j :: 0 <= i < j < |r| ==> r[i].createdAt >= r[j].createdAt
  {
    assert IsTotalPreorder(NewerOrSame);
    var r := SortBy(rows, NewerOrSame);
    assert SortedBy(r, NewerOrSame);
    r
  }

  /** `findAll`'s answer. */
  datatype StudentPage = StudentPage(students: seq<Student>, total: nat)

  // ---------------------------------------------------------------------
  // The repository
  // ---------------------------------------------------------------------

  class StudentRepository {
    const db: Database

    constructor (db: Database)
      ensures this.db == db
    {
      this.db := db;
    }

    /** `create(data)` with the drawn uuid `id` at time `now`; an id already
        in the table is a duplicate-key error. */
    method Create(data: StudentData, id: string, now: Time) returns (r: Result<Student>)
      requires db.Valid()
      modifies db
      ensures db.Valid()
      ensures db.books == old(db.books) && db.transactions == old(db.transactions)
      ensures db.librarians == old(db.librarians) && db.nextTransactionId == old(db.nextTransactionId)
      ensures r.Err? <==> HasStudentId(old(db.students), id)
      ensures r.Err? ==> db.students == old(db.students)
      ensures r.Ok? ==> r.value == NewStudent(data, id)
      ensures r.Ok? ==> db.students == old(db.students) + [NewStudentRow(data, id, now)]
    {
      if exists i :: 0 <= i < |db.students| && db.students[i].id == id {
        return Err("Duplicate entry for key 'PRIMARY'");
      }
      var row := NewStudentRow(data, id, now);
      DistinctByAppend(db.students, row, StudentKey);
      db.students := db.students + [row];
      r := Ok(NewStudent(data, id));
    }

    /** `findById(key, includePassword)`. */
    method FindById(key: string, includePassword: bool) returns (r: Option<Student>)
      ensures r == FindStudent(db.students, key, includePassword)
    {
      r := FindStudent(db.students, key, includePassword);
    }

    /** `findByQRCode(qrCode)`. */
    method FindByQRCode(qrCode: string) returns (r: Option<Student>)
      ensures r == FindStudentByQRCode(db.students, qrCode)
    {
      r := FindStudentByQRCode(db.students, qrCode);
    }

    /** `update(key, data)`: with no defined key, a plain lookup; otherwise
        every row whose id, Roll or Registration is the key is written, the
        answer is null when none was, and else the lookup of the key in the
        written table. */
    method Update(key: string, data: StudentData) returns (r: Option<Student>)
      requires db.Valid()
      modifies db
      ensures db.Valid()
      ensures db.books == old(db.books) && db.transactions == old(db.transactions)
      ensures db.librarians == old(db.librarians) && db.nextTransactionId == old(db.nextTransactionId)
      ensures NoStudentFields(data) ==> db.students == old(db.students) && r == FindStudent(db.students, key, false)
      ensures !NoStudentFields(data) ==> db.students == PatchStudents(old(db.students), key, data)
      ensures !NoStudentFields(data) && (forall i :: 0 <= i < |old(db.students)| ==> !Addressed(old(db.students)[i], key))
        ==> r.None?
      ensures !NoStudentFields(data) && (exists i :: 0 <= i < |old(db.students)| && Addressed(old(db.students)[i], key))
        ==> r == FindStudent(db.students, key, false)
    {
      var updates, values := BuildStudentUpdate(data);
      if updates == [] {
        r := FindStudent(db.students, key, false);
        return;
      }
      var affected := exists i :: 0 <= i < |db.students| && Addressed(db.students[i], key);
      PatchKeepsStudentKeys(db.students, key, data);
      db.students := PatchStudents(db.students, key, data);
      if !affected {
        return None;
      }
      r := FindStudent(db.students, key, false);
    }

    /** `delete(id)`: by id only; true exactly when a row was removed. */
    method Delete(id: string) returns (removed: bool)
      requires db.Valid()
      modifies db
      ensures db.Valid()
      ensures db.books == old(db.books) && db.transactions == old(db.transactions)
      ensures db.librarians == old(db.librarians) && db.nextTransactionId == old(db.nextTransactionId)
      ensures removed <==> HasStudentId(old(db.students), id)
      ensures db.students == WithoutStudent(old(db.students), id)
    {
      removed := exists i :: 0 <= i < |db.students| && db.students[i].id == id;
      FilterKeepsDistinct(db.students, (row: StudentRow) => row.id != id, StudentKey);
      db.students := WithoutStudent(db.students, id);
    }

    /** `findAll({page, limit, search})`: one page of the listed students,
        newest first and without passwords, and the number of all listed
        students; a negative `LIMIT` or `OFFSET` is an SQL error. */
    method FindAll(page: int, limit: int, search: Option<string>) returns (r: Result<StudentPage>)
      ensures r.Err? <==> limit < 0 || Offset(page, limit) < 0
      ensures r.Ok? ==> r.value.total == |ListedStudents(db.students, search)|
      ensures r.Ok? ==> |r.value.students| <= limit
      ensures r.Ok? ==> forall i :: 0 <= i < |r.value.students| ==> r.value.students[i].Password.None?
      ensures r.Ok? ==>
        r.value.students == StudentsOf(Page(NewestStudentsFirst(ListedStudents(db.students, search)), Offset(page, limit), limit))
    {
      var rows := ListedStudents(db.students, search);
      var offset := Offset(page, limit);
      if limit < 0 || offset < 0 {
        return Err("Incorrect arguments to mysqld_stmt_execute");
      }
      r := Ok(StudentPage(StudentsOf(Page(NewestStudentsFirst(rows), offset, limit)), |rows|));
    }
  }

  // ---------------------------------------------------------------------
  // Properties
  // ---------------------------------------------------------------------

  /** The update is addressed more narrowly than the lookup: a key that is
      only some student's e-mail finds that student but writes nothing, and
      `update` answers null. */
  lemma EmailKeyFindsButDoesNotWrite(rows: seq<StudentRow>, row: StudentRow, data: StudentData)
    requires rows == [row] && row.id != row.Email && row.Roll != row.Email && row.Registration != row.Email
    ensures FindStudent(rows, row.Email, false).Some?
    ensures PatchStudents(rows, row.Email, data) == rows
  {
    assert Identifies(rows[0], row.Email);
    assert !Addressed(rows[0], row.Email);
  }

  /** Changing the column the key was found by makes the final lookup miss:
      the row is written, yet `update` answers null when the key was the
      Roll and the update gives a new Roll that is not itself an identifier
      of the row. */
  lemma RollChangeLosesTheRow(row: StudentRow, newRoll: string)
    requires newRoll != row.Roll
    requires row.id != row.Roll && row.Registration != row.Roll && row.Email != row.Roll
    ensures var data := StudentData(None, Some(newRoll), None, None, None, None, None, None, None, None);
      && !NoStudentFields(data)
      && PatchStudents([row], row.Roll, data) == [row.(Roll := newRoll)]
      && FindStudent(PatchStudents([row], row.Roll, data), row.Roll, false).None?
  {
    var data := StudentData(None, Some(newRoll), None, None, None, None, None, None, None, None);
    assert StudentFields(data)[1].value.Some?;
    var after := PatchStudents([row], row.Roll, data);
    assert after[0] == row.(Roll := newRoll);
    assert after == [row.(Roll := newRoll)];
    assert !Identifies(after[0], row.Roll);
  }

  /** One update can write several students: the key may be one student's
      id and another's Roll. */
  lemma OneKeyCanWriteTwoStudents(a: StudentRow, b: StudentRow, data: StudentData)
    requires a.id != b.id && b.Roll == a.id
    ensures var after := PatchStudents([a, b], a.id, data);
      after[0] == PatchedStudent(a, data) && after[1] == PatchedStudent(b, data)
  {
  }
}
