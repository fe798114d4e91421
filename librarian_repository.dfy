/** The `librarians` table operations (`MySQLLibrarianRepository`): create
    with defaults, lookup by id or by e-mail, the partial update with its
    dynamically built `SET` list, delete, and the paged listing, newest
    first. Only the e-mail lookup returns the password. */
module LibrarianRepository {
  import opened Common
  import opened Schema
  import opened Transactions
  import opened UpdateClause

  /** A librarian as the repository returns it. */
  datatype Librarian = Librarian(
    id: string,
    name: string,
    contact: Option<string>,
    email: string,
    password: Option<string>)

  /** A partial librarian: the argument of `create` and `update`. */
  datatype LibrarianData = LibrarianData(
    name: Option<string>,
    contact: Option<string>,
    email: Option<string>,
    password: Option<string>)

  // ---------------------------------------------------------------------
  // Reading rows back
  // ---------------------------------------------------------------------

  /** `mapRowToLibrarian`: every column but the password. */
  function LibrarianOf(row: LibrarianRow): (l: Librarian)
    ensures l.id == row.id && l.name == row.name && l.contact == row.contact && l.email == row.email
    ensures l.password.None?
  {
    Librarian(row.id, row.name, row.contact, row.email, None)
  }

  /** `mapRowToLibrarianWithPassword`. */
  function LibrarianWithPasswordOf(row: LibrarianRow): (l: Librarian)
    ensures l.password == Some(row.password)
    ensures l.(password := None) == LibrarianOf(row)
  {
    Librarian(row.id, row.name, row.contact, row.email, Some(row.password))
  }

  /** `findById(id)`: `WHERE id = ?`, without the password. */
  function FindLibrarian(rows: seq<LibrarianRow>, id: string): (r: Option<Librarian>)
    ensures r.None? <==> forall i :: 0 <= i < |rows| ==> rows[i].id != id
    ensures r.Some? ==> exists i :: 0 <= i < |rows| && rows[i].id == id && r.value == LibrarianOf(rows[i])
    ensures r.Some? ==> r.value.id == id && r.value.password.None?
  {
    var found := First(rows, (row: LibrarianRow) => row.id == id);
    if found.Some? then Some(LibrarianOf(found.value)) else None
  }

  /** `findByEmail(email)`: the first row with that e-mail, password included. */
  function FindLibrarianByEmail(rows: seq<LibrarianRow>, email: string): (r: Option<Librarian>)
    ensures r.None? <==> forall i :: 0 <= i < |rows| ==> rows[i].email != email
    ensures r.Some? ==> exists i ::
      && 0 <= i < |rows| && rows[i].email == email
      && r.value == LibrarianWithPasswordOf(rows[i])
      && forall j :: 0 <= j < i ==> rows[j].email != email
  {
    var found := First(rows, (row: LibrarianRow) => row.email == email);
    if found.Some? then Some(LibrarianWithPasswordOf(found.value)) else None
  }

  // ---------------------------------------------------------------------
  // Create
  // ---------------------------------------------------------------------

  /** The librarian `create` returns: name, e-mail and password `|| ""`,
      the contact exactly as given. */
  function NewLibrarian(data: LibrarianData, id: string): (l: Librarian)
    ensures l.id == id && l.name == data.name.GetOr("") && l.email == data.email.GetOr("")
    ensures l.password == Some(data.password.GetOr("")) && l.contact == data.contact
  {
    Librarian(id, data.name.GetOr(""), data.contact, data.email.GetOr(""), Some(data.password.GetOr("")))
  }

  /** The row `create` inserts: an absent or empty contact is stored as
      NULL (`contact || null`); the creation time is the table's default. */
  function NewLibrarianRow(data: LibrarianData, id: string, now: Time): (row: LibrarianRow)
    ensures row.contact.None? <==> data.contact.None? || data.contact == Some("")
    ensures row.contact.Some? ==> row.contact == data.contact
    ensures LibrarianWithPasswordOf(row) == NewLibrarian(data, id).(contact := row.contact)
  {
    var l := NewLibrarian(data, id);
    LibrarianRow(id, l.name, if data.contact.Some? && data.contact.value != "" then data.contact else None,
                 l.email, l.password.value, now)
  }

  // ---------------------------------------------------------------------
  // Update
  // ---------------------------------------------------------------------

  /** The four keys `update` looks at, in the order it looks at them. */
  function LibrarianFields(data: LibrarianData): (fields: seq<Field>)
    ensures |fields| == 4
  {
    [Field("name", data.name), Field("contact", data.contact),
     Field("email", data.email), Field("password", data.password)]
  }

  /** No key is defined. */
  predicate NoLibrarianFields(data: LibrarianData) {
    data.name.None? && data.contact.None? && data.email.None? && data.password.None?
  }

  /** The `if (data.x !== undefined)` chain of `update`. */
  method BuildLibrarianUpdate(data: LibrarianData) returns (updates: seq<string>, values: seq<string>)
    ensures updates == SetList(LibrarianFields(data)) && values == ValueList(LibrarianFields(data))
    ensures updates == [] <==> NoLibrarianFields(data)
  {
    var fields := LibrarianFields(data);
    ghost var done: seq<Field> := [];
    updates, values := [], [];
    assert Built(done, updates, values);
    updates, values := PushIfDefined(done, updates, values, fields[0]);
    done := done + [fields[0]];
    updates, values := PushIfDefined(done, updates, values, fields[1]);
    done := done + [fields[1]];
    updates, values := PushIfDefined(done, updates, values, fields[2]);
    done := done + [fields[2]];
    updates, values := PushIfDefined(done, updates, values, fields[3]);
    done := done + [fields[3]];
    assert done == fields;
    assert Built(fields, updates, values);
    ClauseEmptyIffNoneDefined(fields);
    assert NoLibrarianFields(data) <==> forall i :: 0 <= i < |fields| ==> fields[i].value.None?;
  }

  /** One row after `SET ...`: the defined keys take their values, the
      password as given; id and creation time stay. */
  function PatchedLibrarian(row: LibrarianRow, data: LibrarianData): (r: LibrarianRow)
    ensures r.id == row.id && r.createdAt == row.createdAt
    ensures r.name == data.name.GetOr(row.name) && r.email == data.email.GetOr(row.email)
    ensures r.password == data.password.GetOr(row.password)
    ensures r.contact == (if data.contact.Some? then data.contact else row.contact)
    ensures NoLibrarianFields(data) ==> r == row
  {
    LibrarianRow(row.id, data.name.GetOr(row.name),
                 if data.contact.Some? then data.contact else row.contact,
                 data.email.GetOr(row.email), data.password.GetOr(row.password), row.createdAt)
  }

  /** `UPDATE librarians SET ... WHERE id = ?`. */
  function PatchLibrarians(rows: seq<LibrarianRow>, id: string, data: LibrarianData): (r: seq<LibrarianRow>)
    ensures |r| == |rows|
    ensures forall i :: 0 <= i < |rows| ==>
      r[i] == if rows[i].id == id then PatchedLibrarian(rows[i], data) else rows[i]
    ensures NoLibrarianFields(data) ==> r == rows
  {
    seq(|rows|, i requires 0 <= i < |rows| =>
      if rows[i].id == id then PatchedLibrarian(rows[i], data) else rows[i])
  }

  /** A patch never touches the key column, so keys stay unique. */
  lemma PatchKeepsLibrarianKeys(rows: seq<LibrarianRow>, id: string, data: LibrarianData)
    requires DistinctBy(rows, LibrarianKey)
    ensures DistinctBy(PatchLibrarians(rows, id, data), LibrarianKey)
  {
    var after := PatchLibrarians(rows, id, data);
    assert forall i :: 0 <= i < |rows| ==> after[i].id == rows[i].id;
  }

  /** After a write the lookup by id finds the written row. */
  lemma PatchedIsFound(rows: seq<LibrarianRow>, id: string, data: LibrarianData)
    requires DistinctBy(rows, LibrarianKey)
    requires exists i :: 0 <= i < |rows| && rows[i].id == id
    ensures FindLibrarian(PatchLibrarians(rows, id, data), id).Some?
    ensures forall row :: row in rows && row.id == id ==>
      FindLibrarian(PatchLibrarians(rows, id, data), id) == Some(LibrarianOf(PatchedLibrarian(row, data)))
  {
    var after := PatchLibrarians(rows, id, data);
    var k :| 0 <= k < |rows| && rows[k].id == id;
    assert after[k].id == id;
    var found := FindLibrarian(after, id);
    forall row | row in rows && row.id == id
      ensures found == Some(LibrarianOf(PatchedLibrarian(row, data)))
    {
      var j :| 0 <= j < |after| && after[j].id == id && found.value == LibrarianOf(after[j]);
      var m :| 0 <= m < |rows| && rows[m] == row;
      assert after[j] == PatchedLibrarian(rows[j], data);
      assert LibrarianKey(rows[j]) == LibrarianKey(rows[m]);
      assert j == m;
      assert LibrarianOf(PatchedLibrarian(rows[j], data)) == LibrarianOf(PatchedLibrarian(row, data));
    }
  }

  // ---------------------------------------------------------------------
  // Delete and list
  // ---------------------------------------------------------------------

  predicate HasLibrarianId(rows: seq<LibrarianRow>, id: string) {
    exists i :: 0 <= i < |rows| && rows[i].id == id
  }

  /** `DELETE FROM librarians WHERE id = ?`. */
  function WithoutLibrarian(rows: seq<LibrarianRow>, id: string): (r: seq<LibrarianRow>)
    ensures !HasLibrarianId(r, id)
    ensures forall row :: row in r <==> row in rows && row.id != id
    ensures HasLibrarianId(rows, id) ==> |r| < |rows|
  {
    var r := Filter(rows, (row: LibrarianRow) => row.id != id);
    assert forall i :: 0 <= i < |r| ==> r[i] in r;
    if HasLibrarianId(rows, id) then
      var k :| 0 <= k < |rows| && rows[k].id == id;
      FilterDropsSome(rows, (row: LibrarianRow) => row.id != id, rows[k]);
      r
    else r
  }

  /** `name LIKE ? OR email LIKE ?`. */
  predicate LibrarianMatches(row: LibrarianRow, q: string) {
    Contains(row.name, q) || Contains(row.email, q)
  }

  /** The rows `findAll` counts and pages; an empty search is no search. */
  function ListedLibrarians(rows: seq<LibrarianRow>, search: Option<string>): (r: seq<LibrarianRow>)
    ensures search.None? || search.value == "" ==> r == rows
    ensures search.Some? && search.value != "" ==>
      forall row :: row in r <==> row in rows && LibrarianMatches(row, search.value)
  {
    if search.Some? && search.value != "" then Filter(rows, (row: LibrarianRow) => LibrarianMatches(row, search.value))
    else rows
  }

  /** `ORDER BY created_at DESC`. */
  predicate CreatedNoEarlier(a: LibrarianRow, b: LibrarianRow) {
    a.createdAt >= b.createdAt
  }

  /** The listed rows, newest first. */
  function NewestLibrariansFirst(rows: seq<LibrarianRow>): (r: seq<LibrarianRow>)
    ensures multiset(r) == multiset(rows)
    ensures forall i, j :: 0 <= i < j < |r| ==> r[i].createdAt >= r[j].createdAt
  {
    assert IsTotalPreorder(CreatedNoEarlier);
    var r := SortBy(rows, CreatedNoEarlier);
    assert SortedBy(r, CreatedNoEarlier);
    r
  }

  /** `rows.map(mapRowToLibrarian)`. */
  function LibrariansOf(rows: seq<LibrarianRow>): (r: seq<Librarian>)
    ensures |r| == |rows|
    ensures forall i :: 0 <= i < |rows| ==> r[i] == LibrarianOf(rows[i]) && r[i].password.None?
  {
    seq(|rows|, i requires 0 <= i < |rows| => LibrarianOf(rows[i]))
  }

  /** `findAll`'s answer. */
  datatype LibrarianPage = LibrarianPage(librarians: seq<Librarian>, total: nat)

  // ---------------------------------------------------------------------
  // The repository
  // ---------------------------------------------------------------------

  class LibrarianRepository {
    const db: Database

    constructor (db: Database)
      ensures this.db == db
    {
      this.db := db;
    }

    /** `create(data)` with the drawn uuid `id` at time `now`; an id already
        in the table is a duplicate-key error. */
    method Create(data: LibrarianData, id: string, now: Time) returns (r: Result<Librarian>)
      requires db.Valid()
      modifies db
      ensures db.Valid()
      ensures db.books == old(db.books) && db.transactions == old(db.transactions)
      ensures db.students == old(db.students) && db.nextTransactionId == old(db.nextTransactionId)
      ensures r.Err? <==> HasLibrarianId(old(db.librarians), id)
      ensures r.Err? ==> db.librarians == old(db.librarians)
      ensures r.Ok? ==> r.value == NewLibrarian(data, id)
      ensures r.Ok? ==> db.librarians == old(db.librarians) + [NewLibrarianRow(data, id, now)]
    {
      if exists i :: 0 <= i < |db.librarians| && db.librarians[i].id == id {
        return Err("Duplicate entry for key 'PRIMARY'");
      }
      var row := NewLibrarianRow(data, id, now);
      DistinctByAppend(db.librarians, row, LibrarianKey);
      db.librarians := db.librarians + [row];
      r := Ok(NewLibrarian(data, id));
    }

    /** `findById(id)`. */
    method FindById(id: string) returns (r: Option<Librarian>)
      ensures r == FindLibrarian(db.librarians, id)
    {
      r := FindLibrarian(db.librarians, id);
    }

    /** `findByEmail(email)`. */
    method FindByEmail(email: string) returns (r: Option<Librarian>)
      ensures r == FindLibrarianByEmail(db.librarians, email)
    {
      r := FindLibrarianByEmail(db.librarians, email);
    }

    /** `update(id, data)`: with no defined key, a plain lookup; otherwise the
        row with that id is written, and the answer is null when there is
        none and else the written row, without its password. */
    method Update(id: string, data: LibrarianData) returns (r: Option<Librarian>)
      requires db.Valid()
      modifies db
      ensures db.Valid()
      ensures db.books == old(db.books) && db.transactions == old(db.transactions)
      ensures db.students == old(db.students) && db.nextTransactionId == old(db.nextTransactionId)
      ensures NoLibrarianFields(data) ==> db.librarians == old(db.librarians) && r == FindLibrarian(db.librarians, id)
      ensures !NoLibrarianFields(data) ==> db.librarians == PatchLibrarians(old(db.librarians), id, data)
      ensures r.None? <==> !HasLibrarianId(old(db.librarians), id)
      ensures forall row :: row in old(db.librarians) && row.id == id ==>
        r == Some(LibrarianOf(PatchedLibrarian(row, data)))
    {
      var updates, values := BuildLibrarianUpdate(data);
      var before := db.librarians;
      var affected := exists i :: 0 <= i < |before| && before[i].id == id;
      if affected {
        PatchedIsFound(before, id, data);
      }
      if updates == [] {
        r := FindLibrarian(before, id);
        return;
      }
      PatchKeepsLibrarianKeys(before, id, data);
      db.librarians := PatchLibrarians(before, id, data);
      if !affected {
        return None;
      }
      r := FindLibrarian(db.librarians, id);
    }

    /** `delete(id)`: true exactly when a row was removed. */
    method Delete(id: string) returns (removed: bool)
      requires db.Valid()
      modifies db
      ensures db.Valid()
      ensures db.books == old(db.books) && db.transactions == old(db.transactions)
      ensures db.students == old(db.students) && db.nextTransactionId == old(db.nextTransactionId)
      ensures removed <==> HasLibrarianId(old(db.librarians), id)
      ensures db.librarians == WithoutLibrarian(old(db.librarians), id)
    {
      removed := exists i :: 0 <= i < |db.librarians| && db.librarians[i].id == id;
      FilterKeepsDistinct(db.librarians, (row: LibrarianRow) => row.id != id, LibrarianKey);
      db.librarians := WithoutLibrarian(db.librarians, id);
    }

    /** `findAll({page, limit, search})`: one page of the listed librarians,
        newest first and without passwords, and the number of all listed
        librarians; a negative `LIMIT` or `OFFSET` is an SQL error. */
    method FindAll(page: int, limit: int, search: Option<string>) returns (r: Result<LibrarianPage>)
      ensures r.Err? <==> limit < 0 || Offset(page, limit) < 0
      ensures r.Ok? ==> r.value.total == |ListedLibrarians(db.librarians, search)|
      ensures r.Ok? ==> |r.value.librarians| <= limit
      ensures r.Ok? ==> forall i :: 0 <= i < |r.value.librarians| ==> r.value.librarians[i].password.None?
      ensures r.Ok? ==>
        r.value.librarians == LibrariansOf(Page(NewestLibrariansFirst(ListedLibrarians(db.librarians, search)), Offset(page, limit), limit))
    {
      var rows := ListedLibrarians(db.librarians, search);
      var offset := Offset(page, limit);
      if limit < 0 || offset < 0 {
        return Err("Incorrect arguments to mysqld_stmt_execute");
      }
      r := Ok(LibrarianPage(LibrariansOf(Page(NewestLibrariansFirst(rows), offset, limit)), |rows|));
    }
  }

  // ---------------------------------------------------------------------
  // Properties
  // ---------------------------------------------------------------------

  /** Only the e-mail lookup reveals a password: for a row whose id is a
      key and whose e-mail no other row shares, the e-mail lookup returns
      it with the password and the id lookup without. */
  lemma OnlyEmailLookupRevealsPassword(rows: seq<LibrarianRow>, row: LibrarianRow)
    requires DistinctBy(rows, LibrarianKey) && row in rows
    requires forall j :: 0 <= j < |rows| && rows[j].email == row.email ==> rows[j] == row
    ensures FindLibrarianByEmail(rows, row.email) == Some(LibrarianWithPasswordOf(row))
    ensures FindLibrarian(rows, row.id) == Some(LibrarianOf(row))
    ensures FindLibrarian(rows, row.id).value.password.None?
    ensures FindLibrarianByEmail(rows, row.email).value.password == Some(row.password)
  {
    var k :| 0 <= k < |rows| && rows[k] == row;
    var byId := FindLibrarian(rows, row.id);
    assert byId.Some?;
    var i :| 0 <= i < |rows| && rows[i].id == row.id && byId.value == LibrarianOf(rows[i]);
    assert i == k;
  }

  /** An empty contact is returned by `create` as given but stored as
      NULL, so a later lookup answers differently from `create`. */
  lemma EmptyContactReadsBackAsNull(data: LibrarianData, id: string, now: Time)
    requires data.contact == Some("")
    ensures NewLibrarian(data, id).contact == Some("")
    ensures FindLibrarian([NewLibrarianRow(data, id, now)], id).value.contact.None?
  {
    var rows := [NewLibrarianRow(data, id, now)];
    assert rows[0].id == id;
  }
}
