# Library lending API — a Dafny model of its core

This project models the core of a small library-management API written in
TypeScript on Express and MySQL. Students request books, a librarian
confirms (issues) a request, and the book comes back on return. The model
covers:

- **The lending engine.** `MySQLTransactionRepository` and its orchestrator
  `borrowService`, working on the `books` and `transactions` tables.
- **The catalog rules.** `BookServices` validation, the `Book` constructor
  and the `books`-table operations of `MySQLBookRepository`.
- **The people tables.** The student and librarian repositories, including
  their `SET`-list builders, plus the ownership check in `StudentService`.
- **Small pieces.** The role gate `AuthorizeRole.canAccess`, the QR-code
  codec and the SQL script splitter of `init-database.ts`.

The MySQL database is one `Schema.Database` object. It holds four tables,
each a `seq` of row datatypes in storage order, plus the transactions'
AUTO_INCREMENT counter. Every repository is a class over that shared object,
and every SQL statement is one function on the rows. Methods run those
statements in source order, one step at a time. The current time
(`NOW()`, `Date.now()`, `new Date()`), the uuids drawn by `uuidv4()` and the
caller's id and role are all parameters. In the lending repository a
storage failure is a `Fault` parameter naming the statement that throws.
This makes visible which writes have already happened when the `catch`
turns the error into `null`.

The engine is modelled exactly as the code behaves:

- **No guards.** Confirm writes "available minus one" with no lower bound.
  Return writes "available plus one" with no upper bound. A repeat request
  inserts a second row. Confirm and return rewrite every row of the
  (student, book) pair, whatever its status.
- **Invariants only under preconditions.** The invariants "0 ≤ available ≤
  total" and "one open transaction per pair" are proved to survive a step
  exactly when the caller has already ensured the matching precondition
  (`ConfirmKeepsCopiesIff`, `ReturnKeepsCopiesIff`,
  `RequestKeepsUniquenessIff`, `ConfirmKeepsUniquenessIff`). Return always
  keeps one open transaction per pair (`ReturnKeepsUniqueness`).
- **Constant orchestrator guards.** The `borrowService` guards test
  promises that were never awaited, so their values are constant. A request
  is always forwarded. Confirm and return never reach the repository and
  always answer `null`.

The code updates the copy counters without atomicity and has no typed
errors, due dates or late fees; neither has the model.

## Model

| member | source | states |
|---|---|---|
| `BorrowRepository.TransactionRepository.RequestANewBook` | api/src/Repositories/MySQLBorrowRepository.ts:11-35 | Unknown book or failing lookup: None, no row inserted. Existing book: exactly one REQUESTED row for (bookId, studentReg) appended under the next auto-increment id. Books, students and librarians are unchanged. The answer is the FIRST stored row of the pair, or None when the read-back fails. |
| `BorrowRepository.TransactionRepository.ConfirmRequestForBook` | api/src/Repositories/MySQLBorrowRepository.ts:37-61 | Unknown book: both tables unchanged and None. Otherwise the book's count becomes old count − 1 (no lower bound), then every row of the pair becomes ISSUED with borrowedDate = now. Each write happens only if the earlier steps ran. The answer is the pair's first row, or None when the pair has no row, although the count was still decremented. |
| `BorrowRepository.TransactionRepository.ReturnBorrowedBook` | api/src/Repositories/MySQLBorrowRepository.ts:83-99 | Unknown book: both tables unchanged and None. Otherwise the count becomes old count + 1 (no upper bound), then every row of the pair becomes RETURNED with returnDate = now. The answer is ALL the pair's rows (id, bookId, studentReg, status, returnDate), possibly none. |
| `BorrowRepository.TransactionRepository.GetAllTransactionsByStatus` | api/src/Repositories/MySQLBorrowRepository.ts:64-81 | Exactly the stored rows whose status is spelled `status`, in storage order, and each of them. An unrecognised status or a failing query gives []. |
| `BorrowRepository.WithStatusMatches` | api/src/Repositories/MySQLBorrowRepository.ts:66-67 | A row is selected iff its status is spelled `status`. An unrecognised spelling selects nothing. |
| `BorrowRepository.RepeatRequestReturnsOldRow` | api/src/Repositories/MySQLBorrowRepository.ts:17-28 | When the pair already has a row, the record read back after the insert is that older row, not the new one. |
| `BorrowRepository.FirstRequestReturnsNewRow` | api/src/Repositories/MySQLBorrowRepository.ts:17-28 | When the pair had no row, the pair's rows after the insert are exactly the new REQUESTED row. |
| `BorrowRepository.RequestKeepsUniquenessIff` | api/src/Repositories/MySQLBorrowRepository.ts:14-17 | From a table with one open row per pair, a request keeps that property iff the pair had no open row. The code does not check. |
| `BorrowRepository.ConfirmKeepsUniquenessIff` | api/src/Repositories/MySQLBorrowRepository.ts:42 | From a table with one open row per pair, confirm keeps that property iff the pair had at most one row of any status: every RETURNED row of the pair is reopened as ISSUED. |
| `BorrowRepository.ReturnKeepsUniqueness` | api/src/Repositories/MySQLBorrowRepository.ts:89 | Return always keeps one open row per pair, because it closes every row of the pair and touches no other. |
| `BorrowRepository.ConfirmKeepsCopiesIff` | api/src/Repositories/MySQLBorrowRepository.ts:39-41 | From non-negative counts, confirm keeps every count non-negative iff the book had at least one copy available. |
| `BorrowRepository.ReturnKeepsCopiesIff` | api/src/Repositories/MySQLBorrowRepository.ts:85-87 | From counts within 0..total, return keeps every count within range iff a copy of that book was out (available < total). |
| `BorrowRepository.ConfirmThenReturnRestoresCopies` | api/src/Repositories/MySQLBorrowRepository.ts:39-87 | The confirm write followed by the return write on an existing book gives back the original books table: that book's count is restored and no other book is touched. |
| `BorrowRepository.ConfirmMarksWholePair` | api/src/Repositories/MySQLBorrowRepository.ts:42 | After confirm every row of the pair is ISSUED with borrowedDate = now, RETURNED rows included. Rows of other pairs and all ids are unchanged. |
| `BorrowRepository.ReturnMarksWholePair` | api/src/Repositories/MySQLBorrowRepository.ts:89 | After return every row of the pair is RETURNED with returnDate = now. Rows of other pairs are unchanged. |
| `BorrowRepository.MarkedPairStaysNonEmpty` | api/src/Repositories/MySQLBorrowRepository.ts:42-55 | Marking rows ISSUED neither creates nor removes rows of the pair, so confirm's read-back finds a row iff one existed before. |
| `BorrowRepository.SetAvailable` | api/src/Repositories/MySQLBorrowRepository.ts:41 | `UPDATE books SET availableCopies`: only rows with that id get the new count, every other row is kept, and the length is kept. |
| `BorrowRepository.MarkIssued` | api/src/Repositories/MySQLBorrowRepository.ts:42 | Row by row: rows of the pair get ISSUED and borrowedDate = now, every other row is kept. |
| `BorrowRepository.MarkReturned` | api/src/Repositories/MySQLBorrowRepository.ts:89 | Row by row: rows of the pair get RETURNED and returnDate = now, every other row is kept. |
| `BorrowService.BorrowServices.RequestNewBook` | api/src/Services/BorrowServices.ts:17-30 | Always forwards to `RequestANewBook` and has exactly its effect on every table and on the auto-increment counter, and its answer. Whether the student exists plays no part, and only the book lookup or a failure gives None. |
| `BorrowService.BorrowServices.ConfirmBookRequest` | api/src/Services/BorrowServices.ts:33-43 | Always None, and it modifies nothing, so the repository is never reached. |
| `BorrowService.BorrowServices.ReturnBook` | api/src/Services/BorrowServices.ts:46-56 | Always None, and it modifies nothing. |
| `BorrowService.RequestGuardIgnoresLookups` | api/src/Services/BorrowServices.ts:19 | The request guard holds on two pending promises, and on an object with a null or undefined book lookup. |
| `BorrowService.RequestGuardNeverChecksBook` | api/src/Services/BorrowServices.ts:19 | Even on awaited values the request guard equals "student lookup is not null": `!b != null` is always true. |
| `BorrowService.ConfirmGuardNeverHolds` | api/src/Services/BorrowServices.ts:35 | The confirm and return guard is false whenever the student lookup is a pending promise. |
| `BorrowService.ConfirmGuardIsInverted` | api/src/Services/BorrowServices.ts:35 | Even on awaited values the guard holds only when neither the student nor the book was found. |
| `Transactions.NewTransaction` | api/src/Entities/Transaction.ts:13-24 | studentReg and bookId default to "", and lateFee to 0. status is the supplied one, else REQUESTED. returnDate is the supplied one or absent. borrowedDate, dueDate and createdAt are the supplied ones, else `now`. id and librarianId are copied. |
| `Transactions.ParseStatus` | api/src/Entities/Transaction.ts:10 | A recognised spelling reads back as the status that is spelled that way. |
| `Transactions.ParseStatusName` | api/src/Entities/Transaction.ts:10 | Spelling a status and reading it back gives the same status, so no two statuses share a spelling. |
| `Transactions.RebuildUnchanged` | api/src/Entities/Transaction.ts:13-24 | Constructing again from a constructed record, at any time, changes nothing. |
| `Books.NewBook` | api/src/Entities/Book.ts:12-20 | Text fields default to "" and TotalCopies to 0. AvailableCopies is the supplied value (0 included), else the supplied TotalCopies, else 0. Id is copied. |
| `Books.NewBookKeepsExcessAvailable` | api/src/Entities/Book.ts:18-19 | The constructor accepts AvailableCopies > TotalCopies unchanged. |
| `Books.RebuildUnchanged` | api/src/Entities/Book.ts:12-20 | Constructing again from a constructed book changes nothing. |
| `BookRepository.BookOf` | api/src/Repositories/MySQLBookRepository.ts:10-20 | A row read back through the constructor: same id, name, author and counts, with a NULL edition or genre becoming "". |
| `BookRepository.ToBooks` | api/src/Repositories/MySQLBookRepository.ts:108 | Every row is mapped, position by position. |
| `BookRepository.BookWithId` | api/src/Repositories/MySQLBookRepository.ts:117-124 | None iff no row has the id. Otherwise the book of a row with that id. |
| `BookRepository.BookWithQRCode` | api/src/Repositories/MySQLBookRepository.ts:144-151 | None iff no row has the code. Otherwise the book of the FIRST row carrying it. |
| `BookRepository.Matching` | api/src/Repositories/MySQLBookRepository.ts:132 | A row is selected iff its name, authorName or (non-NULL) genre contains the query. |
| `BookRepository.NameOrderIsTotal` | api/src/Repositories/MySQLBookRepository.ts:133 | Ordering by name is total and transitive, so `ORDER BY name` is a sort. |
| `BookRepository.ByName` | api/src/Repositories/MySQLBookRepository.ts:133 | The same rows as books, each row present, no others, names ascending. |
| `BookRepository.SearchResult` | api/src/Repositories/MySQLBookRepository.ts:126-139 | Exactly the matching books, each matching row present, names ascending. |
| `BookRepository.Listed` | api/src/Repositories/MySQLBookRepository.ts:77-87 | With a non-empty search only the matching rows, otherwise all rows. |
| `BookRepository.Patched` | api/src/Repositories/MySQLBookRepository.ts:157-160 | Given columns take the new values, the id included; the others and the QR code stay. An empty update changes nothing. |
| `BookRepository.PatchBooks` | api/src/Repositories/MySQLBookRepository.ts:160 | Only rows with that id are patched, every other row is kept. |
| `BookRepository.WithoutBook` | api/src/Repositories/MySQLBookRepository.ts:53 | Afterwards no row has the id, exactly the other rows remain, and the table shrinks iff the id existed. |
| `BookRepository.PatchKeepsKeys` | api/src/Repositories/MySQLBookRepository.ts:160 | A partial update keeps ids unique iff it does not move an existing row onto an id another row holds. Afterwards a row has the old id iff one had it before and the update leaves the id alone. |
| `BookRepository.KeyChangeLosesTheBook` | api/src/Repositories/MySQLBookRepository.ts:157-169 | Rewriting the `Id` of an existing book writes the row, yet the read-back under the old id finds nothing, while the new id finds it. |
| `BookRepository.BookRepository.AddNewBook` | api/src/Repositories/MySQLBookRepository.ts:23-50 | Fresh id: one row with the supplied values is appended and the returned book has that id and those values, which a lookup by id finds. An id already present is a duplicate-key error and nothing is written. Other tables are unchanged. |
| `BookRepository.BookRepository.RemoveBook` | api/src/Repositories/MySQLBookRepository.ts:52-57 | True iff a row with the id existed. Afterwards no row has it, and other tables are unchanged. |
| `BookRepository.BookRepository.GetById` | api/src/Repositories/MySQLBookRepository.ts:117-124 | The book with the id, or None. |
| `BookRepository.BookRepository.DisplayBookInfo` | api/src/Repositories/MySQLBookRepository.ts:59-66 | The same answer as `GetById`. |
| `BookRepository.BookRepository.GetByQRCode` | api/src/Repositories/MySQLBookRepository.ts:144-151 | The first book carrying the code, or None. |
| `BookRepository.BookRepository.Search` | api/src/Repositories/MySQLBookRepository.ts:126-139 | The matching books ordered by name. |
| `BookRepository.BookRepository.GetAll` | api/src/Repositories/MySQLBookRepository.ts:68-115 | Refuses a non-integer page or limit, and a negative LIMIT or OFFSET. Otherwise at most `limit` books from offset (page−1)·limit of the listed rows sorted by name, with total = number of all listed rows, independent of paging. |
| `BookRepository.BookRepository.Update` | api/src/Repositories/MySQLBookRepository.ts:153-170 | Moving an existing row onto an id another row holds is a duplicate-key error that writes nothing. Otherwise it writes exactly the given columns, `Id` included, on the row with the id, and an empty update writes nothing. The answer is the book read back under the old id. It is None when no row matched or when the update changed the id. |
| `BookService.AddRejection` | api/src/Services/BookServices.ts:11-19 | Checks in order: blank or missing Name, then blank or missing AuthorName, then TotalCopies ≤ 0. The first failing one gives its message, and None means all pass. |
| `BookService.CreateData` | api/src/Services/BookServices.ts:28-30 | The data handed to the insert has AvailableCopies overwritten by TotalCopies, other fields as supplied. |
| `BookService.BookServices.AddNewBook` | api/src/Services/BookServices.ts:9-31 | Each rejection (the three checks, then a search hit on the name by the same author) writes nothing and gives its message. A created book has AvailableCopies = TotalCopies, whatever was supplied. A duplicate uuid writes nothing either. Transactions, students, librarians and the auto-increment counter are never touched. |
| `BookService.BookServices.RemoveBook` | api/src/Services/BookServices.ts:34-45 | An unknown id is "Book not found" with nothing written. Otherwise the row is deleted and the answer is true. Transactions, students, librarians and the auto-increment counter are never touched. |
| `BookService.BookServices.DisplayBookDetails` | api/src/Services/BookServices.ts:47-49 | The book with the id, or None. |
| `BookService.BookServices.GetById` | api/src/Services/BookServices.ts:66-68 | The book with the id, or None. |
| `BookService.BookServices.GetAll` | api/src/Services/BookServices.ts:52-64 | page ≤ 0 is refused first, then limit ≤ 0, then non-integers. Otherwise page and limit are echoed, together with the repository's page and total and totalPages = ceil(total / limit). |
| `BookService.BookServices.Search` | api/src/Services/BookServices.ts:70-76 | Refused iff the query is empty or white space only. Otherwise the repository's search. |
| `BookService.BookServices.GetByQRCode` | api/src/Services/BookServices.ts:78-81 | Refused iff the code is empty or white space only. Otherwise the repository's lookup. |
| `BookService.BookServices.Update` | api/src/Services/BookServices.ts:84-98 | An unknown id is refused, and so is AvailableCopies > TotalCopies when both are in the update. A duplicate-key error from the repository is passed on. None of the refusals writes anything. Otherwise the table is patched and the book read back, present iff the id was not changed. |
| `BookService.CeilDiv` | api/src/Services/BookServices.ts:62 | `Math.ceil(total / limit)`: no page exactly when there is no book, and never more pages than books. |
| `BookService.CeilDivIsLeastCover` | api/src/Services/BookServices.ts:62 | totalPages is the least number of pages of `limit` books holding all `total`. |
| `BookService.ExactDuplicateIsFound` | api/src/Services/BookServices.ts:22-25 | A stored book with the same name and author is always found by the duplicate check. |
| `BookService.ExactDuplicateAmong` | api/src/Services/BookServices.ts:22-23 | Any stored row matching the searched name, by that author, triggers the duplicate refusal. |
| `BookService.LongerTitleBlocksShorter` | api/src/Services/BookServices.ts:22-23 | Because the check is a substring search, a stored "Dune Messiah" by the same author blocks adding "Dune". |
| `BookService.OneSidedUpdateCanExceedTotal` | api/src/Services/BookServices.ts:89-95 | An update giving only TotalCopies below the stored available count passes the check and leaves available > total. |
| `StudentService.OwnershipRefused` | api/src/Services/StudentService.ts:38 | `userId && id !== userId`: an absent or empty caller id never refuses, the caller's own id is never refused, and a refusal means the caller id is present and differs from the key. |
| `StudentService.QRCodeOnly` | api/src/Services/StudentService.ts:66 | The update `{ qrCode }` defines only the code, so it is a real write. |
| `StudentService.StudentServices.GetAll` | api/src/Services/StudentService.ts:25-34 | page and limit are echoed unchanged, next to the repository's page of students and its total. |
| `StudentService.StudentServices.GetById` | api/src/Services/StudentService.ts:36-42 | Refused iff a caller id is given, is non-empty and differs from the target, before any lookup; the role is never consulted. Otherwise the lookup without password. |
| `StudentService.StudentServices.Update` | api/src/Services/StudentService.ts:44-50 | The same ownership refusal, with nothing written. Otherwise the repository update with its answer. With no defined field, nothing is written and the answer is `findById`. Otherwise the addressed rows are patched, and the answer is None when no row was addressed by id, Roll or Registration, else `findById` on the written table. |
| `StudentService.StudentServices.GenerateQRCode` | api/src/Services/StudentService.ts:56-68 | The same ownership refusal. An unknown student gives None with nothing written. Otherwise the code built from the student's Registration is stored on the addressed rows and returned. |
| `StudentService.IssuedCodeDecodesToRegistration` | api/src/Services/StudentService.ts:65 | Decoding an issued code gives back the student's Registration, a text of Unicode scalar values. |
| `StudentService.IssuedCodeIsStored` | api/src/Services/StudentService.ts:66 | A student addressed by id has the issued code on their own row afterwards. |
| `StudentService.OwnRecordByRollIsRefused` | api/src/Services/StudentService.ts:38-41 | The check compares raw keys: a student looking up their own record by Roll is refused. |
| `StudentRepository.StudentOf` | api/src/Repositories/MySQLStudentRepository.ts:173-192 | Password is present iff `includePassword`, and then equals the stored one. Every other column is copied. |
| `StudentRepository.StudentsOf` | api/src/Repositories/MySQLStudentRepository.ts:72 | Every row is mapped without a password. |
| `StudentRepository.FindStudent` | api/src/Repositories/MySQLStudentRepository.ts:77-95 | None iff no row has the key as Roll, Registration, id or Email. Otherwise the FIRST such row, with a password iff asked for. |
| `StudentRepository.FindStudentByQRCode` | api/src/Repositories/MySQLStudentRepository.ts:97-104 | None iff no row has the code. Otherwise the first stored row with that code, mapped without its password. |
| `StudentRepository.NewStudent` | api/src/Repositories/MySQLStudentRepository.ts:10-22 | Every missing text field (Department, Session, ContactNumber and Address included) and the password become "", and qrCode is as given. |
| `StudentRepository.NewStudentRow` | api/src/Repositories/MySQLStudentRepository.ts:24-41 | The stored row holds the returned values, except that an absent or empty qrCode is stored as NULL. |
| `StudentRepository.BuildStudentUpdate` | api/src/Repositories/MySQLStudentRepository.ts:107-150 | The SET list and the values list are exactly those of the defined fields in the order Name…qrCode ("" counts as defined). The list is empty iff no field is defined. |
| `StudentRepository.PatchedStudent` | api/src/Repositories/MySQLStudentRepository.ts:157 | Each of the ten fields takes its value when defined and keeps the stored one otherwise, with the password as given. id and creation time stay, and an empty update changes nothing. |
| `StudentRepository.PatchStudents` | api/src/Repositories/MySQLStudentRepository.ts:156-159 | Exactly the rows whose id, Roll or Registration equals the key are patched. |
| `StudentRepository.PatchKeepsStudentKeys` | api/src/Repositories/MySQLStudentRepository.ts:157 | An update keeps student ids unique. |
| `StudentRepository.WithoutStudent` | api/src/Repositories/MySQLStudentRepository.ts:167-168 | Afterwards no row has the id, exactly the other rows remain, and the table shrinks iff the id existed. |
| `StudentRepository.ListedStudents` | api/src/Repositories/MySQLStudentRepository.ts:52-60 | With a non-empty search exactly the rows whose Name, Roll, Registration or Department contains it, otherwise all rows. |
| `StudentRepository.NewestStudentsFirst` | api/src/Repositories/MySQLStudentRepository.ts:68 | A reordering of the rows with creation times descending. |
| `StudentRepository.StudentRepository.Create` | api/src/Repositories/MySQLStudentRepository.ts:8-44 | Fresh id: the defaulted row is appended and the defaulted student, password included, is returned. A duplicate id writes nothing. |
| `StudentRepository.StudentRepository.FindById` | api/src/Repositories/MySQLStudentRepository.ts:77-95 | The first row matched on any of the four columns, or None. |
| `StudentRepository.StudentRepository.FindByQRCode` | api/src/Repositories/MySQLStudentRepository.ts:97-104 | The first row carrying the code, without a password, or None. |
| `StudentRepository.StudentRepository.Update` | api/src/Repositories/MySQLStudentRepository.ts:106-164 | No defined field: no write, and the answer is `findById`. Otherwise every row addressed by id, Roll or Registration is patched. The answer is None when none was addressed, else `findById` on the written table. |
| `StudentRepository.StudentRepository.Delete` | api/src/Repositories/MySQLStudentRepository.ts:166-171 | Matches on id only. True iff a row was removed. |
| `StudentRepository.StudentRepository.FindAll` | api/src/Repositories/MySQLStudentRepository.ts:46-75 | At most `limit` students from offset (page−1)·limit, newest first and without passwords. total counts all listed rows. A negative LIMIT or OFFSET is an error. |
| `StudentRepository.EmailKeyFindsButDoesNotWrite` | api/src/Repositories/MySQLStudentRepository.ts:157 | A key that is only a student's Email finds that student but writes nothing. |
| `StudentRepository.RollChangeLosesTheRow` | api/src/Repositories/MySQLStudentRepository.ts:156-163 | Updating the Roll that served as key writes the row, yet the final lookup by that key finds nothing. |
| `StudentRepository.OneKeyCanWriteTwoStudents` | api/src/Repositories/MySQLStudentRepository.ts:157 | One key can be one student's id and another's Roll, and both rows are written. |
| `LibrarianRepository.LibrarianOf` | api/src/Repositories/MySQLLibrarianRepository.ts:130-137 | All columns except the password, which is absent. |
| `LibrarianRepository.LibrarianWithPasswordOf` | api/src/Repositories/MySQLLibrarianRepository.ts:139-147 | The same librarian plus the stored password. |
| `LibrarianRepository.FindLibrarian` | api/src/Repositories/MySQLLibrarianRepository.ts:65-77 | None iff no row has the id. Otherwise that librarian, without a password. |
| `LibrarianRepository.FindLibrarianByEmail` | api/src/Repositories/MySQLLibrarianRepository.ts:79-86 | None iff no row has the e-mail. Otherwise the FIRST such librarian, password included. |
| `LibrarianRepository.NewLibrarian` | api/src/Repositories/MySQLLibrarianRepository.ts:10-16 | Missing name, e-mail and password become "", and contact is as given. |
| `LibrarianRepository.NewLibrarianRow` | api/src/Repositories/MySQLLibrarianRepository.ts:18-29 | The stored row holds the returned values, except that an absent or empty contact is stored as NULL. |
| `LibrarianRepository.BuildLibrarianUpdate` | api/src/Repositories/MySQLLibrarianRepository.ts:89-107 | The SET list and values of exactly the defined fields in the order name, contact, email, password. The list is empty iff none is defined. |
| `LibrarianRepository.PatchedLibrarian` | api/src/Repositories/MySQLLibrarianRepository.ts:114 | Defined fields take their values. id and creation time stay, and an empty update changes nothing. |
| `LibrarianRepository.PatchLibrarians` | api/src/Repositories/MySQLLibrarianRepository.ts:113-116 | Only rows with that id are patched. |
| `LibrarianRepository.PatchKeepsLibrarianKeys` | api/src/Repositories/MySQLLibrarianRepository.ts:114 | An update keeps librarian ids unique. |
| `LibrarianRepository.PatchedIsFound` | api/src/Repositories/MySQLLibrarianRepository.ts:116-120 | After a write to an existing id, the lookup by id returns the patched row without a password. |
| `LibrarianRepository.WithoutLibrarian` | api/src/Repositories/MySQLLibrarianRepository.ts:124-125 | Afterwards no row has the id, exactly the other rows remain, and the table shrinks iff the id existed. |
| `LibrarianRepository.ListedLibrarians` | api/src/Repositories/MySQLLibrarianRepository.ts:40-48 | With a non-empty search exactly the rows whose name or e-mail contains it, otherwise all rows. |
| `LibrarianRepository.NewestLibrariansFirst` | api/src/Repositories/MySQLLibrarianRepository.ts:56 | A reordering of the rows with creation times descending. |
| `LibrarianRepository.LibrariansOf` | api/src/Repositories/MySQLLibrarianRepository.ts:60 | Every row is mapped without a password. |
| `LibrarianRepository.LibrarianRepository.Create` | api/src/Repositories/MySQLLibrarianRepository.ts:8-32 | Fresh id: the defaulted row is appended and the defaulted librarian is returned. A duplicate id writes nothing. |
| `LibrarianRepository.LibrarianRepository.FindById` | api/src/Repositories/MySQLLibrarianRepository.ts:65-77 | The librarian with the id, without a password, or None. |
| `LibrarianRepository.LibrarianRepository.FindByEmail` | api/src/Repositories/MySQLLibrarianRepository.ts:79-86 | The first librarian with the e-mail, with the password, or None. |
| `LibrarianRepository.LibrarianRepository.Update` | api/src/Repositories/MySQLLibrarianRepository.ts:88-121 | No defined field: no write, and the answer is `findById`. Otherwise only the row with that id is written. The answer is None iff no row had the id, else the patched row without a password. |
| `LibrarianRepository.LibrarianRepository.Delete` | api/src/Repositories/MySQLLibrarianRepository.ts:123-128 | True iff a row with the id was removed. |
| `LibrarianRepository.LibrarianRepository.FindAll` | api/src/Repositories/MySQLLibrarianRepository.ts:34-63 | At most `limit` librarians from offset (page−1)·limit, newest first and never with a password. total counts all listed rows. |
| `LibrarianRepository.OnlyEmailLookupRevealsPassword` | api/src/Repositories/MySQLLibrarianRepository.ts:65-86 | In any table with unique ids, for a row whose e-mail no other row shares: the e-mail lookup returns that row with its password and the id lookup returns it without. |
| `LibrarianRepository.EmptyContactReadsBackAsNull` | api/src/Repositories/MySQLLibrarianRepository.ts:13-29 | `create` returns an empty contact as "", but a later lookup reads it back as NULL. |
| `UpdateClause.PushIfDefined` | api/src/Repositories/MySQLStudentRepository.ts:111-114 | One `if (x !== undefined)` step extends both lists by that field iff it is defined. |
| `UpdateClause.ClauseSnoc` | api/src/Repositories/MySQLStudentRepository.ts:107-150 | Each step appends its own field at the end of both lists, so the lists follow field order. |
| `UpdateClause.ClauseAligned` | api/src/Repositories/MySQLLibrarianRepository.ts:89-107 | The lists have equal length, and the i-th SET item and the i-th value come from the same defined field. |
| `UpdateClause.DefinedFieldIsWritten` | api/src/Repositories/MySQLStudentRepository.ts:107-150 | Every defined field has its SET item. |
| `UpdateClause.ClauseEmptyIffNoneDefined` | api/src/Repositories/MySQLStudentRepository.ts:152-154 | The SET list is empty iff no field is defined. |
| `AuthorizeRole.CanAccess` | api/src/middlewares/authorizeRoleMiddleware.ts:4-24 | 401 iff there is no user. 403 iff there is a user whose role is not listed. `next` iff there is a user and the role is listed. |
| `AuthorizeRole.AuthenticationComesFirst` | api/src/middlewares/authorizeRoleMiddleware.ts:8-19 | Without a user the answer is 401 whatever roles are allowed. |
| `AuthorizeRole.EmptyRolesRefuseEveryone` | api/src/middlewares/authorizeRoleMiddleware.ts:15-19 | With no allowed roles every authenticated user gets 403. |
| `AuthorizeRole.MoreRolesNeverRefuseMore` | api/src/middlewares/authorizeRoleMiddleware.ts:15 | Allowing more roles never turns a pass into a refusal. |
| `AuthorizeRole.DecisionIgnoresIdentity` | api/src/middlewares/authorizeRoleMiddleware.ts:15 | Two users with the same role get the same answer. |
| `QRCode.Decimal` | api/src/Services/QRCodeService.ts:6 | The printed time is a non-empty run of decimal digits, with no '-'. |
| `QRCode.Generate` | api/src/Services/QRCodeService.ts:4-7 | `"QR-" + base64(UTF-8 of data) + "-" + decimal(now)`, which starts with "QR-". |
| `QRCode.Decode` | api/src/Services/QRCodeService.ts:14-24 | None iff the input has no '-'. Every other input decodes, so the `catch` is never reached. |
| `QRCode.Verify` | api/src/Services/QRCodeService.ts:9-12 | Accepts exactly the codes whose first three characters are 'Q', 'R' and '-'. Nothing else is checked, and an accepted code contains a '-'. |
| `QRCode.VerifyGenerate` | api/src/Services/QRCodeService.ts:9-12 | Every generated code passes `verify`. |
| `QRCode.VerifyAcceptsBareTag` | api/src/Services/QRCodeService.ts:11 | `verify` accepts "QR-", which no call of `generate` produces. |
| `QRCode.SplitGenerated` | api/src/Services/QRCodeService.ts:6 | A generated code splits at '-' into exactly the tag, the base64 text and the digits. |
| `QRCode.DecodeGenerate` | api/src/Services/QRCodeService.ts:5-20 | `decode(generate(d, t)) == d` for every text of Unicode scalar values and every time. |
| `QRCode.DecodeIgnoresTagAndTail` | api/src/Services/QRCodeService.ts:17-20 | `decode` checks no "QR-" tag and ignores everything after the second '-'. |
| `Base64.Encode` | api/src/Services/QRCodeService.ts:5 | Four characters per three bytes, rounded up (padding included). No character is '-', so the code's separator cannot appear inside the encoded part. |
| `Base64.Decode` | api/src/Services/QRCodeService.ts:20 | Lenient decoding never yields more bytes than input characters. |
| `Base64.SextetRoundTrip` | api/src/Services/QRCodeService.ts:5 | Each alphabet character decodes to the six-bit value it encodes. |
| `Base64.DecodeEncode` | api/src/Services/QRCodeService.ts:5-20 | Decoding the encoding of any byte sequence gives it back. |
| `Utf8.Encode` | api/src/Services/QRCodeService.ts:5 | Every character takes at least one byte, and `EncodeChar` takes one byte exactly for characters below U+0080 and at most four otherwise. |
| `Utf8.Decode` | api/src/Services/QRCodeService.ts:20 | `toString('utf-8')`: never more characters than bytes, empty iff there are no bytes, and one character per byte when every byte is ASCII. |
| `Utf8.DecodeEncode` | api/src/Services/QRCodeService.ts:5-20 | Decoding the UTF-8 encoding of any text of Unicode scalar values gives it back. |
| `Common.Trim` | api/src/init-database.ts:23 | The result neither starts nor ends with white space, holds only characters of the input, and is empty iff the input is all white space. |
| `Common.Split` | api/src/init-database.ts:22 | At least one piece, and no piece contains the separator. |
| `Common.JoinSplit` | api/src/init-database.ts:22 | Joining the pieces with the separator gives back the text, so splitting loses nothing. |
| `Common.SplitCountsSeparator` | api/src/Services/QRCodeService.ts:17-18 | There are at least two pieces iff the separator occurs. |
| `Common.Page` | api/src/Repositories/MySQLBookRepository.ts:105 | At most `limit` items, the contiguous run starting at the offset, a full page when enough items remain, and [] past the end. |
| `Common.SortBy` | api/src/Repositories/MySQLBookRepository.ts:133 | A sorted permutation of the input. |
| `Schema.FindBook` | api/src/Repositories/MySQLBorrowRepository.ts:13-14 | None iff no row has the id. Otherwise a row of the table with that id. |
| `Schema.FindBookAppendNew` | api/src/Repositories/MySQLBookRepository.ts:23-49 | A row appended under a new id is what a lookup of that id finds. |
| `InitDatabase.Statements` | api/src/init-database.ts:21-24 | `split(';').map(trim).filter(...)`: no more statements than pieces, and no statement is empty. |
| `InitDatabase.TrimAll` | api/src/init-database.ts:23 | Every piece is trimmed, position by position. |
| `InitDatabase.StatementsAreClean` | api/src/init-database.ts:21-24 | Every statement is non-empty, contains no ';' and neither starts nor ends with white space. |
| `InitDatabase.StatementsInOrder` | api/src/init-database.ts:21-28 | The text before the first ';' gives the first statement, unless it is blank, followed by the statements of the rest, so file order is kept. |
| `InitDatabase.SingleStatement` | api/src/init-database.ts:21-24 | Text without ';' is one trimmed statement, or none when blank. |
| `InitDatabase.KeptIffNotBlank` | api/src/init-database.ts:24 | A trimmed piece is kept iff it is not blank. |
| `InitDatabase.QuotedSemicolonSplits` | api/src/init-database.ts:22 | A ';' inside a quoted literal still splits: `SELECT 'a;b'` becomes two statements. |

## Left out

- Database I/O, the connection pool and SQL parsing are not modelled. Each statement is a function on in-memory rows.
- `=` comparisons (ids, the status in `GetAllTransactionsByStatus`, the (student, book) pair, QR codes, rolls, registrations and e-mails) are modelled as exact and case-sensitive. This assumes a binary collation: under MySQL's default case-insensitive collation, `status = 'issued'` also selects ISSUED rows.
- MySQL `LIKE` collation is modelled as case-sensitive substring search, and `%` and `_` in a query are taken literally. `ORDER BY name` is modelled as code-point order.
- Rows of a query without `ORDER BY` come back in storage order. MySQL leaves that order unspecified.
- Rows tied under `ORDER BY name` (books) or `ORDER BY created_at DESC` (students, librarians) keep their storage order too, because `Common.SortBy` is stable. MySQL leaves the order of ties unspecified, so over equal keys its pages may overlap or skip rows. The model's pages never do.
- Concurrency is not modelled. The unlocked read-then-write of `availableCopies` in confirm and return runs sequentially here.
- The connection taken by `ReturnBorrowedBook` is never released in the source. The model only counts taking it as a step that can fail.
- Storage failures are modelled in the lending repository only, as a `Fault` parameter. In the other repositories a failing query is not modelled. This includes the `catch` that makes `findById` answer null in both people repositories.
- `console.log` output is left out.
- `BookRepository.BookRepository.AddNewBook`: an absent Edition or Genre is stored as NULL. mysql2 refuses `undefined` bind parameters, and that refusal is not captured.
- `BookService.BookServices.AddNewBook`: TotalCopies is always present in the model. A body without TotalCopies passes the `TotalCopies <= 0` check, because `undefined <= 0` is false. It then reaches the insert with `undefined`, which mysql2 refuses, and that path is not captured.
- `BookRepository.BookRepository.Update`: an update object whose key is present but `undefined` is treated as not having that key. The same applies to `BookService.BookServices.Update`.
- `BookRepository.BookRepository.Update`: only the keys of `Partial<Book>` (Id plus the six data fields) are modelled. A raw request body can also carry a `qrCode` key, which the source writes, or a key naming no column, which MySQL refuses. Neither is modelled.
- `StudentRepository.StudentRepository.FindAll` treats only a negative LIMIT or OFFSET as an SQL error. How the server's version treats numeric `LIMIT ?` parameters is not modelled. The same applies to `LibrarianRepository.LibrarianRepository.FindAll`.
- `Utf8.Decode`: overlong and surrogate encodings are rejected byte by byte, as Node does. A truncated multi-byte sequence, though, is replaced one byte at a time: `[0xE2, 0x82, 0x41]` gives two U+FFFD then 'A'. Node follows the WHATWG maximal-subpart rule there and gives one U+FFFD then 'A'. Decoding of well-formed UTF-8 is unaffected.
- `QRCode.Decode` inherits the `Utf8.Decode` difference on malformed input; it returns the decoded text.
- `Utf8.DecodeEncode`: texts are modelled as sequences of Unicode scalar values (Dafny's `char`). A JavaScript string is UTF-16 and can hold an unpaired surrogate such as `"\uD800"`; `Buffer.from` writes that as EF BF BD, so decoding gives U+FFFD back, not the original. The round trip is promised only for texts without unpaired surrogates.
- `QRCode.DecodeGenerate`: the same limit. A data text with an unpaired surrogate is not representable in the model, and for it `decode(generate(d))` returns U+FFFD in its place.
- `StudentService.IssuedCodeDecodesToRegistration`: the same limit. A Registration holding an unpaired surrogate decodes with U+FFFD in its place.
- `lateFee || 0` does not model NaN. `new Date(x)` is the identity on a time given as a number of milliseconds.
- The parts of `init-database.ts` that read the file, run each statement and call `process.exit` are left out. Only the statement list is modelled.
- Controllers, routes, `app.ts` and `server.ts` are left out. They add HTTP framing and wiring only.
- Authentication and credentials are left out: `LoginService.ts`, `passHash.ts`, `authMiddleware.ts` and `LibrarianService.ts` are not part of this model. The caller's id and role are explicit parameters, and passwords are stored as given.
- `StudentService.create`, `delete` and `getByQRCode` are left out. They only delegate and hash the password.
- Due dates, late fees, and OVERDUE derivation are not implemented by the code, so they are not modelled. Confirm sets only `borrowedDate`.
