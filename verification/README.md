# Library service model

A Dafny model of the in-memory core of a small library-management web app.
The core keeps a list of books, a list of users and a lending ledger. The
ledger maps each user id to the ids of the books that user has borrowed.

- **Record store** (`Store`, `Service`). Books and users live in ordered
  lists. Add gives a record the id "largest id + 1", or 1 for an empty list,
  and appends it. Edit replaces the first record with the same id. Delete is
  guarded: a borrowed book, or a user with a non-empty ledger entry, makes it
  throw (`Err(Conflict)`) and the state stays as it was.
- **Lending ledger** (`Ledger`, `Service`). Borrow adds the book to the
  user's list once and flags the book borrowed. Return takes it off the list,
  drops an emptied entry, and clears the flag. Two queries join the ledger
  with the lists: a user's borrowed books, and all (book, user) pairs.
- **CSV rows** (`Text`, `Csv`). These are pure functions over a list of
  lines. Save writes a header, then one comma-joined row per record. Read
  skips the first line. It drops malformed book rows. A user row with a
  non-integer id fails the whole read.
- **Test double** (`Mock`). `LibraryServiceMock` behaves like the service,
  with two differences. It does no persistence. Its `ReturnBook` keeps an
  emptied ledger entry and clears the flag unconditionally.
- **Scenarios** (`Scenarios`). The test suite's scenarios, stated as lemmas.

Every operation is a pure function from one state to the next.
`Service.Invariant` asks for unique book ids, unique user ids, and ledger
entries that are non-empty and duplicate-free. `Service.RunKeepsInvariant`
proves that any sequence of calls keeps it, from any state satisfying it,
such as the empty lists the service starts with when no files exist. A
state read from files that repeat an id does not satisfy it: the readers do
not remove duplicates. The mock keeps a weaker invariant, `Mock.Invariant`,
in which entries may be empty.

Two behaviours of the code are worth knowing:
- `BorrowBook` never looks at other users' entries. So a book can sit in
  two entries, and its flag can be false while an entry still holds it.
  `Scenarios.DoubleBorrow` and `Scenarios.FlagDrift` show both.
  `Scenarios.DanglingIdSkipped` shows that the book can then be deleted
  while a list still names it, and the user's query skips that id.
- The book reader drops malformed rows. The user reader's `int.Parse`
  throws on a bad id, so one bad user row fails the whole read. See
  `Csv.ParseUserRows` and `Csv.UserHeaderWouldFail`.

## Model

| member | source | states |
|---|---|---|
| Store.FirstIndex | Blazor_Lab_Starter_WebApp/Services/LibraryService.cs:55 | the index found is the first whose id matches; "not found" exactly when no element has the id |
| Store.Find | Blazor_Lab_Starter_WebApp/Services/LibraryService.cs:65 | no match exactly when no element has the id; otherwise the element found has the id and sits at the first matching index |
| Store.NextKey | Blazor_Lab_Starter_WebApp/Services/LibraryService.cs:48 | the assigned id is 1 on an empty list, greater than every existing id, and exactly one past the largest |
| Store.Replace | Blazor_Lab_Starter_WebApp/Services/LibraryService.cs:53-61 | same length and same id at every position; an absent id changes nothing; otherwise only the first match is replaced |
| Store.RemoveFirst | Blazor_Lab_Starter_WebApp/Services/LibraryService.cs:73-77 | an absent id changes nothing; otherwise exactly the first match is removed and the rest keep their order |
| Store.AppendFreshKeepsUnique | Blazor_Lab_Starter_WebApp/Services/LibraryService.cs:46-51 | appending a record with a new id keeps ids unique |
| Store.RemoveFirstKeepsUnique | Blazor_Lab_Starter_WebApp/Services/LibraryService.cs:63-78 | a delete keeps ids unique, and with unique ids no record with the deleted id remains |
| Service.AddBook | Blazor_Lab_Starter_WebApp/Services/LibraryService.cs:46-51 | the new book is appended with id max+1 (1 if empty), strictly above every existing id; users and ledger unchanged |
| Service.EditBook | Blazor_Lab_Starter_WebApp/Services/LibraryService.cs:53-61 | replaces the first book with the id, leaves every other book and every id alone, is a no-op for an absent id; a lookup afterwards finds the edited book |
| Service.DeleteBook | Blazor_Lab_Starter_WebApp/Services/LibraryService.cs:63-78 | throws exactly when the first book with the id is borrowed; an absent id is a no-op; otherwise removes that book and keeps the order of the rest |
| Service.AddUser | Blazor_Lab_Starter_WebApp/Services/LibraryService.cs:104-109 | the new user is appended with id max+1 (1 if empty), strictly above every existing id |
| Service.EditUser | Blazor_Lab_Starter_WebApp/Services/LibraryService.cs:111-119 | replaces the first user with the id; every other user is unchanged; an absent id changes nothing |
| Service.DeleteUser | Blazor_Lab_Starter_WebApp/Services/LibraryService.cs:121-135 | throws exactly when the ledger has a non-empty entry for the id; otherwise removes the first matching user, if any |
| Service.BorrowBook | Blazor_Lab_Starter_WebApp/Services/LibraryService.cs:139-153 | the ledger gets the borrow update; only the first book with the id changes, and only its flag, to true; users unchanged |
| Service.ReturnBook | Blazor_Lab_Starter_WebApp/Services/LibraryService.cs:155-170 | the ledger gets the return update; the first book with the id ends up not borrowed whether or not it was on the list; nothing else changes |
| Service.FlagSetFind | Blazor_Lab_Starter_WebApp/Services/LibraryService.cs:147-152 | after a flag update, the book with that id is found exactly when it was before, and it is the old book with only the flag changed |
| Service.BorrowThenQuery | Blazor_Lab_Starter_WebApp/Services/LibraryService.cs:139-179 | after a borrow the book is flagged borrowed and appears among the user's borrowed books |
| Service.ReturnThenQuery | Blazor_Lab_Starter_WebApp/Services/LibraryService.cs:155-170 | after a return the book is available, and in a valid ledger it is off the user's list |
| Service.BorrowBlocksDeletes | Blazor_Lab_Starter_WebApp/Services/LibraryService.cs:63-135 | right after a borrow, deleting the book and deleting the borrower both throw |
| Service.DeleteOnlyWhenAvailable | Blazor_Lab_Starter_WebApp/Services/LibraryService.cs:67-71 | an existing book can be deleted exactly when it is in the Available state |
| Service.LookupAll | Blazor_Lab_Starter_WebApp/Services/LibraryService.cs:175-177 | every returned book is the first match of a listed id; every listed id that names a book gives that book; never more books than ids; when all ids resolve, the books follow the ids one for one |
| Service.LookupAllAppend | Blazor_Lab_Starter_WebApp/Services/LibraryService.cs:175-177 | ids are looked up one at a time: the books of two blocks of ids are the books of each block, one after the other |
| Service.LookupAllOne | Blazor_Lab_Starter_WebApp/Services/LibraryService.cs:175-176 | one id gives its first matching book, or nothing when no book has the id |
| Service.BorrowedBy | Blazor_Lab_Starter_WebApp/Services/LibraryService.cs:172-179 | nothing for a user without an entry; every book returned is on the user's list and is that id's first match; every listed id that names a book gives its book; never more books than listed ids; when every listed id names a book, exactly one book per id, in ledger order |
| Service.BorrowedBySkipsMissing | Blazor_Lab_Starter_WebApp/Services/LibraryService.cs:172-179 | an id on the user's list that names no book is skipped, and the books before and after it keep their ledger order |
| Service.PairsOver | Blazor_Lab_Starter_WebApp/Services/LibraryService.cs:184-195 | each pair joins an existing user with one of that user's borrowed books that exist; every such combination appears; never more pairs than ledger items |
| Service.PairsOverAppend | Blazor_Lab_Starter_WebApp/Services/LibraryService.cs:184-195 | keys are visited one at a time: the pairs of two blocks of keys are the pairs of each block, one after the other |
| Service.PairsOverOne | Blazor_Lab_Starter_WebApp/Services/LibraryService.cs:186-194 | a key with no user gives nothing; otherwise one pair per book in the user's borrowed-books query, in that order, each with the user |
| Service.AllBorrowed | Blazor_Lab_Starter_WebApp/Services/LibraryService.cs:181-197 | one pair for each ledger (user, book) whose user and book both exist, no other pairs, and no more pairs than ledger items |
| Service.StepKeepsInvariant | Blazor_Lab_Starter_WebApp/Services/LibraryService.cs:46-170 | every successful operation keeps ids unique and ledger entries non-empty and duplicate-free |
| Service.RunKeepsInvariant | Blazor_Lab_Starter_WebApp/Services/LibraryService.cs:10-18 | from any state meeting the invariant (such as empty files and the empty ledger), every sequence of calls keeps it |
| Service.Step | Blazor_Lab_Starter_WebApp/Services/LibraryService.cs:46-170 | only the two deletes can throw, each with its own conflict; a book call that succeeds leaves users and ledger alone |
| Service.Run | Blazor_Lab_Starter_WebApp/Services/LibraryService.cs:46-170 | no calls leave the state as it is; a run of book calls never changes the users or the ledger |
| Service.AddBooksNumbersFromOne | Blazor_Lab_Starter_WebApp/Services/LibraryService.cs:48 | successive adds onto books numbered 1..n keep the numbering 1, 2, 3, … in list order |
| Ledger.Borrow | Blazor_Lab_Starter_WebApp/Services/LibraryService.cs:141-145 | the user gets an entry containing the book, extending the old list (which stays a prefix) by at most that one id; other entries are unchanged |
| Ledger.Return | Blazor_Lab_Starter_WebApp/Services/LibraryService.cs:157-162 | when the book is listed, exactly its first occurrence leaves the user's list, the other ids keep their order, and the entry disappears exactly when it held only that book; otherwise nothing changes; other entries are unchanged |
| Ledger.RemoveMultiset | Blazor_Lab_Starter_WebApp/Services/LibraryService.cs:159 | removing an id from a list takes exactly one copy of it out |
| Ledger.FirstOccurrence | Blazor_Lab_Starter_WebApp/Services/LibraryService.cs:159 | a listed id has a first occurrence, and removal cuts the list there, keeping the rest in order |
| Ledger.BorrowOnce | Blazor_Lab_Starter_WebApp/Services/LibraryService.cs:144-145 | after a borrow the user's list holds the book exactly once and stays duplicate-free |
| Ledger.BorrowKeepsValid | Blazor_Lab_Starter_WebApp/Services/LibraryService.cs:141-145 | borrow keeps every entry non-empty and duplicate-free |
| Ledger.ReturnKeepsValid | Blazor_Lab_Starter_WebApp/Services/LibraryService.cs:157-162 | return keeps every entry non-empty and duplicate-free, and the book is no longer on the user's list |
| Text.Split | Blazor_Lab_Starter_WebApp/Services/LibraryService.cs:28 | splitting yields one more field than there are commas, and no field holds a comma |
| Text.SplitJoin | Blazor_Lab_Starter_WebApp/Services/LibraryService.cs:44 | joining comma-free fields with commas (`Text.Join`) and splitting gives the fields back |
| Text.JoinSplit | Blazor_Lab_Starter_WebApp/Services/LibraryService.cs:28 | splitting a line and joining the fields with commas (`Text.Join`) gives the line back |
| Text.ParseInt | Blazor_Lab_Starter_WebApp/Services/LibraryService.cs:29 | an id field parses exactly when it is an optional sign followed by decimal digits |
| Text.ParseIntForms | Blazor_Lab_Starter_WebApp/Services/LibraryService.cs:29 | a leading zero or a plus sign does not change the value of digits, and a minus sign negates it |
| Text.IntToString | Blazor_Lab_Starter_WebApp/Services/LibraryService.cs:44 | a formatted integer is a minus sign exactly for negative numbers, followed by one or more decimal digits |
| Text.IntRoundTrip | Blazor_Lab_Starter_WebApp/Services/LibraryService.cs:32 | a formatted id parses back to the same integer |
| Text.ReadFlag | Blazor_Lab_Starter_WebApp/Services/LibraryService.cs:35 | the flag reads as true exactly for "true" in any letter case; anything unparseable reads as false |
| Text.ParseBool | Blazor_Lab_Starter_WebApp/Services/LibraryService.cs:35 | some `true` exactly for "true" and some `false` exactly for "false", in any letter case |
| Text.BoolToString | Blazor_Lab_Starter_WebApp/Services/LibraryService.cs:44 | a formatted flag parses back as the same flag |
| Text.FlagRoundTrip | Blazor_Lab_Starter_WebApp/Services/LibraryService.cs:44 | a formatted flag holds no comma and reads back as the same flag |
| Csv.ParseBookRow | Blazor_Lab_Starter_WebApp/Services/LibraryService.cs:28-37 | a row is kept exactly when it has at least five fields and an integer id, and then the book carries the first five fields |
| Csv.FormatBook | Blazor_Lab_Starter_WebApp/Services/LibraryService.cs:44 | a book whose texts hold no comma or line break formats to exactly its five fields, in order |
| Csv.SaveBooks | Blazor_Lab_Starter_WebApp/Services/LibraryService.cs:42-44 | the header line, then one row per book, in list order |
| Csv.ReadBooks | Blazor_Lab_Starter_WebApp/Services/LibraryService.cs:26-38 | a file of at most one line gives no books; every book comes from a line after the first that parses; never more books than lines after the first |
| Csv.ReadBooksSkipsHeader | Blazor_Lab_Starter_WebApp/Services/LibraryService.cs:27 | reading books is exactly parsing the rows after the first line, whatever the first line holds |
| Csv.ParseBookRows | Blazor_Lab_Starter_WebApp/Services/LibraryService.cs:26-38 | every book read comes from some row; never more books than rows; when every row is well formed, one book per row in order |
| Csv.ParseBookRowsAppend | Blazor_Lab_Starter_WebApp/Services/LibraryService.cs:26-38 | rows are read one at a time: the books of two blocks of rows are the books of each block, one after the other |
| Csv.ParseBookRowsOne | Blazor_Lab_Starter_WebApp/Services/LibraryService.cs:28-37 | one row gives its book when it parses, and nothing otherwise |
| Csv.ParseUserRows | Blazor_Lab_Starter_WebApp/Services/LibraryService.cs:86-96 | the read fails exactly when some row with at least three fields has a non-integer id; never more users than rows; when every row has at least three fields, one user per row, in order, with that row's fields |
| Csv.ParseUserRowsAppend | Blazor_Lab_Starter_WebApp/Services/LibraryService.cs:86-96 | rows are read one at a time: two blocks of rows give their users one after the other, and a failure in either block fails the read |
| Csv.ParseUserRowsOne | Blazor_Lab_Starter_WebApp/Services/LibraryService.cs:88-95 | one row: skipped when it has fewer than three fields, a failure when its id does not parse, otherwise its user |
| Csv.FormatUser | Blazor_Lab_Starter_WebApp/Services/LibraryService.cs:102 | a user whose texts hold no comma or line break formats to exactly its three fields, in order |
| Csv.SaveUsers | Blazor_Lab_Starter_WebApp/Services/LibraryService.cs:100-102 | the header line, then one row per user, in list order |
| Csv.ReadUsers | Blazor_Lab_Starter_WebApp/Services/LibraryService.cs:86-96 | the read fails exactly when some line after the first is a bad user row; a file of at most one line gives no users; never more users than lines after the first |
| Csv.ReadUsersSkipsHeader | Blazor_Lab_Starter_WebApp/Services/LibraryService.cs:87 | reading users is exactly parsing the rows after the first line, whatever the first line holds, so the first line never yields a user |
| Csv.UnreadableIdDropped | Blazor_Lab_Starter_WebApp/Services/LibraryService.cs:29 | a book row whose first field is not an integer is dropped |
| Csv.DropVersusFail | Blazor_Lab_Starter_WebApp/Services/LibraryService.cs:89 | rows with fewer than three fields are dropped by both readers without failing |
| Csv.BookRowRoundTrip | Blazor_Lab_Starter_WebApp/Services/LibraryService.cs:42-44 | the row of a book whose texts hold no comma or line break parses back as the same book |
| Csv.BooksRoundTrip | Blazor_Lab_Starter_WebApp/Services/LibraryService.cs:22-44 | saving books whose texts hold no comma or line break, and reading the lines back, gives the same list |
| Csv.ParseAllBookRows | Blazor_Lab_Starter_WebApp/Services/LibraryService.cs:28-37 | rows that each parse to the matching book give exactly those books, in order |
| Csv.UserRowRoundTrip | Blazor_Lab_Starter_WebApp/Services/LibraryService.cs:100-102 | the row of a user whose texts hold no comma or line break has a readable id, so it never fails a read, and read on its own gives back exactly that user |
| Csv.UserRowCons | Blazor_Lab_Starter_WebApp/Services/LibraryService.cs:86-96 | a well-formed user row in front of readable rows adds exactly that user in front |
| Csv.UsersRoundTrip | Blazor_Lab_Starter_WebApp/Services/LibraryService.cs:82-102 | saving users whose texts hold no comma or line break, and reading the lines back, gives the same list |
| Csv.UserRowsRoundTrip | Blazor_Lab_Starter_WebApp/Services/LibraryService.cs:86-102 | the saved rows after the header, read as user rows, give back exactly the saved users, in order |
| Csv.SaveUsersCons | Blazor_Lab_Starter_WebApp/Services/LibraryService.cs:100-102 | the saved rows are the first user's row followed by the rows of the remaining users |
| Csv.BookHeaderIgnored | Blazor_Lab_Starter_WebApp/Services/LibraryService.cs:27 | the first line never affects the books read |
| Csv.BookHeaderIsNotABook | Blazor_Lab_Starter_WebApp/Services/LibraryService.cs:43 | the book header would not parse as a book |
| Csv.UserHeaderWouldFail | Blazor_Lab_Starter_WebApp/Services/LibraryService.cs:101 | the user header, if read as data, would fail the read; skipping it is what keeps a saved file readable |
| Csv.CommaInTitleCorrupts | Blazor_Lab_Starter_WebApp/Services/LibraryService.cs:28-44 | a title holding one comma shifts every later field: the title's tail becomes the author, the author is read as the flag, and the flag's text becomes the ISBN |
| Csv.CommaTitleSplits | Blazor_Lab_Starter_WebApp/Services/LibraryService.cs:44 | such a row splits into six fields instead of five |
| Mock.ReturnLoans | LibraryService.Tests/LibraryServiceTests.cs:243-244 | no key is added or removed; an existing entry loses exactly the first occurrence of the id, the other ids keep their order, and an entry without the id is unchanged |
| Mock.ReturnBook | LibraryService.Tests/LibraryServiceTests.cs:241-248 | the mock's ledger update, and the first book with the id is cleared, whatever the ledger held |
| Mock.Step | LibraryService.Tests/LibraryServiceTests.cs:186-248 | a mock call fails exactly when the same call on the service would |
| Mock.StepKeepsInvariant | LibraryService.Tests/LibraryServiceTests.cs:186-248 | every successful mock operation keeps ids unique and entries duplicate-free |
| Mock.ReturnMatchesService | LibraryService.Tests/LibraryServiceTests.cs:241-248 | on a valid ledger, the service's return equals the mock's with the emptied entry dropped |
| Mock.EmptiedEntryLingers | LibraryService.Tests/LibraryServiceTests.cs:220-248 | returning a user's only book leaves an empty entry, which does not block deleting the user |
| Scenarios.AddUserToEmpty | LibraryService.Tests/LibraryServiceTests.cs:70-77 | adding one user to an empty store gives one user, numbered 1 |
| Scenarios.EditTitleThenRead | LibraryService.Tests/LibraryServiceTests.cs:32-41 | editing the first book's title and reading the first book gives the new title |
| Scenarios.EditEmailThenRead | LibraryService.Tests/LibraryServiceTests.cs:80-89 | editing the first user's email and reading the first user gives the new email |
| Scenarios.DeleteOnlyBook | LibraryService.Tests/LibraryServiceTests.cs:44-53 | deleting the only, unborrowed book leaves the store empty |
| Scenarios.DeleteOnlyUser | LibraryService.Tests/LibraryServiceTests.cs:92-101 | deleting the only user, who has no loans, leaves the store empty |
| Scenarios.LoansAfterOneLoan | LibraryService.Tests/LibraryServiceTests.cs:229-235 | after the one lending, the ledger holds exactly user 1 with book 1 |
| Scenarios.LentBookAndUserCannotBeDeleted | LibraryService.Tests/LibraryServiceTests.cs:56-114 | after a borrow, deleting the book throws and deleting the user throws |
| Scenarios.BorrowThenReturnFlag | LibraryService.Tests/LibraryServiceTests.cs:119-175 | borrow sets the flag; a return through the mock or the service clears it |
| Scenarios.OneLoanOnePair | LibraryService.Tests/LibraryServiceTests.cs:148-162 | one borrow gives exactly one pair, with the book's title and the user's name |
| Scenarios.MockReturnThenDeleteUser | LibraryService.Tests/LibraryServiceTests.cs:220-248 | after a mock return the user keeps an empty entry and can still be deleted |
| Scenarios.AddAddDelete | Blazor_Lab_Starter_WebApp/Services/LibraryService.cs:46-78 | add A (id 1), add B (id 2), delete 1: only B, numbered 2, remains |
| Scenarios.AddsFromEmptyNumberFromOne | Blazor_Lab_Starter_WebApp/Services/LibraryService.cs:48 | adds from an empty store number the books 1, 2, 3, … |
| Scenarios.AddNeverAssignsZero | Blazor_Lab_Starter_WebApp/Models/Book.cs:5 | when the existing ids are not negative, an add never assigns the default id 0 |
| Scenarios.DefaultBookRow | Blazor_Lab_Starter_WebApp/Models/Book.cs:5-9 | a default book is Available, formats to five fields with empty texts, and reads back unchanged |
| Scenarios.DoubleBorrow | Blazor_Lab_Starter_WebApp/Services/LibraryService.cs:139-145 | a second user can borrow a lent book, which then sits on both users' lists |
| Scenarios.FlagDrift | Blazor_Lab_Starter_WebApp/Services/LibraryService.cs:155-170 | the second borrower's return clears the flag while the first borrower's list still holds the book |
| Scenarios.DanglingIdSkipped | Blazor_Lab_Starter_WebApp/Services/LibraryService.cs:63-179 | after that drift the book can be deleted while the first user's list still names it, and that user's borrowed-books query then skips the id |

## Left out

- File I/O. The model has no `File.Exists`, `ReadAllLines`, `WriteAllLines` or fixed paths. When a data file is missing, the service keeps its prior lists. That branch depends on I/O and is not modelled. Reads and saves are pure functions over a list of lines. Because of this, the service's save after each change and the mock's empty `ReadBooks`/`SaveBooks`/`ReadUsers`/`SaveUsers` look the same in the model.
- Object identity. The C# code mutates `Book` and `User` objects in place, and the tests read `book.Id` after `AddBook`. In the model, add returns the new state together with the assigned id. `List.Remove(book)` matches by reference. The object it removes is always the first one with that id, so the model removes the first index with that id.
- Integer width. Ids are unbounded `int`s. The wrap-around of `max + 1` at the 32-bit limit is not modelled.
- Number text. Book ids are read with `int.TryParse` and user ids with `int.Parse`. Both accept surrounding whitespace. Both refuse values outside 32 bits: `TryParse` reports failure and `Parse` throws. Both are modelled by `Text.ParseInt`: an optional sign followed by ASCII digits, with no whitespace and no range limit. Its value is pinned by `Text.IntRoundTrip` for the text `int.ToString` writes, and by `Text.ParseIntForms` for leading zeros and signs.
- Flag text. `bool.TryParse` is modelled as "true"/"false" in any ASCII letter case, without trimming. `bool.ToString` gives "True"/"False".
- Line breaks inside a field. `File.WriteAllLines` followed by `File.ReadAllLines` splits such a field's row in two. The file is a list of lines here, so `Csv.Plain` excludes line breaks (and commas) from the texts the round-trip lemmas cover.
- Dictionary enumeration order. `GetAllBorrowedBooksWithUsers` walks the dictionary in an order the runtime chooses. The model takes that order as a parameter, `order`, which lists each key exactly once.
- Service.AllBorrowed: the contract fixes which pairs appear and bounds their number, but not their order. The order is set by the runtime's key order, which is the `order` parameter here. `AllBorrowed` visits the keys in that order, and `Service.PairsOverAppend` and `Service.PairsOverOne` fix what each key contributes.
- The test at LibraryService.Tests/LibraryServiceTests.cs:28 expects 999 books after one add. The code cannot satisfy that, so it is not a property here.
- Concurrency. Several UI sessions share one service instance, with no locking. The model is sequential.
- Hosting. Program.cs is web host and DI setup, with no logic. ILibraryService.cs is a bare interface.
- `User` is declared in a file that is not part of this model. Its fields (integer id, name, email) are taken from how the service reads and writes it.
