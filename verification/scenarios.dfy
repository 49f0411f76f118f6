/**
 * The test suite's scenarios, run against the mock from an empty state, and
 * a few consequences of the code stated as concrete runs: the numbering
 * of successive adds, the state a default book starts in, and the two
 * ways the ledger and the book flags can disagree.
 */
module Scenarios {
  import opened Outcomes
  import opened Records
  import opened Store
  import Ledger
  import opened Service
  import Mock
  import Csv
  import Text

  /** A book as the tests build one: texts set, flag and id left at their defaults. */
  function TestBook(title: string, author: string, isbn: string): Book {
    DefaultBook.(title := title, author := author, isbn := isbn)
  }

  /** Adding one user to an empty store gives one user, numbered 1. */
  lemma AddUserToEmpty(u: User)
    ensures |AddUser(Empty, u).0.users| == 1
    ensures AddUser(Empty, u).0.users[0].id == 1
  {
  }

  /** Editing the first book's title and reading the first book back gives the new title. */
  lemma EditTitleThenRead(b: Book, title: string)
    ensures var lib := AddBook(Empty, b).0;
      EditBook(lib, lib.books[0].(title := title)).books[0].title == title
  {
  }

  /** Editing the first user's email and reading the first user back gives the new email. */
  lemma EditEmailThenRead(u: User, email: string)
    ensures var lib := AddUser(Empty, u).0;
      EditUser(lib, lib.users[0].(email := email)).users[0].email == email
  {
  }

  /** Deleting the only book, not borrowed, empties the book list. */
  lemma DeleteOnlyBook(title: string, author: string, isbn: string)
    ensures var lib := AddBook(Empty, TestBook(title, author, isbn)).0;
      DeleteBook(lib, lib.books[0].id) == Ok(Empty)
  {
  }

  /** Deleting the only user, who has no loans, empties the user list. */
  lemma DeleteOnlyUser(u: User)
    ensures var lib := AddUser(Empty, u).0;
      DeleteUser(lib, lib.users[0].id) == Ok(Empty)
  {
  }

  /** The library after adding one book and one user and lending the book to the user. */
  function OneLoan(b: Book, u: User): Library {
    var withBook := AddBook(Empty, b).0;
    var withBoth := AddUser(withBook, u).0;
    BorrowBook(withBoth, 1, 1)
  }

  /** The ledger after the one lending: user 1 holds book 1. */
  lemma LoansAfterOneLoan(b: Book, u: User)
    ensures OneLoan(b, u).loans == map[1 := [1]]
  {
    var r := Ledger.Borrow(map[], 1, 1);
    assert Ledger.Loaned(map[], 1) == [];
    assert r.Keys == {1};
    assert r[1] == [1];
  }

  /** After the lending, both the book and the user are protected from deletion. */
  lemma LentBookAndUserCannotBeDeleted(b: Book, u: User)
    ensures DeleteBook(OneLoan(b, u), 1) == Err(BookIsBorrowed)
    ensures DeleteUser(OneLoan(b, u), 1) == Err(UserHasLoans)
  {
  }

  /** Borrowing flags the first book; returning it, through the mock or the service, clears the flag. */
  lemma BorrowThenReturnFlag(b: Book, u: User)
    ensures OneLoan(b, u).books[0].isBorrowed
    ensures !Mock.ReturnBook(OneLoan(b, u), 1, 1).books[0].isBorrowed
    ensures !Service.ReturnBook(OneLoan(b, u), 1, 1).books[0].isBorrowed
  {
  }

  /** The one lending gives exactly one (book, user) pair, carrying the book's title and the user's name. */
  lemma OneLoanOnePair(b: Book, u: User)
    ensures Enumerates([1], OneLoan(b, u).loans)
    ensures |AllBorrowed(OneLoan(b, u), [1])| == 1
    ensures AllBorrowed(OneLoan(b, u), [1])[0].0.title == b.title
    ensures AllBorrowed(OneLoan(b, u), [1])[0].1.name == u.name
  {
  }

  /** Through the mock, returning the only book leaves an empty entry, and the user can still be deleted. */
  lemma MockReturnThenDeleteUser(b: Book, u: User)
    ensures var back := Mock.ReturnBook(OneLoan(b, u), 1, 1);
      1 in back.loans && back.loans[1] == [] && DeleteUser(back, 1) == Ok(back.(users := []))
  {
  }

  /** Add "A", add "B", delete book 1: only "B", numbered 2, remains. */
  lemma AddAddDelete(a: Book, b: Book)
    requires !a.isBorrowed
    ensures var two := AddBook(AddBook(Empty, a).0, b).0;
      DeleteBook(two, 1) == Ok(Empty.(books := [b.(id := 2)]))
  {
    var one := AddBook(Empty, a).0;
    var two := AddBook(one, b).0;
    assert two.books == [a.(id := 1), b.(id := 2)];
    assert IsFirst(two.books, BookId, 1, 0);
    var rest := RemoveFirst(two.books, BookId, 1);
    assert |rest| == 1 && rest[0] == b.(id := 2);
    assert rest == [b.(id := 2)];
  }

  /** Successive adds starting from an empty store number the books 1, 2, 3, … in list order. */
  lemma AddsFromEmptyNumberFromOne(bs: seq<Book>)
    ensures |AddBooks(Empty, bs).books| == |bs|
    ensures forall i :: 0 <= i < |bs| ==> AddBooks(Empty, bs).books[i].id == i + 1
  {
    AddBooksNumbersFromOne(Empty, bs);
  }

  /** Starting from non-negative ids, an add never hands out id 0. */
  lemma AddNeverAssignsZero(lib: Library, b: Book)
    requires forall i :: 0 <= i < |lib.books| ==> lib.books[i].id >= 0
    ensures AddBook(lib, b).1 >= 1
  {
  }

  /** A default book is Available, and its row holds empty texts and reads back as the same book. */
  lemma DefaultBookRow()
    ensures AvailabilityOf(DefaultBook) == Available
    ensures Text.Split(Csv.FormatBook(DefaultBook)) == ["0", "", "", "False", ""]
    ensures Csv.ParseBookRow(Csv.FormatBook(DefaultBook)) == Some(DefaultBook)
  {
    Csv.BookRowRoundTrip(DefaultBook);
    assert Text.IntToString(0) == "0";
  }

  /** Nothing stops a second user borrowing a lent book: it then sits on both users' lists. */
  lemma DoubleBorrow(b: Book, u: User)
    ensures var lib := BorrowBook(OneLoan(b, u), 2, 1);
      1 in lib.loans[1] && 1 in lib.loans[2]
  {
  }

  /** The second borrower's return clears the flag although the first borrower's list still holds the book. */
  lemma FlagDrift(b: Book, u: User)
    ensures var lib := Service.ReturnBook(BorrowBook(OneLoan(b, u), 2, 1), 2, 1);
      1 in lib.loans[1] && !lib.books[0].isBorrowed
  {
  }

  /** After that drift the book can be deleted while user 1's list still names it; the user's query then skips the id. */
  lemma DanglingIdSkipped(b: Book, u: User)
    ensures var lib := Service.ReturnBook(BorrowBook(OneLoan(b, u), 2, 1), 2, 1);
      DeleteBook(lib, 1).Ok? && 1 in DeleteBook(lib, 1).value.loans[1] && BorrowedBy(DeleteBook(lib, 1).value, 1) == []
  {
    FlagDrift(b, u);
    var lib := Service.ReturnBook(BorrowBook(OneLoan(b, u), 2, 1), 2, 1);
    assert IsFirst(lib.books, BookId, 1, 0);
    var gone := DeleteBook(lib, 1).value;
    assert gone.books == [];
    LookupAllOne(gone.books, 1);
  }
}
