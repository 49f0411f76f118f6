/**
 * `LibraryServiceMock`, the persistence-free variant the tests run against.
 * Its read and save calls do nothing, and every operation but one behaves
 * as the service's does. The exception is `ReturnBook`: it removes the id
 * from the user's list without checking it is there, never drops an emptied
 * entry, and clears the book's flag unconditionally.
 */
module Mock {
  import opened Outcomes
  import opened Records
  import opened Store
  import Ledger
  import opened Service

  /** The mock's ledger update on return: the entry, if any, loses one copy of the id and stays. */
  function ReturnLoans(loans: Ledger.Loans, u: int, b: int): (r: Ledger.Loans)
    ensures r.Keys == loans.Keys
    ensures forall k | k in loans && k != u :: r[k] == loans[k]
    ensures u in loans ==> multiset(r[u]) == multiset(loans[u]) - multiset{b}
    ensures u in loans && b !in loans[u] ==> r[u] == loans[u]
    ensures u in loans && b in loans[u] ==>
      exists i :: IsFirst(loans[u], Ledger.Self, b, i) && r[u] == loans[u][..i] + loans[u][i + 1..]
  {
    if u in loans then
      Ledger.RemoveMultiset(loans[u], b);
      if b in loans[u] then
        Ledger.FirstOccurrence(loans[u], b);
        loans[u := RemoveFirst(loans[u], Ledger.Self, b)]
      else
        assert Absent(loans[u], Ledger.Self, b);
        loans[u := RemoveFirst(loans[u], Ledger.Self, b)]
    else loans
  }

  /** The mock's `ReturnBook`. */
  function ReturnBook(lib: Library, u: int, b: int): (r: Library)
    ensures r.users == lib.users
    ensures r.loans == ReturnLoans(lib.loans, u, b)
    ensures FlagSet(lib.books, r.books, b, false)
  {
    var back := lib.(loans := ReturnLoans(lib.loans, u, b));
    match FindBook(lib, b)
    case Some(book) => EditBook(back, book.(isBorrowed := false))
    case None => back
  }

  /** The mock's ledger shape: entries may be empty, but never list a book twice. */
  predicate Valid(loans: Ledger.Loans) {
    forall u | u in loans :: Ledger.NoDups(loans[u])
  }

  predicate Invariant(lib: Library) {
    UniqueKeys(lib.books, BookId) && UniqueKeys(lib.users, UserId) && Valid(lib.loans)
  }

  /** One call on the mock: the service's behaviour except for `ReturnBook`. */
  function Step(lib: Library, op: Op): (r: Result<Library, Conflict>)
    ensures r.Err? <==> Service.Step(lib, op).Err?
  {
    match op
    case ReturnOp(u, b) => Ok(ReturnBook(lib, u, b))
    case _ => Service.Step(lib, op)
  }

  /** Every mock operation that succeeds keeps ids unique and entries duplicate-free. */
  lemma StepKeepsInvariant(lib: Library, op: Op)
    requires Invariant(lib)
    ensures Step(lib, op).Ok? ==> Invariant(Step(lib, op).value)
  {
    match op
    case AddBookOp(b) =>
      AppendFreshKeepsUnique(lib.books, BookId, b.(id := AddBook(lib, b).1));
    case EditBookOp(b) =>
      ReplaceKeepsUnique(lib.books, BookId, b);
    case DeleteBookOp(id) =>
      RemoveFirstKeepsUnique(lib.books, BookId, id);
    case AddUserOp(u) =>
      AppendFreshKeepsUnique(lib.users, UserId, u.(id := AddUser(lib, u).1));
    case EditUserOp(u) =>
      ReplaceKeepsUnique(lib.users, UserId, u);
    case DeleteUserOp(id) =>
      RemoveFirstKeepsUnique(lib.users, UserId, id);
    case BorrowOp(u, b) =>
      Ledger.BorrowOnce(lib.loans, u, b);
      FlagSetKeepsIds(lib.books, BorrowBook(lib, u, b).books, b, true);
    case ReturnOp(u, b) =>
      if u in lib.loans {
        Ledger.RemoveKeepsNoDups(lib.loans[u], b);
      }
      FlagSetKeepsIds(lib.books, ReturnBook(lib, u, b).books, b, false);
  }

  /** The service's state after a return, given the mock's: the same, minus an entry the return emptied. */
  function Prune(lib: Library, u: int): Library {
    if u in lib.loans && |lib.loans[u]| == 0 then lib.(loans := lib.loans - {u}) else lib
  }

  /** On a valid ledger the two `ReturnBook`s differ only in the emptied entry the mock keeps. */
  lemma ReturnMatchesService(lib: Library, u: int, b: int)
    requires Ledger.Valid(lib.loans)
    ensures Service.ReturnBook(lib, u, b) == Prune(ReturnBook(lib, u, b), u)
  {
  }

  /** Returning a user's only book through the mock leaves an empty entry, which does not block deleting the user. */
  lemma EmptiedEntryLingers(lib: Library, u: int, b: int)
    requires u in lib.loans && lib.loans[u] == [b]
    ensures u in ReturnBook(lib, u, b).loans
    ensures ReturnBook(lib, u, b).loans[u] == []
    ensures u !in Service.ReturnBook(lib, u, b).loans
    ensures DeleteUser(ReturnBook(lib, u, b), u).Ok?
  {
  }
}
