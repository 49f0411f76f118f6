/**
 * `LibraryService`: the book and user lists plus the lending ledger, with
 * every operation a pure transition from one library state to the next.
 * Persistence (the rewrite of the data file after each change) is the row
 * format of module Csv and is not repeated here.
 */
module Service {
  import opened Outcomes
  import opened Records
  import opened Store
  import Ledger

  datatype Library = Library(books: seq<Book>, users: seq<User>, loans: Ledger.Loans)

  /** The state of a service whose data files are missing. */
  const Empty: Library := Library([], [], map[])

  /** The `InvalidOperationException`s the guarded deletes throw. */
  datatype Conflict = BookIsBorrowed | UserHasLoans

  /** The lookup every operation does: the first book with the id, if any. */
  function FindBook(lib: Library, id: int): Option<Book> {
    Find(lib.books, BookId, id)
  }

  function FindUser(lib: Library, id: int): Option<User> {
    Find(lib.users, UserId, id)
  }

  // ---------------------------------------------------------------- books

  /** `AddBook`: the book gets one past the largest id (1 for the first) and goes at the end. */
  function AddBook(lib: Library, b: Book): (r: (Library, int))
    ensures r.0.users == lib.users && r.0.loans == lib.loans
    ensures r.0.books == lib.books + [b.(id := r.1)]
    ensures |lib.books| == 0 ==> r.1 == 1
    ensures forall i :: 0 <= i < |lib.books| ==> lib.books[i].id < r.1
    ensures |lib.books| > 0 ==> exists i :: 0 <= i < |lib.books| && lib.books[i].id == r.1 - 1
  {
    var id := NextKey(lib.books, BookId);
    (lib.(books := lib.books + [b.(id := id)]), id)
  }

  /** `EditBook`: the first book with the same id is replaced; an unknown id changes nothing. */
  function EditBook(lib: Library, b: Book): (r: Library)
    ensures r.users == lib.users && r.loans == lib.loans
    ensures |r.books| == |lib.books|
    ensures forall j :: 0 <= j < |r.books| ==> r.books[j].id == lib.books[j].id
    ensures Absent(lib.books, BookId, b.id) ==> r.books == lib.books
    ensures forall i | IsFirst(lib.books, BookId, b.id, i) :: r.books == lib.books[i := b]
    ensures FindBook(r, b.id) == if FindBook(lib, b.id).Some? then Some(b) else None
  {
    var r := lib.(books := Replace(lib.books, BookId, b));
    EditThenFind(lib.books, b);
    r
  }

  /** After a replacement, looking the id up finds the new value. */
  lemma EditThenFind(xs: seq<Book>, b: Book)
    ensures Find(Replace(xs, BookId, b), BookId, b.id) == if Find(xs, BookId, b.id).Some? then Some(b) else None
  {
  }

  /** `DeleteBook`: a borrowed book throws; an unknown id is a no-op; otherwise the book is removed. */
  function DeleteBook(lib: Library, id: int): (r: Result<Library, Conflict>)
    ensures r.Err? <==> FindBook(lib, id).Some? && FindBook(lib, id).value.isBorrowed
    ensures r.Err? ==> r.error == BookIsBorrowed
    ensures r.Ok? ==> r.value.users == lib.users && r.value.loans == lib.loans
    ensures r.Ok? && Absent(lib.books, BookId, id) ==> r.value.books == lib.books
    ensures r.Ok? ==> forall i | IsFirst(lib.books, BookId, id, i) ::
      !lib.books[i].isBorrowed && r.value.books == lib.books[..i] + lib.books[i + 1..]
  {
    match FindBook(lib, id)
    case Some(b) =>
      if b.isBorrowed then Err(BookIsBorrowed)
      else Ok(lib.(books := RemoveFirst(lib.books, BookId, id)))
    case None => Ok(lib)
  }

  // ---------------------------------------------------------------- users

  /** `AddUser`: the user gets one past the largest id (1 for the first) and goes at the end. */
  function AddUser(lib: Library, u: User): (r: (Library, int))
    ensures r.0.books == lib.books && r.0.loans == lib.loans
    ensures r.0.users == lib.users + [u.(id := r.1)]
    ensures |lib.users| == 0 ==> r.1 == 1
    ensures forall i :: 0 <= i < |lib.users| ==> lib.users[i].id < r.1
    ensures |lib.users| > 0 ==> exists i :: 0 <= i < |lib.users| && lib.users[i].id == r.1 - 1
  {
    var id := NextKey(lib.users, UserId);
    (lib.(users := lib.users + [u.(id := id)]), id)
  }

  /** `EditUser`: the first user with the same id is replaced; an unknown id changes nothing. */
  function EditUser(lib: Library, u: User): (r: Library)
    ensures r.books == lib.books && r.loans == lib.loans
    ensures |r.users| == |lib.users|
    ensures forall j :: 0 <= j < |r.users| ==> r.users[j].id == lib.users[j].id
    ensures Absent(lib.users, UserId, u.id) ==> r.users == lib.users
    ensures forall i | IsFirst(lib.users, UserId, u.id, i) :: r.users == lib.users[i := u]
  {
    lib.(users := Replace(lib.users, UserId, u))
  }

  /** `DeleteUser`: a user with open loans throws; otherwise the user, if present, is removed. */
  function DeleteUser(lib: Library, id: int): (r: Result<Library, Conflict>)
    ensures r.Err? <==> Ledger.HasLoans(lib.loans, id)
    ensures r.Err? ==> r.error == UserHasLoans
    ensures r.Ok? ==> r.value.books == lib.books && r.value.loans == lib.loans
    ensures r.Ok? && Absent(lib.users, UserId, id) ==> r.value.users == lib.users
    ensures r.Ok? ==> forall i | IsFirst(lib.users, UserId, id, i) ::
      r.value.users == lib.users[..i] + lib.users[i + 1..]
  {
    if Ledger.HasLoans(lib.loans, id) then Err(UserHasLoans)
    else Ok(lib.(users := RemoveFirst(lib.users, UserId, id)))
  }

  // ---------------------------------------------------------------- lending

  /** The books after the first one with id `b` has had its flag set to `flag`. */
  predicate FlagSet(before: seq<Book>, after: seq<Book>, b: int, flag: bool) {
    && |after| == |before|
    && forall j :: 0 <= j < |before| ==>
         after[j] == if IsFirst(before, BookId, b, j) then before[j].(isBorrowed := flag) else before[j]
  }

  /**
   * `BorrowBook`: the book goes on the user's list (once), and the first book
   * with that id, if any, is flagged borrowed. Neither the user nor the
   * book's availability is checked.
   */
  function BorrowBook(lib: Library, u: int, b: int): (r: Library)
    ensures r.users == lib.users
    ensures r.loans == Ledger.Borrow(lib.loans, u, b)
    ensures FlagSet(lib.books, r.books, b, true)
  {
    var lent := lib.(loans := Ledger.Borrow(lib.loans, u, b));
    match FindBook(lib, b)
    case None => lent
    case Some(book) => EditBook(lent, book.(isBorrowed := true))
  }

  /**
   * `ReturnBook`: the book leaves the user's list (and an emptied entry is
   * dropped); the first book with that id, if any, is flagged available,
   * whether or not it was on this user's list.
   */
  function ReturnBook(lib: Library, u: int, b: int): (r: Library)
    ensures r.users == lib.users
    ensures r.loans == Ledger.Return(lib.loans, u, b)
    ensures FlagSet(lib.books, r.books, b, false)
  {
    var back := lib.(loans := Ledger.Return(lib.loans, u, b));
    match FindBook(lib, b)
    case Some(book) =>
      if book.isBorrowed then EditBook(back, book.(isBorrowed := false)) else back
    case None => back
  }

  /** After a flag update the id still finds a book, now carrying the new flag. */
  lemma FlagSetFind(before: seq<Book>, after: seq<Book>, b: int, flag: bool)
    requires FlagSet(before, after, b, flag)
    ensures Find(after, BookId, b).Some? <==> Find(before, BookId, b).Some?
    ensures Find(after, BookId, b).Some? ==>
      Find(after, BookId, b).value == Find(before, BookId, b).value.(isBorrowed := flag)
  {
  }

  /** After `BorrowBook` an existing book is flagged borrowed and shows up among the user's books. */
  lemma BorrowThenQuery(lib: Library, u: int, b: int)
    requires FindBook(lib, b).Some?
    ensures FindBook(BorrowBook(lib, u, b), b).Some?
    ensures FindBook(BorrowBook(lib, u, b), b).value.isBorrowed
    ensures FindBook(BorrowBook(lib, u, b), b).value in BorrowedBy(BorrowBook(lib, u, b), u)
  {
  }

  /** After `ReturnBook` an existing book is available, and in a valid ledger it is off the user's list. */
  lemma ReturnThenQuery(lib: Library, u: int, b: int)
    ensures FindBook(ReturnBook(lib, u, b), b).Some? <==> FindBook(lib, b).Some?
    ensures FindBook(ReturnBook(lib, u, b), b).Some? ==> !FindBook(ReturnBook(lib, u, b), b).value.isBorrowed
    ensures Ledger.Valid(lib.loans) ==> b !in Ledger.Loaned(ReturnBook(lib, u, b).loans, u)
  {
  }

  /** A book that has just been lent can be deleted neither as a book nor through its borrower. */
  lemma BorrowBlocksDeletes(lib: Library, u: int, b: int)
    requires FindBook(lib, b).Some?
    ensures DeleteBook(BorrowBook(lib, u, b), b) == Err(BookIsBorrowed)
    ensures DeleteUser(BorrowBook(lib, u, b), u) == Err(UserHasLoans)
  {
  }

  /** An existing book can be deleted exactly when it is in the Available state. */
  lemma DeleteOnlyWhenAvailable(lib: Library, id: int)
    requires FindBook(lib, id).Some?
    ensures DeleteBook(lib, id).Ok? <==> AvailabilityOf(FindBook(lib, id).value) == Available
  {
  }

  // ---------------------------------------------------------------- queries

  /** The books the ids name, in id order, skipping ids that name no book. */
  function LookupAll(books: seq<Book>, ids: seq<int>): (r: seq<Book>)
    ensures |r| <= |ids|
    ensures forall x | x in r :: x.id in ids && Find(books, BookId, x.id) == Some(x)
    ensures forall id | id in ids && Find(books, BookId, id).Some? :: Find(books, BookId, id).value in r
    ensures (forall k :: 0 <= k < |ids| ==> Find(books, BookId, ids[k]).Some?) ==>
      |r| == |ids| && forall k :: 0 <= k < |ids| ==> Some(r[k]) == Find(books, BookId, ids[k])
  {
    if |ids| == 0 then []
    else
      var rest := LookupAll(books, ids[1..]);
      assert forall k :: 1 <= k < |ids| ==> ids[k] == ids[1..][k - 1];
      match Find(books, BookId, ids[0])
      case None => rest
      case Some(x) =>
        FoundHasId(books, ids[0]);
        [x] + rest
  }

  /** The books of two blocks of ids, one after the other: ids are looked up one at a time. */
  lemma {:induction false} LookupAllAppend(books: seq<Book>, xs: seq<int>, ys: seq<int>)
    ensures LookupAll(books, xs + ys) == LookupAll(books, xs) + LookupAll(books, ys)
  {
    if |xs| == 0 {
      assert xs + ys == ys;
    } else {
      assert (xs + ys)[0] == xs[0] && (xs + ys)[1..] == xs[1..] + ys;
      LookupAllAppend(books, xs[1..], ys);
    }
  }

  /** A single id gives its book when one has that id, and nothing otherwise. */
  lemma LookupAllOne(books: seq<Book>, id: int)
    ensures LookupAll(books, [id]) == if Find(books, BookId, id).Some? then [Find(books, BookId, id).value] else []
  {
    assert [id][1..] == [];
  }

  /** A book found by id carries that id. */
  lemma FoundHasId(books: seq<Book>, id: int)
    requires Find(books, BookId, id).Some?
    ensures Find(books, BookId, id).value.id == id
  {
  }

  /** `GetBorrowedBooksByUser`: the user's books in ledger order; nothing for a user with no entry. */
  function BorrowedBy(lib: Library, u: int): (r: seq<Book>)
    ensures u !in lib.loans ==> r == []
    ensures |r| <= |Ledger.Loaned(lib.loans, u)|
    ensures forall x | x in r :: x.id in lib.loans[u] && FindBook(lib, x.id) == Some(x)
    ensures forall id | id in Ledger.Loaned(lib.loans, u) && FindBook(lib, id).Some? :: FindBook(lib, id).value in r
    ensures u in lib.loans && (forall k :: 0 <= k < |lib.loans[u]| ==> FindBook(lib, lib.loans[u][k]).Some?) ==>
      |r| == |lib.loans[u]| && forall k :: 0 <= k < |r| ==> Some(r[k]) == FindBook(lib, lib.loans[u][k])
  {
    if u in lib.loans then LookupAll(lib.books, lib.loans[u]) else []
  }

  /** An id on the user's list that names no book is skipped; the books around it keep their ledger order. */
  lemma BorrowedBySkipsMissing(lib: Library, u: int, xs: seq<int>, id: int, ys: seq<int>)
    requires u in lib.loans && lib.loans[u] == xs + [id] + ys
    requires FindBook(lib, id).None?
    ensures BorrowedBy(lib, u) == LookupAll(lib.books, xs) + LookupAll(lib.books, ys)
  {
    LookupAllAppend(lib.books, xs + [id], ys);
    LookupAllAppend(lib.books, xs, [id]);
    LookupAllOne(lib.books, id);
  }

  /** The total length of the listed users' entries. */
  function TotalLoans(loans: Ledger.Loans, keys: seq<int>): nat
    requires forall i :: 0 <= i < |keys| ==> keys[i] in loans
  {
    if |keys| == 0 then 0
    else
      |loans[keys[0]]| + TotalLoans(loans, keys[1..])
  }

  /** One (book, user) pair per book of `books`. */
  function WithHolder(books: seq<Book>, u: User): (r: seq<(Book, User)>)
    ensures |r| == |books|
    ensures forall p | p in r :: p.0 in books && p.1 == u
    ensures forall x | x in books :: (x, u) in r
    ensures forall i :: 0 <= i < |books| ==> r[i] == (books[i], u)
  {
    var r := seq(|books|, i requires 0 <= i < |books| => (books[i], u));
    assert forall i :: 0 <= i < |books| ==> r[i] == (books[i], u);
    r
  }

  /** The pairs of the listed ledger keys, in key order. */
  function PairsOver(lib: Library, keys: seq<int>): (r: seq<(Book, User)>)
    requires forall i :: 0 <= i < |keys| ==> keys[i] in lib.loans
    ensures |r| <= TotalLoans(lib.loans, keys)
    ensures forall p | p in r :: p.1.id in keys && FindUser(lib, p.1.id) == Some(p.1) && p.0 in BorrowedBy(lib, p.1.id)
    ensures forall k, x | k in keys && FindUser(lib, k).Some? && x in BorrowedBy(lib, k) :: (x, FindUser(lib, k).value) in r
  {
    if |keys| == 0 then []
    else
      var rest := PairsOver(lib, keys[1..]);
      match FindUser(lib, keys[0])
      case None => rest
      case Some(u) =>
        assert u.id == keys[0];
        WithHolder(BorrowedBy(lib, keys[0]), u) + rest
  }

  /** Keys are visited one at a time: the pairs of two blocks of keys, one after the other. */
  lemma {:induction false} PairsOverAppend(lib: Library, xs: seq<int>, ys: seq<int>)
    requires forall i :: 0 <= i < |xs| ==> xs[i] in lib.loans
    requires forall i :: 0 <= i < |ys| ==> ys[i] in lib.loans
    ensures PairsOver(lib, xs + ys) == PairsOver(lib, xs) + PairsOver(lib, ys)
  {
    if |xs| == 0 {
      assert xs + ys == ys;
    } else {
      assert (xs + ys)[0] == xs[0] && (xs + ys)[1..] == xs[1..] + ys;
      PairsOverAppend(lib, xs[1..], ys);
    }
  }

  /** One key: nothing when no user has it, else one pair per book the user still holds, in ledger order. */
  lemma PairsOverOne(lib: Library, k: int)
    requires k in lib.loans
    ensures FindUser(lib, k).None? ==> PairsOver(lib, [k]) == []
    ensures FindUser(lib, k).Some? ==>
      && |PairsOver(lib, [k])| == |BorrowedBy(lib, k)|
      && forall i :: 0 <= i < |BorrowedBy(lib, k)| ==> PairsOver(lib, [k])[i] == (BorrowedBy(lib, k)[i], FindUser(lib, k).value)
  {
    assert [k][1..] == [];
  }

  /** The enumeration order of the ledger dictionary: each key exactly once. */
  predicate Enumerates(order: seq<int>, loans: Ledger.Loans) {
    && Ledger.NoDups(order)
    && (forall i :: 0 <= i < |order| ==> order[i] in loans)
    && (forall k | k in loans :: k in order)
  }

  /**
   * `GetAllBorrowedBooksWithUsers`: one (book, user) pair per ledger entry
   * whose user and book both still exist, key by key in the dictionary's
   * enumeration order, books in ledger order.
   */
  function AllBorrowed(lib: Library, order: seq<int>): (r: seq<(Book, User)>)
    requires Enumerates(order, lib.loans)
    ensures |r| <= TotalLoans(lib.loans, order)
    ensures forall p | p in r ::
      && FindUser(lib, p.1.id) == Some(p.1)
      && p.1.id in lib.loans
      && p.0.id in lib.loans[p.1.id]
      && FindBook(lib, p.0.id) == Some(p.0)
    ensures forall k, id | k in lib.loans && id in lib.loans[k] && FindUser(lib, k).Some? && FindBook(lib, id).Some? ::
      (FindBook(lib, id).value, FindUser(lib, k).value) in r
  {
    PairsOver(lib, order)
  }

  // ---------------------------------------------------------------- state machine

  datatype Op =
    | AddBookOp(book: Book)
    | EditBookOp(book: Book)
    | DeleteBookOp(id: int)
    | AddUserOp(user: User)
    | EditUserOp(user: User)
    | DeleteUserOp(id: int)
    | BorrowOp(userId: int, bookId: int)
    | ReturnOp(userId: int, bookId: int)

  /** One call on the service; a thrown conflict is `Err`. */
  function Step(lib: Library, op: Op): (r: Result<Library, Conflict>)
    ensures r.Err? ==> (op.DeleteBookOp? && r.error == BookIsBorrowed) || (op.DeleteUserOp? && r.error == UserHasLoans)
    ensures BookOp(op) && r.Ok? ==> r.value.users == lib.users && r.value.loans == lib.loans
  {
    match op
    case AddBookOp(b) => Ok(AddBook(lib, b).0)
    case EditBookOp(b) => Ok(EditBook(lib, b))
    case DeleteBookOp(id) => DeleteBook(lib, id)
    case AddUserOp(u) => Ok(AddUser(lib, u).0)
    case EditUserOp(u) => Ok(EditUser(lib, u))
    case DeleteUserOp(id) => DeleteUser(lib, id)
    case BorrowOp(u, b) => Ok(BorrowBook(lib, u, b))
    case ReturnOp(u, b) => Ok(ReturnBook(lib, u, b))
  }

  /** A call that touches only the book list. */
  predicate BookOp(op: Op) {
    op.AddBookOp? || op.EditBookOp? || op.DeleteBookOp?
  }

  /** A sequence of calls; a call that throws leaves the state as it was. */
  function Run(lib: Library, ops: seq<Op>): (r: Library)
    ensures |ops| == 0 ==> r == lib
    ensures (forall i :: 0 <= i < |ops| ==> BookOp(ops[i])) ==> r.users == lib.users && r.loans == lib.loans
    decreases |ops|
  {
    if |ops| == 0 then lib
    else
      var next := match Step(lib, ops[0]) case Ok(l) => l case Err(_) => lib;
      assert forall i :: 1 <= i < |ops| ==> ops[1..][i - 1] == ops[i];
      Run(next, ops[1..])
  }

  /** Unique ids in both lists and a valid ledger: what every call keeps, starting from empty files. */
  predicate Invariant(lib: Library) {
    UniqueKeys(lib.books, BookId) && UniqueKeys(lib.users, UserId) && Ledger.Valid(lib.loans)
  }

  /** Every operation that succeeds preserves the invariant. */
  lemma StepKeepsInvariant(lib: Library, op: Op)
    requires Invariant(lib)
    ensures Step(lib, op).Ok? ==> Invariant(Step(lib, op).value)
  {
    match op
    case AddBookOp(b) =>
      AppendFreshKeepsUnique(lib.books, BookId, b.(id := AddBook(lib, b).1));
    case EditBookOp(b) =>
      ReplaceKeepsUnique(lib.books, BookId, b);
    case DeleteBookOp(id) =>
      RemoveFirstKeepsUnique(lib.books, BookId, id);
    case AddUserOp(u) =>
      AppendFreshKeepsUnique(lib.users, UserId, u.(id := AddUser(lib, u).1));
    case EditUserOp(u) =>
      ReplaceKeepsUnique(lib.users, UserId, u);
    case DeleteUserOp(id) =>
      RemoveFirstKeepsUnique(lib.users, UserId, id);
    case BorrowOp(u, b) =>
      Ledger.BorrowKeepsValid(lib.loans, u, b);
      FlagSetKeepsIds(lib.books, BorrowBook(lib, u, b).books, b, true);
    case ReturnOp(u, b) =>
      Ledger.ReturnKeepsValid(lib.loans, u, b);
      FlagSetKeepsIds(lib.books, ReturnBook(lib, u, b).books, b, false);
  }

  lemma FlagSetKeepsIds(before: seq<Book>, after: seq<Book>, b: int, flag: bool)
    requires FlagSet(before, after, b, flag) && UniqueKeys(before, BookId)
    ensures UniqueKeys(after, BookId)
  {
  }

  /** Every state the service reaches from empty files satisfies the invariant. */
  lemma {:induction false} RunKeepsInvariant(lib: Library, ops: seq<Op>)
    requires Invariant(lib)
    ensures Invariant(Run(lib, ops))
    decreases |ops|
  {
    if |ops| > 0 {
      StepKeepsInvariant(lib, ops[0]);
      var next := match Step(lib, ops[0]) case Ok(l) => l case Err(_) => lib;
      RunKeepsInvariant(next, ops[1..]);
    }
  }

  /** Adding books one after another to an empty list numbers them 1, 2, 3, … */
  function AddBooks(lib: Library, bs: seq<Book>): Library
    decreases |bs|
  {
    if |bs| == 0 then lib else AddBooks(AddBook(lib, bs[0]).0, bs[1..])
  }

  lemma {:induction false} AddBooksNumbersFromOne(lib: Library, bs: seq<Book>)
    requires forall i :: 0 <= i < |lib.books| ==> lib.books[i].id == i + 1
    ensures |AddBooks(lib, bs).books| == |lib.books| + |bs|
    ensures forall i :: 0 <= i < |AddBooks(lib, bs).books| ==> AddBooks(lib, bs).books[i].id == i + 1
    decreases |bs|
  {
    if |bs| > 0 {
      var (next, id) := AddBook(lib, bs[0]);
      if |lib.books| > 0 {
        var i :| 0 <= i < |lib.books| && lib.books[i].id == id - 1;
        assert lib.books[|lib.books| - 1].id >= id - 1;
        assert id == |lib.books| + 1;
      }
      assert forall i :: 0 <= i < |next.books| ==> next.books[i].id == i + 1;
      AddBooksNumbersFromOne(next, bs[1..]);
    }
  }
}
