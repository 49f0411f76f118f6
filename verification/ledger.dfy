/**
 * The lending ledger: for each user id, the ids of the books that user has
 * out, in the order they were borrowed. The service never loads it from
 * disk; it starts empty and changes only through borrow and return.
 */
module Ledger {
  import opened Outcomes
  import opened Store

  type Loans = map<int, seq<int>>

  /** The key of a book id inside a user's list: the id itself, so `RemoveFirst` is `List.Remove(id)`. */
  function Self(x: int): int { x }

  predicate NoDups(xs: seq<int>) {
    forall i, j :: 0 <= i < j < |xs| ==> xs[i] != xs[j]
  }

  /** The shape borrow and return keep: every entry is non-empty and lists each book once. */
  predicate Valid(loans: Loans) {
    forall u | u in loans :: |loans[u]| > 0 && NoDups(loans[u])
  }

  /** The guard on deleting a user: an entry exists and is non-empty. */
  predicate HasLoans(loans: Loans, u: int) {
    u in loans && |loans[u]| > 0
  }

  /** A user's list, or the empty list when the user has no entry. */
  function Loaned(loans: Loans, u: int): seq<int> {
    if u in loans then loans[u] else []
  }

  /**
   * `BorrowBook`'s ledger half: create the entry if missing, then append the
   * book unless it is already listed. Other users' entries are not looked at.
   */
  function Borrow(loans: Loans, u: int, b: int): (r: Loans)
    ensures r.Keys == loans.Keys + {u}
    ensures forall k | k in loans && k != u :: r[k] == loans[k]
    ensures b in r[u]
    ensures Loaned(loans, u) <= r[u]
    ensures forall x :: x in r[u] <==> x in Loaned(loans, u) || x == b
    ensures |r[u]| == |Loaned(loans, u)| + (if b in Loaned(loans, u) then 0 else 1)
  {
    var list := Loaned(loans, u);
    loans[u := if b in list then list else list + [b]]
  }

  /**
   * `ReturnBook`'s ledger half: when the book is on the user's list, remove
   * it, and drop the entry once it is empty. Otherwise nothing changes.
   */
  function Return(loans: Loans, u: int, b: int): (r: Loans)
    ensures forall k | k != u :: (k in r <==> k in loans) && (k in r ==> r[k] == loans[k])
    ensures b !in Loaned(loans, u) ==> r == loans
    ensures b in Loaned(loans, u) ==> multiset(Loaned(r, u)) == multiset(loans[u]) - multiset{b}
    ensures b in Loaned(loans, u) ==> (u in r <==> |loans[u]| > 1)
    ensures b in Loaned(loans, u) ==>
      exists i :: IsFirst(loans[u], Self, b, i) && (u in r ==> r[u] == loans[u][..i] + loans[u][i + 1..])
  {
    if u in loans && b in loans[u] then
      var rest := RemoveFirst(loans[u], Self, b);
      RemoveMultiset(loans[u], b);
      FirstOccurrence(loans[u], b);
      if |rest| == 0 then loans - {u} else loans[u := rest]
    else loans
  }

  /** Removing a book id from a list takes exactly one copy of it out. */
  lemma RemoveMultiset(xs: seq<int>, b: int)
    ensures multiset(RemoveFirst(xs, Self, b)) == multiset(xs) - multiset{b}
  {
    match FirstIndex(xs, Self, b)
    case None =>
      assert b !in multiset(xs);
    case Some(i) =>
      RemoveFirstMultiset(xs, Self, b, i);
  }

  /** A listed id has a first occurrence, and removing it cuts the list there, keeping the order of the rest. */
  lemma FirstOccurrence(xs: seq<int>, b: int)
    requires b in xs
    ensures exists i :: IsFirst(xs, Self, b, i) && RemoveFirst(xs, Self, b) == xs[..i] + xs[i + 1..]
  {
    var j :| 0 <= j < |xs| && xs[j] == b;
    assert !Absent(xs, Self, b);
    var i := FirstIndex(xs, Self, b).value;
    assert IsFirst(xs, Self, b, i);
  }

  /** Removal keeps a list duplicate-free, and then the removed id is gone. */
  lemma RemoveKeepsNoDups(xs: seq<int>, b: int)
    requires NoDups(xs)
    ensures NoDups(RemoveFirst(xs, Self, b))
    ensures b !in RemoveFirst(xs, Self, b)
  {
  }

  /** After a borrow, the user's list holds the book exactly once. */
  lemma BorrowOnce(loans: Loans, u: int, b: int)
    requires NoDups(Loaned(loans, u))
    ensures NoDups(Borrow(loans, u, b)[u])
    ensures multiset(Borrow(loans, u, b)[u])[b] == 1
  {
    var list := Loaned(loans, u);
    var r := Borrow(loans, u, b)[u];
    if b in list {
      var i :| 0 <= i < |list| && list[i] == b;
      assert list == list[..i] + [b] + list[i + 1..];
      assert b !in list[..i] && b !in list[i + 1..] by {
        forall j | 0 <= j < |list| && j != i ensures list[j] != b {}
      }
      calc {
        multiset(list)[b];
        multiset(list[..i])[b] + multiset([b])[b] + multiset(list[i + 1..])[b];
        1;
      }
    } else {
      assert r == list + [b];
      assert multiset(r) == multiset(list) + multiset{b};
    }
  }

  /** Borrowing keeps the ledger valid. */
  lemma BorrowKeepsValid(loans: Loans, u: int, b: int)
    requires Valid(loans)
    ensures Valid(Borrow(loans, u, b))
  {
  }

  /** Returning keeps the ledger valid, and the returned book is no longer on the user's list. */
  lemma ReturnKeepsValid(loans: Loans, u: int, b: int)
    requires Valid(loans)
    ensures Valid(Return(loans, u, b))
    ensures b !in Loaned(Return(loans, u, b), u)
  {
    if u in loans && b in loans[u] {
      RemoveKeepsNoDups(loans[u], b);
    }
  }
}
