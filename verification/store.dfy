/**
 * The ordered record lists behind the library: lookup of the first element
 * with a given key, the next free key, in-place replacement and removal.
 * Books, users and the book ids of a ledger entry all use these, each with
 * its own key function.
 */
module Store {
  import opened Outcomes

  /** Position `i` holds the first element whose key is `k`. */
  predicate IsFirst<T>(xs: seq<T>, key: T -> int, k: int, i: int) {
    0 <= i < |xs| && key(xs[i]) == k && forall j :: 0 <= j < i ==> key(xs[j]) != k
  }

  /** No element has key `k`. */
  predicate Absent<T>(xs: seq<T>, key: T -> int, k: int) {
    forall j :: 0 <= j < |xs| ==> key(xs[j]) != k
  }

  /** No two elements share a key. */
  predicate UniqueKeys<T>(xs: seq<T>, key: T -> int) {
    forall i, j :: 0 <= i < j < |xs| ==> key(xs[i]) != key(xs[j])
  }

  /** `FindIndex(x => key(x) == k)`, with "not found" as `None`. */
  function FirstIndex<T>(xs: seq<T>, key: T -> int, k: int): (r: Option<nat>)
    ensures r.Some? ==> IsFirst(xs, key, k, r.value)
    ensures r.None? <==> Absent(xs, key, k)
  {
    if |xs| == 0 then None
    else if key(xs[0]) == k then Some(0)
    else
      match FirstIndex(xs[1..], key, k)
      case None =>
        assert forall j :: 1 <= j < |xs| ==> xs[j] == xs[1..][j - 1];
        None
      case Some(i) =>
        assert forall j :: 1 <= j <= i ==> xs[j] == xs[1..][j - 1];
        Some(i + 1)
  }

  /** `FirstOrDefault(x => key(x) == k)`, with the null default as `None`. */
  function Find<T>(xs: seq<T>, key: T -> int, k: int): (r: Option<T>)
    ensures r.None? <==> Absent(xs, key, k)
    ensures r.Some? ==> exists i :: IsFirst(xs, key, k, i) && xs[i] == r.value
  {
    match FirstIndex(xs, key, k)
    case None => None
    case Some(i) => Some(xs[i])
  }

  /** The largest key in a non-empty list. */
  function MaxKey<T>(xs: seq<T>, key: T -> int): (m: int)
    requires |xs| > 0
    ensures forall i :: 0 <= i < |xs| ==> key(xs[i]) <= m
    ensures exists i :: 0 <= i < |xs| && key(xs[i]) == m
  {
    if |xs| == 1 then key(xs[0])
    else
      var m := MaxKey(xs[1..], key);
      assert forall i :: 1 <= i < |xs| ==> xs[i] == xs[1..][i - 1];
      if key(xs[0]) > m then key(xs[0]) else m
  }

  /** The key an add assigns: one past the largest key, or 1 for an empty list. */
  function NextKey<T>(xs: seq<T>, key: T -> int): (n: int)
    ensures |xs| == 0 ==> n == 1
    ensures forall i :: 0 <= i < |xs| ==> key(xs[i]) < n
    ensures |xs| > 0 ==> exists i :: 0 <= i < |xs| && key(xs[i]) == n - 1
  {
    if |xs| == 0 then 1 else MaxKey(xs, key) + 1
  }

  /** Overwrites the first element whose key is `key(x)` with `x`; no effect when there is none. */
  function Replace<T>(xs: seq<T>, key: T -> int, x: T): (r: seq<T>)
    ensures |r| == |xs|
    ensures forall j :: 0 <= j < |r| ==> key(r[j]) == key(xs[j])
    ensures Absent(xs, key, key(x)) ==> r == xs
    ensures forall i | IsFirst(xs, key, key(x), i) ::
      r[i] == x && forall j :: 0 <= j < |xs| && j != i ==> r[j] == xs[j]
  {
    match FirstIndex(xs, key, key(x))
    case None => xs
    case Some(i) => xs[i := x]
  }

  /** Removes the first element whose key is `k`, keeping the order of the rest; no effect when there is none. */
  function RemoveFirst<T>(xs: seq<T>, key: T -> int, k: int): (r: seq<T>)
    ensures Absent(xs, key, k) ==> r == xs
    ensures forall i | IsFirst(xs, key, k, i) ::
      && |r| == |xs| - 1
      && (forall j :: 0 <= j < i ==> r[j] == xs[j])
      && (forall j :: i <= j < |r| ==> r[j] == xs[j + 1])
  {
    match FirstIndex(xs, key, k)
    case None => xs
    case Some(i) => xs[..i] + xs[i + 1..]
  }

  /** A removal takes exactly the removed element out of the multiset of elements. */
  lemma RemoveFirstMultiset<T>(xs: seq<T>, key: T -> int, k: int, i: int)
    requires IsFirst(xs, key, k, i)
    ensures multiset(RemoveFirst(xs, key, k)) == multiset(xs) - multiset{xs[i]}
  {
    var r := RemoveFirst(xs, key, k);
    assert r == xs[..i] + xs[i + 1..];
    assert xs == xs[..i] + [xs[i]] + xs[i + 1..];
    calc {
      multiset(xs);
      multiset(xs[..i]) + multiset{xs[i]} + multiset(xs[i + 1..]);
      multiset(r) + multiset{xs[i]};
    }
  }

  /** Appending an element whose key is new keeps the keys unique. */
  lemma AppendFreshKeepsUnique<T>(xs: seq<T>, key: T -> int, x: T)
    requires UniqueKeys(xs, key)
    requires Absent(xs, key, key(x))
    ensures UniqueKeys(xs + [x], key)
  {
  }

  /** A removal keeps the keys unique, and under unique keys no element with the removed key remains. */
  lemma RemoveFirstKeepsUnique<T>(xs: seq<T>, key: T -> int, k: int)
    requires UniqueKeys(xs, key)
    ensures UniqueKeys(RemoveFirst(xs, key, k), key)
    ensures Absent(RemoveFirst(xs, key, k), key, k)
  {
  }

  /** A replacement keeps every position's key, so it keeps the keys unique. */
  lemma ReplaceKeepsUnique<T>(xs: seq<T>, key: T -> int, x: T)
    requires UniqueKeys(xs, key)
    ensures UniqueKeys(Replace(xs, key, x), key)
  {
  }
}
