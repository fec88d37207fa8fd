/** Python's `list.sort(key=...)`, used by the dashboard to order object
    listings, as an insertion sort over an integer sort key; and pandas'
    `sort_values`, which returns a sorted copy, as a function. */
module Sorting {

  predicate SortedBy<T>(s: seq<T>, key: T -> int) {
    forall i, j :: 0 <= i < j < |s| ==> key(s[i]) <= key(s[j])
  }

  /** Inserts `x` after every element whose key is at most `key(x)`. */
  method InsertSorted<T>(s: seq<T>, x: T, key: T -> int) returns (r: seq<T>)
    requires SortedBy(s, key)
    ensures r == Insert(s, x, key)
    ensures SortedBy(r, key)
    ensures multiset(r) == multiset(s) + multiset{x}
  {
    var p := 0;
    while p < |s| && key(s[p]) <= key(x)
      invariant 0 <= p <= |s|
      invariant forall q :: 0 <= q < p ==> key(s[q]) <= key(x)
    {
      p := p + 1;
    }
    PlaceUnique(s, x, key, p);
    r := s[..p] + [x] + s[p..];
    InsertSpec(s, x, key);
  }

  /** Placing `x` between the elements with keys at most `key(x)` and those
      with larger keys keeps the sequence sorted. */
  lemma InsertKeepsSorted<T>(s: seq<T>, x: T, key: T -> int, p: nat)
    requires SortedBy(s, key) && p <= |s|
    requires forall q :: 0 <= q < p ==> key(s[q]) <= key(x)
    requires p < |s| ==> key(x) < key(s[p])
    ensures SortedBy(s[..p] + [x] + s[p..], key)
  {
    var r := s[..p] + [x] + s[p..];
    forall i, j | 0 <= i < j < |r|
      ensures key(r[i]) <= key(r[j])
    {
      if j < p {
        assert r[i] == s[i] && r[j] == s[j];
      } else if j == p {
        assert r[i] == s[i] && r[j] == x;
      } else {
        assert r[j] == s[j - 1];
        if i < p {
          assert r[i] == s[i];
        } else if i == p {
          assert r[i] == x && key(s[p]) <= key(s[j - 1]);
        } else {
          assert r[i] == s[i - 1];
        }
      }
    }
  }

  /** Sorts ascending by `key`; the result is a permutation of the input. */
  method SortBy<T>(s: seq<T>, key: T -> int) returns (r: seq<T>)
    ensures r == Ordered(s, key)
    ensures SortedBy(r, key)
    ensures multiset(r) == multiset(s)
  {
    r := [];
    var i := 0;
    while i < |s|
      invariant 0 <= i <= |s|
      invariant r == Ordered(s[..i], key)
    {
      OrderedStep(s, key, i);
      r := InsertSorted(r, s[i], key);
      i := i + 1;
    }
    assert s[..i] == s;
    OrderedSpec(s, key);
  }

  /** One step of sorting a prefix: the next element is inserted into the
      sorted copy of the elements before it. */
  lemma OrderedStep<T>(s: seq<T>, key: T -> int, i: nat)
    requires i < |s|
    ensures SortedBy(Ordered(s[..i], key), key)
    ensures Ordered(s[..i + 1], key) == Insert(Ordered(s[..i], key), s[i], key)
  {
    assert s[..i + 1][..i] == s[..i];
    OrderedSpec(s[..i], key);
  }

  /** Where `x` goes: after the leading elements whose keys are at most `key(x)`. */
  function Place<T>(s: seq<T>, x: T, key: T -> int): (p: nat)
    ensures p <= |s|
    ensures forall q :: 0 <= q < p ==> key(s[q]) <= key(x)
    ensures p < |s| ==> key(x) < key(s[p])
    decreases |s|
  {
    if s == [] || key(x) < key(s[0]) then 0 else 1 + Place(s[1..], x, key)
  }

  /** `Place` is the only split point with keys at most `key(x)` before it and
      a larger key at it. */
  lemma {:induction false} PlaceUnique<T>(s: seq<T>, x: T, key: T -> int, p: nat)
    requires p <= |s|
    requires forall q :: 0 <= q < p ==> key(s[q]) <= key(x)
    requires p < |s| ==> key(x) < key(s[p])
    ensures p == Place(s, x, key)
    decreases |s|
  {
    if p > 0 {
      PlaceUnique(s[1..], x, key, p - 1);
    }
  }

  function Insert<T>(s: seq<T>, x: T, key: T -> int): seq<T> {
    var p := Place(s, x, key);
    s[..p] + [x] + s[p..]
  }

  /** A sorted copy of `s`, each element going after the earlier ones with
      equal keys. */
  function Ordered<T>(s: seq<T>, key: T -> int): seq<T>
    decreases |s|
  {
    if s == [] then [] else Insert(Ordered(s[..|s| - 1], key), s[|s| - 1], key)
  }

  lemma InsertSpec<T>(s: seq<T>, x: T, key: T -> int)
    requires SortedBy(s, key)
    ensures SortedBy(Insert(s, x, key), key)
    ensures multiset(Insert(s, x, key)) == multiset(s) + multiset{x}
  {
    var p := Place(s, x, key);
    InsertKeepsSorted(s, x, key, p);
    assert s == s[..p] + s[p..];
  }

  /** `Ordered` sorts, and it neither drops nor adds an element. */
  lemma {:induction false} OrderedSpec<T>(s: seq<T>, key: T -> int)
    ensures SortedBy(Ordered(s, key), key)
    ensures multiset(Ordered(s, key)) == multiset(s)
    decreases |s|
  {
    if s != [] {
      var n := |s| - 1;
      OrderedSpec(s[..n], key);
      InsertSpec(Ordered(s[..n], key), s[n], key);
      assert s == s[..n] + [s[n]];
    }
  }
}
