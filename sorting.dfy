/** Sorting a list by an integer key, the way `list.sort(key=...)` does:
    ascending and stable. */
module Sorting {

  /** Ascending by `key`. */
  ghost predicate SortedBy<T>(s: seq<T>, key: T -> int) {
    forall i, j :: 0 <= i < j < |s| ==> key(s[i]) <= key(s[j])
  }

  /** The elements of `s` whose key is `t`, in order. */
  function WithKey<T>(s: seq<T>, key: T -> int, t: int): seq<T> {
    if s == [] then []
    else (if key(s[0]) == t then [s[0]] else []) + WithKey(s[1..], key, t)
  }

  /** Place `x` in front of the first element whose key is not smaller. */
  function Insert<T>(x: T, s: seq<T>, key: T -> int): seq<T> {
    if s == [] || key(x) <= key(s[0]) then [x] + s
    else [s[0]] + Insert(x, s[1..], key)
  }

  /** Insertion sort: each element goes in front of the equal keys of the
      elements after it, which keeps equal keys in their original order. */
  function SortBy<T>(s: seq<T>, key: T -> int): seq<T> {
    if s == [] then [] else Insert(s[0], SortBy(s[1..], key), key)
  }

  lemma {:induction false} InsertCount<T>(x: T, s: seq<T>, key: T -> int)
    ensures multiset(Insert(x, s, key)) == multiset{x} + multiset(s)
  {
    if !(s == [] || key(x) <= key(s[0])) {
      InsertCount(x, s[1..], key);
      assert s == [s[0]] + s[1..];
    }
  }

  lemma {:induction false} InsertSorted<T>(x: T, s: seq<T>, key: T -> int)
    requires SortedBy(s, key)
    ensures SortedBy(Insert(x, s, key), key)
  {
    if !(s == [] || key(x) <= key(s[0])) {
      var rest := Insert(x, s[1..], key);
      InsertSorted(x, s[1..], key);
      InsertCount(x, s[1..], key);
      forall k | 0 <= k < |rest|
        ensures key(s[0]) <= key(rest[k])
      {
        assert rest[k] in multiset(rest);
        if rest[k] != x {
          assert rest[k] in multiset(s[1..]);
        }
      }
    }
  }

  lemma WithKeyCons<T>(x: T, s: seq<T>, key: T -> int, t: int)
    ensures WithKey([x] + s, key, t) == (if key(x) == t then [x] else []) + WithKey(s, key, t)
  {
    assert ([x] + s)[1..] == s;
  }

  lemma {:induction false} InsertStable<T>(x: T, s: seq<T>, key: T -> int, t: int)
    ensures WithKey(Insert(x, s, key), key, t) == (if key(x) == t then [x] else []) + WithKey(s, key, t)
  {
    if s == [] || key(x) <= key(s[0]) {
      WithKeyCons(x, s, key, t);
    } else {
      var rest := Insert(x, s[1..], key);
      InsertStable(x, s[1..], key, t);
      WithKeyCons(s[0], rest, key, t);
      WithKeyCons(s[0], s[1..], key, t);
      assert [s[0]] + s[1..] == s;
      var hx := if key(x) == t then [x] else [];
      var h0 := if key(s[0]) == t then [s[0]] else [];
      assert hx == [] || h0 == [];
      calc {
        WithKey(Insert(x, s, key), key, t);
        WithKey([s[0]] + rest, key, t);
        h0 + WithKey(rest, key, t);
        h0 + (hx + WithKey(s[1..], key, t));
        { assert h0 + hx == hx + h0; }
        hx + (h0 + WithKey(s[1..], key, t));
        hx + WithKey(s, key, t);
      }
    }
  }

  /** The sort orders by key, keeps every element, and is stable: for each
      key the elements carrying it keep their original order. */
  lemma {:induction false} SortByFacts<T>(s: seq<T>, key: T -> int)
    ensures SortedBy(SortBy(s, key), key)
    ensures multiset(SortBy(s, key)) == multiset(s)
    ensures forall t :: WithKey(SortBy(s, key), key, t) == WithKey(s, key, t)
  {
    if s != [] {
      SortByFacts(s[1..], key);
      InsertSorted(s[0], SortBy(s[1..], key), key);
      InsertCount(s[0], SortBy(s[1..], key), key);
      forall t
        ensures WithKey(SortBy(s, key), key, t) == WithKey(s, key, t)
      {
        InsertStable(s[0], SortBy(s[1..], key), key, t);
      }
      assert s == [s[0]] + s[1..];
    }
  }

  /** Lists with the same multiset have the same members. */
  lemma SameMembers<T>(a: seq<T>, b: seq<T>)
    requires multiset(a) == multiset(b)
    ensures forall x :: x in a <==> x in b
  {
    forall x
      ensures x in a <==> x in b
    {
      assert x in a <==> x in multiset(a);
      assert x in b <==> x in multiset(b);
    }
  }
}
