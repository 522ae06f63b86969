/** A stable sort by an integer key, as `slice::sort_by_key` performs it. */
module Sorting {

  predicate SortedBy<T>(s: seq<T>, key: T -> int) {
    forall i, j :: 0 <= i < j < |s| ==> key(s[i]) <= key(s[j])
  }

  /** The elements of `s` whose key is `k`, in their order in `s`. */
  function WithKey<T>(s: seq<T>, key: T -> int, k: int): seq<T> {
    if s == [] then []
    else WithKey(s[..|s| - 1], key, k) + (if key(s[|s| - 1]) == k then [s[|s| - 1]] else [])
  }

  /** Inserts `x` after every element whose key is not greater than its own. */
  function Insert<T>(x: T, s: seq<T>, key: T -> int): seq<T> {
    if s == [] then [x]
    else if key(x) < key(s[0]) then [x] + s
    else [s[0]] + Insert(x, s[1..], key)
  }

  /** Insertion sort, taking the elements left to right. */
  function SortByKey<T>(s: seq<T>, key: T -> int): seq<T> {
    if s == [] then [] else Insert(s[|s| - 1], SortByKey(s[..|s| - 1], key), key)
  }

  predicate KeysAtLeast<T>(s: seq<T>, key: T -> int, b: int) {
    forall i :: 0 <= i < |s| ==> b <= key(s[i])
  }

  lemma {:induction false} InsertKeysAtLeast<T>(x: T, s: seq<T>, key: T -> int, b: int)
    requires KeysAtLeast(s, key, b) && b <= key(x)
    ensures KeysAtLeast(Insert(x, s, key), key, b)
    decreases |s|
  {
    if s != [] && key(x) >= key(s[0]) {
      InsertKeysAtLeast(x, s[1..], key, b);
    }
  }

  lemma {:induction false} InsertSorted<T>(x: T, s: seq<T>, key: T -> int)
    requires SortedBy(s, key)
    ensures SortedBy(Insert(x, s, key), key)
    decreases |s|
  {
    if s != [] && key(x) >= key(s[0]) {
      InsertSorted(x, s[1..], key);
      InsertKeysAtLeast(x, s[1..], key, key(s[0]));
    }
  }

  lemma {:induction false} InsertPermutes<T>(x: T, s: seq<T>, key: T -> int)
    ensures multiset(Insert(x, s, key)) == multiset(s) + multiset{x}
    ensures |Insert(x, s, key)| == |s| + 1
    decreases |s|
  {
    if s != [] && key(x) >= key(s[0]) {
      InsertPermutes(x, s[1..], key);
      assert s == [s[0]] + s[1..];
    }
  }

  /** Inserting `x` into a sorted sequence puts it after every element with
      its own key, so within each key the order is unchanged. */
  lemma {:induction false} InsertWithKey<T>(x: T, s: seq<T>, key: T -> int, k: int)
    requires SortedBy(s, key)
    ensures WithKey(Insert(x, s, key), key, k) == WithKey(s, key, k) + (if key(x) == k then [x] else [])
    decreases |s|
  {
    if s == [] {
      assert Insert(x, s, key) == [] + [x];
    } else if key(x) < key(s[0]) {
      InsertWithKeyFirst(x, s, key, k);
    } else {
      SortedTail(s, key);
      InsertWithKey(x, s[1..], key, k);
      InsertWithKeyLater(x, s, key, k);
    }
  }

  lemma SortedTail<T>(s: seq<T>, key: T -> int)
    requires s != [] && SortedBy(s, key)
    ensures SortedBy(s[1..], key)
  {
  }

  /** The step of `InsertWithKey` when `x` goes in front. */
  lemma InsertWithKeyFirst<T>(x: T, s: seq<T>, key: T -> int, k: int)
    requires SortedBy(s, key) && s != [] && key(x) < key(s[0])
    ensures WithKey(Insert(x, s, key), key, k) == WithKey(s, key, k) + (if key(x) == k then [x] else [])
  {
    WithKeyNone(s, key, key(x));
    WithKeyFront(x, s, key, k);
    if key(x) == k {
      assert WithKey(s, key, k) == [];
    }
  }

  /** The step of `InsertWithKey` when `x` goes past the first element. */
  lemma InsertWithKeyLater<T>(x: T, s: seq<T>, key: T -> int, k: int)
    requires s != [] && key(x) >= key(s[0])
    requires WithKey(Insert(x, s[1..], key), key, k) == WithKey(s[1..], key, k) + (if key(x) == k then [x] else [])
    ensures WithKey(Insert(x, s, key), key, k) == WithKey(s, key, k) + (if key(x) == k then [x] else [])
  {
    var head := if key(s[0]) == k then [s[0]] else [];
    var tail := if key(x) == k then [x] else [];
    assert [s[0]] + s[1..] == s;
    WithKeyFront(s[0], s[1..], key, k);
    WithKeyFront(s[0], Insert(x, s[1..], key), key, k);
    Associative(head, WithKey(s[1..], key, k), tail);
  }

  lemma Associative<T>(a: seq<T>, b: seq<T>, c: seq<T>)
    ensures a + (b + c) == (a + b) + c
  {
  }

  lemma {:induction false} WithKeyFront<T>(x: T, s: seq<T>, key: T -> int, k: int)
    ensures WithKey([x] + s, key, k) == (if key(x) == k then [x] else []) + WithKey(s, key, k)
    decreases |s|
  {
    if s != [] {
      var t := [x] + s;
      assert t[..|t| - 1] == [x] + s[..|s| - 1];
      WithKeyFront(x, s[..|s| - 1], key, k);
    } else {
      assert ([x] + s)[..0] == [];
    }
  }

  /** No element of a sorted sequence whose first key exceeds `k` has key `k`. */
  lemma {:induction false} WithKeyNone<T>(s: seq<T>, key: T -> int, k: int)
    requires SortedBy(s, key) && (s != [] ==> k < key(s[0]))
    ensures WithKey(s, key, k) == []
    decreases |s|
  {
    if s != [] {
      WithKeyNone(s[..|s| - 1], key, k);
      assert key(s[0]) <= key(s[|s| - 1]);
    }
  }

  /** The sort returns a key-ordered permutation of its input that keeps the
      input order among elements with equal keys. */
  lemma {:induction false} SortByKeySpec<T>(s: seq<T>, key: T -> int)
    ensures SortedBy(SortByKey(s, key), key)
    ensures multiset(SortByKey(s, key)) == multiset(s)
    ensures |SortByKey(s, key)| == |s|
    ensures forall k :: WithKey(SortByKey(s, key), key, k) == WithKey(s, key, k)
    decreases |s|
  {
    if s != [] {
      var p := s[..|s| - 1];
      SortByKeySpec(p, key);
      InsertSorted(s[|s| - 1], SortByKey(p, key), key);
      InsertPermutes(s[|s| - 1], SortByKey(p, key), key);
      assert s == p + [s[|s| - 1]];
      forall k ensures WithKey(SortByKey(s, key), key, k) == WithKey(s, key, k) {
        InsertWithKey(s[|s| - 1], SortByKey(p, key), key, k);
      }
    }
  }

  /** An element whose key is at least every key of `s` goes to the end. */
  lemma {:induction false} InsertAfterAll<T>(x: T, s: seq<T>, key: T -> int)
    requires forall i :: 0 <= i < |s| ==> key(s[i]) <= key(x)
    ensures Insert(x, s, key) == s + [x]
    decreases |s|
  {
    if s != [] {
      InsertAfterAll(x, s[1..], key);
      assert s == [s[0]] + s[1..];
    }
  }

  /** Sorting a sequence already in key order leaves it as it is. */
  lemma {:induction false} SortByKeySorted<T>(s: seq<T>, key: T -> int)
    requires SortedBy(s, key)
    ensures SortByKey(s, key) == s
    decreases |s|
  {
    if s != [] {
      var p := s[..|s| - 1];
      SortByKeySorted(p, key);
      InsertAfterAll(s[|s| - 1], p, key);
      assert p + [s[|s| - 1]] == s;
    }
  }
}
