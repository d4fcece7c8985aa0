/** Stable sorting of a sequence by an integer key, the way Array.prototype.sort
    orders elements under a comparator of the form (a, b) => key(a) - key(b):
    ascending by key, and elements with equal keys in their original order. */
module Sorting {

  predicate Sorted<T>(s: seq<T>, key: T -> int) {
    forall i, j :: 0 <= i < j < |s| ==> key(s[i]) <= key(s[j])
  }

  /** The elements of s with key k, in their order in s. */
  function WithKey<T>(s: seq<T>, key: T -> int, k: int): seq<T> {
    if s == [] then []
    else (if key(s[0]) == k then [s[0]] else []) + WithKey(s[1..], key, k)
  }

  /** Puts x in front of the first element whose key is not smaller. */
  function Insert<T>(x: T, s: seq<T>, key: T -> int): (r: seq<T>)
    ensures multiset(r) == multiset{x} + multiset(s)
    ensures |r| == |s| + 1
  {
    if s == [] || key(x) <= key(s[0]) then [x] + s
    else
      assert s == [s[0]] + s[1..];
      [s[0]] + Insert(x, s[1..], key)
  }

  /** Every element of Insert(x, s) is x or an element of s. */
  lemma InsertElements<T>(x: T, s: seq<T>, key: T -> int, y: T)
    requires y in Insert(x, s, key)
    ensures y == x || y in s
  {
    assert multiset(Insert(x, s, key))[y] > 0;
  }

  lemma {:induction false} InsertSorted<T>(x: T, s: seq<T>, key: T -> int)
    requires Sorted(s, key)
    ensures Sorted(Insert(x, s, key), key)
    decreases |s|
  {
    var r := Insert(x, s, key);
    if !(s == [] || key(x) <= key(s[0])) {
      var rest := Insert(x, s[1..], key);
      InsertSorted(x, s[1..], key);
      forall j | 1 <= j < |r|
        ensures key(r[0]) <= key(r[j])
      {
        assert r[j] == rest[j - 1];
        InsertElements(x, s[1..], key, rest[j - 1]);
        if rest[j - 1] != x {
          var m :| 0 <= m < |s[1..]| && s[1..][m] == rest[j - 1];
          assert s[m + 1] == rest[j - 1];
        }
      }
      forall i, j | 1 <= i < j < |r|
        ensures key(r[i]) <= key(r[j])
      {
        assert r[i] == rest[i - 1] && r[j] == rest[j - 1];
      }
    }
  }

  /** Insertion sort, stable: each element goes in front of the equal keys
      that came after it in s. */
  function Sort<T>(s: seq<T>, key: T -> int): (r: seq<T>)
    ensures multiset(r) == multiset(s)
  {
    if s == [] then []
    else
      assert s == [s[0]] + s[1..];
      Insert(s[0], Sort(s[1..], key), key)
  }

  /** The sort orders by key. */
  lemma {:induction false} SortSorted<T>(s: seq<T>, key: T -> int)
    ensures Sorted(Sort(s, key), key)
  {
    if s != [] {
      SortSorted(s[1..], key);
      InsertSorted(s[0], Sort(s[1..], key), key);
    }
  }

  lemma {:induction false} InsertWithKey<T>(x: T, s: seq<T>, key: T -> int, k: int)
    ensures WithKey(Insert(x, s, key), key, k) ==
              (if key(x) == k then [x] else []) + WithKey(s, key, k)
  {
    if s == [] || key(x) <= key(s[0]) {
      WithKeyCons(x, s, key, k);
    } else {
      var rest := Insert(x, s[1..], key);
      assert Insert(x, s, key) == [s[0]] + rest;
      InsertWithKey(x, s[1..], key, k);
      InsertPast(x, s[0], s[1..], rest, key, k);
    }
  }

  /** The step of InsertWithKey where x goes past the head y of s. */
  lemma InsertPast<T>(x: T, y: T, t: seq<T>, rest: seq<T>, key: T -> int, k: int)
    requires key(x) > key(y)
    requires WithKey(rest, key, k) == (if key(x) == k then [x] else []) + WithKey(t, key, k)
    ensures WithKey([y] + rest, key, k) == (if key(x) == k then [x] else []) + WithKey([y] + t, key, k)
  {
    WithKeyCons(y, rest, key, k);
    WithKeyCons(y, t, key, k);
    var front: seq<T> := if key(y) == k then [y] else [];
    var mine: seq<T> := if key(x) == k then [x] else [];
    SwapFronts(front, mine, WithKey(t, key, k));
  }

  /** Two fronts commute when one of them is empty. */
  lemma SwapFronts<T>(a: seq<T>, b: seq<T>, w: seq<T>)
    requires a == [] || b == []
    ensures a + (b + w) == b + (a + w)
  {
    if a == [] {
      assert a + (b + w) == b + w;
    } else {
      assert b + (a + w) == a + w;
    }
  }

  lemma WithKeyCons<T>(y: T, t: seq<T>, key: T -> int, k: int)
    ensures WithKey([y] + t, key, k) == (if key(y) == k then [y] else []) + WithKey(t, key, k)
  {
    assert ([y] + t)[1..] == t;
  }

  /** The sort is stable: for every key, the elements with that key come out
      in the order they went in. */
  lemma {:induction false} SortIsStable<T>(s: seq<T>, key: T -> int, k: int)
    ensures WithKey(Sort(s, key), key, k) == WithKey(s, key, k)
  {
    if s != [] {
      SortIsStable(s[1..], key, k);
      InsertWithKey(s[0], Sort(s[1..], key), key, k);
    }
  }

  lemma {:induction false} WithKeyFound<T>(s: seq<T>, key: T -> int, k: int)
    requires WithKey(s, key, k) != []
    ensures exists i :: 0 <= i < |s| && key(s[i]) == k
  {
    if key(s[0]) != k {
      WithKeyFound(s[1..], key, k);
      var i :| 0 <= i < |s[1..]| && key(s[1..][i]) == k;
      assert s[i + 1] == s[1..][i];
    }
  }

  lemma SortedTail<T>(s: seq<T>, key: T -> int)
    requires s != [] && Sorted(s, key)
    ensures Sorted(s[1..], key)
  {
    forall i, j | 0 <= i < j < |s[1..]|
      ensures key(s[1..][i]) <= key(s[1..][j])
    {
      assert s[1..][i] == s[i + 1] && s[1..][j] == s[j + 1];
    }
  }

  lemma WithKeyNonEmpty<T>(s: seq<T>, key: T -> int)
    requires s != []
    ensures WithKey(s, key, key(s[0])) != []
  {
  }

  /** A sorted arrangement that keeps, for every key, the elements in their
      original order is unique: it is the one Sort produces. So Sort is not one
      stable sort among several but the only possible result. */
  lemma {:induction false} StableSortUnique<T>(a: seq<T>, b: seq<T>, key: T -> int)
    requires Sorted(a, key) && Sorted(b, key)
    requires forall k :: WithKey(a, key, k) == WithKey(b, key, k)
    ensures a == b
    decreases |a|
  {
    if a != [] {
      WithKeyNonEmpty(a, key);
    }
    if b != [] {
      WithKeyNonEmpty(b, key);
    }
    if a != [] && b != [] {
      HeadsAgree(a, b, key);
      forall k
        ensures WithKey(a[1..], key, k) == WithKey(b[1..], key, k)
      {
        WithKeyTail(a, key, k);
        WithKeyTail(b, key, k);
      }
      SortedTail(a, key);
      SortedTail(b, key);
      StableSortUnique(a[1..], b[1..], key);
      assert a == [a[0]] + a[1..] && b == [b[0]] + b[1..];
    }
  }

  /** Two sorted sequences with the same elements per key start alike: both
      start with the first element of the smallest key. */
  lemma HeadsAgree<T>(a: seq<T>, b: seq<T>, key: T -> int)
    requires a != [] && b != [] && Sorted(a, key) && Sorted(b, key)
    requires forall k :: WithKey(a, key, k) == WithKey(b, key, k)
    ensures a[0] == b[0]
  {
    var ka, kb := key(a[0]), key(b[0]);
    WithKeyNonEmpty(a, key);
    WithKeyNonEmpty(b, key);
    assert ka <= kb by {
      WithKeyFound(a, key, kb);
    }
    assert kb <= ka by {
      WithKeyFound(b, key, ka);
    }
    assert WithKey(a, key, ka)[0] == a[0];
    assert WithKey(b, key, ka)[0] == b[0];
  }

  /** Dropping the head drops it from its own key's elements only. */
  lemma WithKeyTail<T>(s: seq<T>, key: T -> int, k: int)
    requires s != []
    ensures WithKey(s[1..], key, k) == WithKey(s, key, k)[if key(s[0]) == k then 1 else 0..]
  {
  }

  /** Hence every stable sort of s by key gives Sort(s, key). */
  lemma IsTheStableSort<T>(s: seq<T>, r: seq<T>, key: T -> int)
    requires Sorted(r, key) && forall k :: WithKey(r, key, k) == WithKey(s, key, k)
    ensures r == Sort(s, key)
  {
    SortSorted(s, key);
    forall k
      ensures WithKey(r, key, k) == WithKey(Sort(s, key), key, k)
    {
      SortIsStable(s, key, k);
    }
    StableSortUnique(r, Sort(s, key), key);
  }
}
