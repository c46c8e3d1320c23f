/** `Array.prototype.sort` with a numeric comparator, which is stable since ECMAScript 2019.
    A comparator `(a, b) => key(a) - key(b)` orders ascending by `key`; the descending comparators
    of the views are the ascending order of the negated key. The library sort is modelled by an
    insertion sort, which is stable. */
module Sorting {

  /** Non-decreasing by `key`. */
  ghost predicate SortedBy<T>(s: seq<T>, key: T -> int)
  {
    forall i, j :: 0 <= i < j < |s| ==> key(s[i]) <= key(s[j])
  }

  /** The elements of `s` whose key is `k`, in their order in `s`. */
  function WithKey<T>(s: seq<T>, key: T -> int, k: int): seq<T>
  {
    if s == [] then []
    else (if key(s[0]) == k then [s[0]] else []) + WithKey(s[1..], key, k)
  }

  /** Puts `x` in front of the first element whose key is not below its own. */
  function Insert<T>(x: T, s: seq<T>, key: T -> int): (r: seq<T>)
    ensures |r| == |s| + 1
  {
    if s == [] || key(x) <= key(s[0]) then [x] + s
    else [s[0]] + Insert(x, s[1..], key)
  }

  /** Inserting adds `x` and loses nothing. */
  lemma {:induction false} InsertPermutes<T>(x: T, s: seq<T>, key: T -> int)
    ensures multiset(Insert(x, s, key)) == multiset(s) + multiset{x}
    decreases |s|
  {
    if s != [] && key(x) > key(s[0]) {
      InsertPermutes(x, s[1..], key);
      assert s == [s[0]] + s[1..];
    }
  }

  lemma InsertFront<T>(x: T, s: seq<T>, key: T -> int)
    requires s == [] || key(x) <= key(s[0])
    ensures Insert(x, s, key) == [x] + s
  {
  }

  lemma InsertPast<T>(x: T, s: seq<T>, key: T -> int)
    requires s != [] && key(x) > key(s[0])
    ensures Insert(x, s, key) == [s[0]] + Insert(x, s[1..], key)
  {
  }

  function SortBy<T>(s: seq<T>, key: T -> int): (r: seq<T>)
    ensures |r| == |s|
  {
    if s == [] then [] else Insert(s[0], SortBy(s[1..], key), key)
  }

  /** Sorting rearranges `s` and nothing more. */
  lemma {:induction false} SortByPermutes<T>(s: seq<T>, key: T -> int)
    ensures multiset(SortBy(s, key)) == multiset(s)
    decreases |s|
  {
    if s != [] {
      SortByPermutes(s[1..], key);
      InsertPermutes(s[0], SortBy(s[1..], key), key);
      assert s == [s[0]] + s[1..];
    }
  }

  /** A lower bound of `x` and of every element of `s` bounds every element after insertion. */
  lemma {:induction false} InsertBounded<T>(x: T, s: seq<T>, key: T -> int, b: int)
    requires b <= key(x)
    requires forall i :: 0 <= i < |s| ==> b <= key(s[i])
    ensures forall i :: 0 <= i < |Insert(x, s, key)| ==> b <= key(Insert(x, s, key)[i])
    decreases |s|
  {
    if s != [] && key(s[0]) < key(x) {
      InsertBounded(x, s[1..], key, b);
    }
  }

  lemma {:induction false} InsertSorted<T>(x: T, s: seq<T>, key: T -> int)
    requires SortedBy(s, key)
    ensures SortedBy(Insert(x, s, key), key)
    decreases |s|
  {
    if s != [] && key(s[0]) < key(x) {
      var tail := Insert(x, s[1..], key);
      InsertSorted(x, s[1..], key);
      InsertBounded(x, s[1..], key, key(s[0]));
      var r := [s[0]] + tail;
      assert Insert(x, s, key) == r;
      forall i, j | 0 <= i < j < |r|
        ensures key(r[i]) <= key(r[j])
      {
        assert r[j] == tail[j - 1];
        if i > 0 {
          assert r[i] == tail[i - 1];
        }
      }
    }
  }

  /** The result is ordered by `key`. */
  lemma {:induction false} SortBySorted<T>(s: seq<T>, key: T -> int)
    ensures SortedBy(SortBy(s, key), key)
    decreases |s|
  {
    if s != [] {
      SortBySorted(s[1..], key);
      InsertSorted(s[0], SortBy(s[1..], key), key);
    }
  }

  lemma {:induction false} WithKeyAppend<T>(s: seq<T>, t: seq<T>, key: T -> int, k: int)
    ensures WithKey(s + t, key, k) == WithKey(s, key, k) + WithKey(t, key, k)
    decreases |s|
  {
    if s == [] {
      assert s + t == t;
    } else {
      assert (s + t)[1..] == s[1..] + t;
      WithKeyAppend(s[1..], t, key, k);
    }
  }

  lemma {:induction false} InsertStable<T>(x: T, s: seq<T>, key: T -> int, k: int)
    requires SortedBy(s, key)
    ensures WithKey(Insert(x, s, key), key, k) == WithKey([x] + s, key, k)
    decreases |s|
  {
    if s != [] && key(s[0]) < key(x) {
      var head, tail := [s[0]], s[1..];
      assert s == head + tail;
      assert SortedBy(tail, key);
      InsertStable(x, tail, key, k);
      WithKeyAppend(head, Insert(x, tail, key), key, k);
      WithKeyAppend([x], tail, key, k);
      WithKeyAppend([x], s, key, k);
      WithKeyAppend(head, tail, key, k);
      // `x` and `s[0]` cannot both have key `k`, so they commute under `WithKey`
      assert WithKey(head, key, k) == [] || WithKey([x], key, k) == [];
    }
  }

  /** Stability: the elements with any one key keep their relative order. */
  lemma {:induction false} SortByStable<T>(s: seq<T>, key: T -> int, k: int)
    ensures WithKey(SortBy(s, key), key, k) == WithKey(s, key, k)
    decreases |s|
  {
    if s != [] {
      SortBySorted(s[1..], key);
      InsertStable(s[0], SortBy(s[1..], key), key, k);
      SortByStable(s[1..], key, k);
      WithKeyAppend([s[0]], SortBy(s[1..], key), key, k);
      WithKeyAppend([s[0]], s[1..], key, k);
      assert s == [s[0]] + s[1..];
    }
  }

  /** An already ordered sequence is left as it is. */
  lemma {:induction false} SortBySortedIdentity<T>(s: seq<T>, key: T -> int)
    requires SortedBy(s, key)
    ensures SortBy(s, key) == s
    decreases |s|
  {
    if s != [] {
      assert SortedBy(s[1..], key);
      SortBySortedIdentity(s[1..], key);
      assert s == [s[0]] + s[1..];
    }
  }

  /** The first element with key `k` is the first index of `s` holding key `k`. */
  lemma {:induction false} WithKeyFirst<T>(s: seq<T>, key: T -> int, k: int, i: nat)
    requires i < |s| && key(s[i]) == k
    requires forall j :: 0 <= j < i ==> key(s[j]) != k
    ensures WithKey(s, key, k) != [] && WithKey(s, key, k)[0] == s[i]
    decreases i
  {
    if i > 0 {
      WithKeyFirst(s[1..], key, k, i - 1);
    }
  }

  /** The last element with key `k` is the last index of `s` holding key `k`. */
  lemma {:induction false} WithKeyLast<T>(s: seq<T>, key: T -> int, k: int, i: nat)
    requires i < |s| && key(s[i]) == k
    requires forall j :: i < j < |s| ==> key(s[j]) != k
    ensures WithKey(s, key, k) != [] && WithKey(s, key, k)[|WithKey(s, key, k)| - 1] == s[i]
    decreases |s|
  {
    if i > 0 {
      WithKeyLast(s[1..], key, k, i - 1);
      WithKeyAppend([s[0]], s[1..], key, k);
      assert s == [s[0]] + s[1..];
    } else {
      WithKeyNone(s[1..], key, k);
    }
  }

  lemma {:induction false} WithKeyNone<T>(s: seq<T>, key: T -> int, k: int)
    requires forall j :: 0 <= j < |s| ==> key(s[j]) != k
    ensures WithKey(s, key, k) == []
    decreases |s|
  {
    if s != [] {
      WithKeyNone(s[1..], key, k);
    }
  }

  /** An index of `s` holding the key `k` gives way to the first such index. */
  lemma FirstIndexWithKey<T>(s: seq<T>, key: T -> int, k: int, j: nat) returns (i: nat)
    requires j < |s| && key(s[j]) == k
    ensures i <= j && key(s[i]) == k
    ensures forall l :: 0 <= l < i ==> key(s[l]) != k
  {
    i := 0;
    while key(s[i]) != k
      invariant i <= j
      invariant forall l :: 0 <= l < i ==> key(s[l]) != k
      decreases j - i
    {
      i := i + 1;
    }
  }

  /** An index of `s` holding the key `k` gives way to the last such index. */
  lemma LastIndexWithKey<T>(s: seq<T>, key: T -> int, k: int, j: nat) returns (i: nat)
    requires j < |s| && key(s[j]) == k
    ensures j <= i < |s| && key(s[i]) == k
    ensures forall l :: i < l < |s| ==> key(s[l]) != k
  {
    i := |s| - 1;
    while key(s[i]) != k
      invariant j <= i < |s|
      invariant forall l :: i < l < |s| ==> key(s[l]) != k
      decreases i - j
    {
      i := i - 1;
    }
  }

  /** The head of the sorted sequence is the first element of `s` with the smallest key. */
  lemma SortByFirst<T>(s: seq<T>, key: T -> int) returns (i: nat)
    requires s != []
    ensures i < |s| && SortBy(s, key)[0] == s[i]
    ensures forall j :: 0 <= j < |s| ==> key(s[i]) <= key(s[j])
    ensures forall j :: 0 <= j < i ==> key(s[i]) < key(s[j])
  {
    var r := SortBy(s, key);
    SortBySorted(s, key);
    SortByPermutes(s, key);
    var k := key(r[0]);
    assert r[0] in multiset(s);
    var j0 :| 0 <= j0 < |s| && s[j0] == r[0];
    forall j | 0 <= j < |s|
      ensures k <= key(s[j])
    {
      assert s[j] in multiset(r);
      var m :| 0 <= m < |r| && r[m] == s[j];
      assert m == 0 || key(r[0]) <= key(r[m]);
    }
    i := FirstIndexWithKey(s, key, k, j0);
    WithKeyFirst(s, key, k, i);
    WithKeyFirst(r, key, k, 0);
    SortByStable(s, key, k);
  }

  /** The last element of the sorted sequence is the last element of `s` with the largest key. */
  lemma SortByLast<T>(s: seq<T>, key: T -> int) returns (i: nat)
    requires s != []
    ensures i < |s| && SortBy(s, key)[|s| - 1] == s[i]
    ensures forall j :: 0 <= j < |s| ==> key(s[j]) <= key(s[i])
    ensures forall j :: i < j < |s| ==> key(s[j]) < key(s[i])
  {
    var r := SortBy(s, key);
    SortBySorted(s, key);
    SortByPermutes(s, key);
    var n := |r| - 1;
    var k := key(r[n]);
    assert r[n] in multiset(s);
    var j0 :| 0 <= j0 < |s| && s[j0] == r[n];
    forall j | 0 <= j < |s|
      ensures key(s[j]) <= k
    {
      assert s[j] in multiset(r);
      var m :| 0 <= m < |r| && r[m] == s[j];
      assert m == n || key(r[m]) <= key(r[n]);
    }
    i := LastIndexWithKey(s, key, k, j0);
    WithKeyLast(s, key, k, i);
    WithKeyLast(r, key, k, n);
    SortByStable(s, key, k);
    var w := WithKey(s, key, k);
    assert w[|w| - 1] == s[i];
    assert WithKey(r, key, k) == w;
  }
}
