/** A JavaScript object used as a string-keyed dictionary (`{ [key: string]: V }`).
    Assigning a key that is not yet present appends it to the creation order; assigning a present
    key changes only its value. `Object.keys`, `Object.values`, `Object.entries` and `for..in` list
    the keys in the order the ECMAScript OrdinaryOwnPropertyKeys operation fixes: first every key
    that is an array index, in ascending numeric order, then every other key in creation order. */
module JsObject {
  import opened Seqs
  import opened Text
  import opened Wrappers
  import Sorting

  /** A canonical decimal numeral (no leading zero) whose value is below 2^32 - 1. */
  predicate IsArrayIndex(k: string)
  {
    |k| > 0 && AllDigits(k) && (k[0] != '0' || |k| == 1) && DigitsValue(k) < 0xFFFF_FFFF
  }

  /** The numeric value of an array index, by which such keys are ordered. */
  function IndexValue(k: string): int
  {
    DigitsValue(k)
  }

  predicate IsNamedKey(k: string)
  {
    !IsArrayIndex(k)
  }

  /** The array-index keys of `order`, in creation order. */
  function IndexKeys(order: seq<string>): (r: seq<string>)
    ensures forall i :: 0 <= i < |r| ==> IsArrayIndex(r[i])
  {
    if order == [] then []
    else
      var k := order[|order| - 1];
      IndexKeys(order[..|order| - 1]) + (if IsArrayIndex(k) then [k] else [])
  }

  /** The remaining keys of `order`, in creation order. */
  function NamedKeys(order: seq<string>): (r: seq<string>)
    ensures forall i :: 0 <= i < |r| ==> IsNamedKey(r[i])
  {
    if order == [] then []
    else
      var k := order[|order| - 1];
      NamedKeys(order[..|order| - 1]) + (if IsArrayIndex(k) then [] else [k])
  }

  lemma {:induction false} NoIndexKeys(order: seq<string>)
    requires forall i :: 0 <= i < |order| ==> IsNamedKey(order[i])
    ensures IndexKeys(order) == [] && NamedKeys(order) == order
    decreases |order|
  {
    if order != [] {
      NoIndexKeys(order[..|order| - 1]);
      assert order == order[..|order| - 1] + [order[|order| - 1]];
    }
  }

  /** `keys` with the array index `k` placed in front of the first key that is not an array
      index of smaller value. */
  function InsertIndex(k: string, keys: seq<string>): seq<string>
  {
    if keys == [] || IsNamedKey(keys[0]) || IndexValue(k) <= IndexValue(keys[0]) then [k] + keys
    else [keys[0]] + InsertIndex(k, keys[1..])
  }

  lemma {:induction false} InsertIndexPermutes(k: string, keys: seq<string>)
    ensures multiset(InsertIndex(k, keys)) == multiset(keys) + multiset{k}
    decreases |keys|
  {
    if !(keys == [] || IsNamedKey(keys[0]) || IndexValue(k) <= IndexValue(keys[0])) {
      InsertIndexPermutes(k, keys[1..]);
      assert keys == [keys[0]] + keys[1..];
    }
  }

  /** The key order that `Object.keys` reports for an object whose keys were created in `order`,
      built key by key: a new array index goes among the array indices by value, any other new key
      goes last. */
  function EnumerationOrder(order: seq<string>): (r: seq<string>)
    ensures multiset(r) == multiset(order)
    ensures |r| == |order|
  {
    if order == [] then []
    else
      var init, k := order[..|order| - 1], order[|order| - 1];
      assert order == init + [k];
      var prev := EnumerationOrder(init);
      InsertIndexPermutes(k, prev);
      var r := if IsArrayIndex(k) then InsertIndex(k, prev) else prev + [k];
      assert |r| == |multiset(r)| == |multiset(order)| == |order|;
      r
  }

  /** Placing an array index in front of every key. */
  lemma InsertIndexFront(k: string, keys: seq<string>)
    requires keys == [] || IsNamedKey(keys[0]) || IndexValue(k) <= IndexValue(keys[0])
    ensures InsertIndex(k, keys) == [k] + keys
  {
  }

  /** On keys whose first `n` are the array indices, placing an array index is an insertion into
      the first `n` keys ordered by value. */
  lemma {:induction false} InsertIndexSplit(k: string, keys: seq<string>, n: nat)
    requires n <= |keys|
    requires forall i :: 0 <= i < n ==> IsArrayIndex(keys[i])
    requires n < |keys| ==> IsNamedKey(keys[n])
    ensures InsertIndex(k, keys) == Sorting.Insert(k, keys[..n], IndexValue) + keys[n..]
    decreases n
  {
    var front := keys[..n];
    if n == 0 {
      InsertIndexFront(k, keys);
      assert front == [] && keys[n..] == keys;
    } else if IndexValue(k) > IndexValue(keys[0]) {
      var rest := keys[1..];
      InsertIndexSplit(k, rest, n - 1);
      InsertIndexPast(k, keys);
      Sorting.InsertPast(k, front, IndexValue);
      SplitTail(keys, n);
      ConsAppend(keys[0], Sorting.Insert(k, rest[..n - 1], IndexValue), keys[n..]);
    } else {
      InsertIndexFront(k, keys);
      assert front[0] == keys[0];
      Sorting.InsertFront(k, front, IndexValue);
      assert keys == front + keys[n..];
    }
  }

  /** Dropping the first element of `s` and of its first `n` elements. */
  lemma SplitTail<T>(s: seq<T>, n: nat)
    requires 0 < n <= |s|
    ensures s[..n][0] == s[0] && s[..n][1..] == s[1..][..n - 1] && s[1..][n - 1..] == s[n..]
  {
  }

  lemma ConsAppend<T>(x: T, a: seq<T>, b: seq<T>)
    ensures [x] + (a + b) == ([x] + a) + b
  {
  }

  /** Placing an array index past a smaller array index. */
  lemma InsertIndexPast(k: string, keys: seq<string>)
    requires keys != [] && IsArrayIndex(keys[0]) && IndexValue(k) > IndexValue(keys[0])
    ensures InsertIndex(k, keys) == [keys[0]] + InsertIndex(k, keys[1..])
  {
  }

  /** The layout `EnumerationOrderShape` describes, for `n` array indices followed by `named`. */
  ghost predicate Shaped(r: seq<string>, n: nat, named: seq<string>)
  {
    && n <= |r|
    && (forall i :: 0 <= i < n ==> IsArrayIndex(r[i]))
    && Sorting.SortedBy(r[..n], IndexValue)
    && r[n..] == named
  }

  /** A new array index keeps the layout, with one more index in front. */
  lemma ShapeAfterIndex(prev: seq<string>, m: nat, named: seq<string>, k: string)
    requires Shaped(prev, m, named) && IsArrayIndex(k)
    requires forall i :: 0 <= i < |named| ==> IsNamedKey(named[i])
    ensures Shaped(InsertIndex(k, prev), m + 1, named)
  {
    var ins := Sorting.Insert(k, prev[..m], IndexValue);
    assert m < |prev| ==> IsNamedKey(named[0]);
    InsertIndexSplit(k, prev, m);
    Sorting.InsertSorted(k, prev[..m], IndexValue);
    Sorting.InsertPermutes(k, prev[..m], IndexValue);
    var r := InsertIndex(k, prev);
    assert |ins| == |multiset(ins)| == m + 1;
    assert r[..m + 1] == ins && r[m + 1..] == prev[m..];
    forall i | 0 <= i < m + 1
      ensures IsArrayIndex(r[i])
    {
      assert ins[i] in multiset(prev[..m]) + multiset{k};
      if ins[i] != k {
        var j :| 0 <= j < m && prev[..m][j] == ins[i];
      }
    }
  }

  /** A new named key keeps the layout and goes last. */
  lemma ShapeAfterNamed(prev: seq<string>, n: nat, named: seq<string>, k: string)
    requires Shaped(prev, n, named)
    ensures Shaped(prev + [k], n, named + [k])
  {
    var r := prev + [k];
    assert r[..n] == prev[..n];
    assert r[n..] == prev[n..] + [k];
  }

  /** The array-index keys come first, ascending by value; the other keys follow in creation
      order. */
  lemma {:induction false} EnumerationOrderShape(order: seq<string>)
    ensures Shaped(EnumerationOrder(order), |IndexKeys(order)|, NamedKeys(order))
    decreases |order|
  {
    if order != [] {
      var init, k := order[..|order| - 1], order[|order| - 1];
      EnumerationOrderShape(init);
      if IsArrayIndex(k) {
        ShapeAfterIndex(EnumerationOrder(init), |IndexKeys(init)|, NamedKeys(init), k);
      } else {
        ShapeAfterNamed(EnumerationOrder(init), |IndexKeys(init)|, NamedKeys(init), k);
      }
    }
  }

  /** When no key is an array index, keys are listed in creation order. */
  lemma {:induction false} EnumerationOrderOfNamedKeys(order: seq<string>)
    requires forall i :: 0 <= i < |order| ==> IsNamedKey(order[i])
    ensures EnumerationOrder(order) == order
    decreases |order|
  {
    if order != [] {
      var init := order[..|order| - 1];
      EnumerationOrderOfNamedKeys(init);
      assert order == init + [order[|order| - 1]];
    }
  }

  /** A key containing a character other than a digit is never an array index. */
  lemma NonDigitIsNamed(k: string, i: nat)
    requires i < |k| && !IsDigit(k[i])
    ensures IsNamedKey(k)
  {
  }

  datatype Dict<V> = Dict(order: seq<string>, values: map<string, V>) {

    /** The creation order lists each key once, and exactly the keys that hold a value. */
    ghost predicate Valid()
    {
      NoDuplicates(order) && forall k :: k in values <==> k in order
    }

    /** `Object.keys(this)`. */
    function Keys(): (r: seq<string>)
      requires Valid()
      ensures |r| == |order|
      ensures NoDuplicates(r) && forall k :: k in r <==> k in values
    {
      var r := EnumerationOrder(order);
      PermutationNoDuplicates(order, r);
      assert forall k :: k in r <==> k in multiset(order);
      r
    }

    /** `this[k]`, with `None` for `undefined`. */
    function Get(k: string): Option<V>
    {
      if k in values then Some(values[k]) else None
    }

    /** `this[k] = v`. */
    function Put(k: string, v: V): (d: Dict<V>)
      ensures d.values == values[k := v]
      ensures d.order == if k in values then order else order + [k]
      ensures Valid() ==> d.Valid()
    {
      if k in values then Dict(order, values[k := v]) else Dict(order + [k], values[k := v])
    }

    /** `[k, this[k]]` for each of the keys `ks`. */
    function EntriesFor(ks: seq<string>): (r: seq<(string, V)>)
      requires forall i :: 0 <= i < |ks| ==> ks[i] in values
      ensures |r| == |ks|
      ensures forall i :: 0 <= i < |r| ==> r[i].0 == ks[i] && r[i].1 == values[ks[i]]
    {
      if ks == [] then [] else [(ks[0], values[ks[0]])] + EntriesFor(ks[1..])
    }

    /** `Object.entries(this)`. */
    function Entries(): (r: seq<(string, V)>)
      requires Valid()
      ensures |r| == |order|
      ensures forall i :: 0 <= i < |r| ==> r[i] == (Keys()[i], values[Keys()[i]])
    {
      EntriesFor(Keys())
    }

    /** `Object.values(this)`. */
    function Values(): (r: seq<V>)
      requires Valid()
      ensures |r| == |order|
      ensures forall i :: 0 <= i < |r| ==> r[i] == values[Keys()[i]]
    {
      var e := Entries();
      seq(|e|, i requires 0 <= i < |e| => e[i].1)
    }
  }

  /** `if (!d[k]) d[k] = []; d[k].push(v)` on an object whose values are arrays (an array is
      always truthy, so the test fails exactly when the key is missing). */
  function Push<V>(d: Dict<seq<V>>, k: string, v: V): Dict<seq<V>>
  {
    var e := if k in d.values then d else d.Put(k, []);
    e.Put(k, e.values[k] + [v])
  }

  /** `push` appends `v` to the array under `k`, creating the key after the others when it is
      missing, and changes nothing else. */
  lemma PushEffect<V>(d: Dict<seq<V>>, k: string, v: V)
    ensures Push(d, k, v).order == if k in d.values then d.order else d.order + [k]
    ensures Push(d, k, v).values == d.values[k := (if k in d.values then d.values[k] else []) + [v]]
    ensures d.Valid() ==> Push(d, k, v).Valid()
  {
  }

  /** `{}`. */
  function EmptyDict<V>(): (d: Dict<V>)
    ensures d.Valid() && d.order == [] && d.values == map[]
  {
    Dict([], map[])
  }
}
