/** An object filled by pushing each element of a sequence onto the array under its key
    (`if (!groups[k]) groups[k] = []; groups[k].push(x)` inside a `forEach`). */
module GroupBy {
  import opened Seqs
  import opened JsObject

  /** The key of each element. */
  function KeysOf<T>(xs: seq<T>, key: T -> string): (ks: seq<string>)
    ensures |ks| == |xs| && forall i :: 0 <= i < |xs| ==> ks[i] == key(xs[i])
  {
    seq(|xs|, i requires 0 <= i < |xs| => key(xs[i]))
  }

  /** The elements with key `k`, in their order in `xs`. */
  function Group<T>(xs: seq<T>, key: T -> string, k: string): seq<T>
  {
    Filter(xs, x => key(x) == k)
  }

  /** `g` after the `forEach` has pushed the elements `xs`: one entry per key in first-occurrence
      order, holding the elements with that key. */
  ghost predicate GroupedBy<T>(g: Dict<seq<T>>, xs: seq<T>, key: T -> string)
  {
    g.Valid() && g.order == Distinct(KeysOf(xs, key)) && forall k :: k in g.values ==> g.values[k] == Group(xs, key, k)
  }

  lemma GroupSnoc<T>(xs: seq<T>, key: T -> string, x: T, k: string)
    ensures Group(xs + [x], key, k) == Group(xs, key, k) + if key(x) == k then [x] else []
  {
    assert (xs + [x])[..|xs|] == xs;
  }

  lemma {:induction false} GroupAbsent<T>(xs: seq<T>, key: T -> string, k: string)
    requires forall i :: 0 <= i < |xs| ==> key(xs[i]) != k
    ensures Group(xs, key, k) == []
    decreases |xs|
  {
    if xs != [] {
      GroupAbsent(xs[..|xs| - 1], key, k);
    }
  }

  /** Nothing pushed yet: the empty object. */
  lemma GroupedByNothing<T>(key: T -> string)
    ensures GroupedBy(EmptyDict(), [], key)
  {
    assert KeysOf([], key) == [];
  }

  /** One `push` keeps the object in step with the elements seen. */
  lemma PushGroupedBy<T>(g: Dict<seq<T>>, xs: seq<T>, key: T -> string, x: T)
    requires GroupedBy(g, xs, key)
    ensures GroupedBy(Push(g, key(x), x), xs + [x], key)
  {
    var k := key(x);
    var xs' := xs + [x];
    assert KeysOf(xs', key) == KeysOf(xs, key) + [k];
    DistinctSnoc(KeysOf(xs, key), k);
    PushEffect(g, k, x);
    if k !in g.values {
      GroupAbsentKey(g, xs, key, k);
    }
    PushGroups(g, xs, key, x);
  }

  /** A key the object lacks has an empty group. */
  lemma GroupAbsentKey<T>(g: Dict<seq<T>>, xs: seq<T>, key: T -> string, k: string)
    requires GroupedBy(g, xs, key) && k !in g.values
    ensures Group(xs, key, k) == []
  {
    forall i | 0 <= i < |xs|
      ensures key(xs[i]) != k
    {
      assert KeysOf(xs, key)[i] == key(xs[i]);
      DistinctMembership(KeysOf(xs, key), k);
    }
    GroupAbsent(xs, key, k);
  }

  /** After the push, each array is the group of its key among the elements seen. */
  lemma PushGroups<T>(g: Dict<seq<T>>, xs: seq<T>, key: T -> string, x: T)
    requires forall k :: k in g.values ==> g.values[k] == Group(xs, key, k)
    requires key(x) !in g.values ==> Group(xs, key, key(x)) == []
    ensures forall k :: k in Push(g, key(x), x).values ==> Push(g, key(x), x).values[k] == Group(xs + [x], key, k)
  {
    PushEffect(g, key(x), x);
    forall j | j in Push(g, key(x), x).values
      ensures Push(g, key(x), x).values[j] == Group(xs + [x], key, j)
    {
      GroupSnoc(xs, key, x, j);
    }
  }

  /** The keys of the object are exactly the keys of the elements. */
  lemma GroupedKeys<T>(g: Dict<seq<T>>, xs: seq<T>, key: T -> string, k: string)
    requires GroupedBy(g, xs, key)
    ensures k in g.values <==> exists i :: 0 <= i < |xs| && key(xs[i]) == k
  {
    DistinctMembership(KeysOf(xs, key), k);
    if k in KeysOf(xs, key) {
      var i :| 0 <= i < |xs| && KeysOf(xs, key)[i] == k;
    }
    if exists i :: 0 <= i < |xs| && key(xs[i]) == k {
      var i :| 0 <= i < |xs| && key(xs[i]) == k;
      assert KeysOf(xs, key)[i] == k;
    }
  }

  /** Every element lies in the group of its own key, as often as it occurs in `xs`, and in no
      other group; each group keeps the order of `xs` and is non-empty. */
  lemma GroupsPartition<T>(g: Dict<seq<T>>, xs: seq<T>, key: T -> string, x: T)
    requires GroupedBy(g, xs, key)
    ensures x in xs ==> key(x) in g.values
    ensures forall k :: k in g.values ==> Count(g.values[k], x) == if key(x) == k then Count(xs, x) else 0
    ensures forall k :: k in g.values ==> IsSubsequence(g.values[k], xs) && g.values[k] != []
  {
    if x in xs {
      var i :| 0 <= i < |xs| && xs[i] == x;
      GroupedKeys(g, xs, key, key(x));
    }
    forall k | k in g.values
      ensures Count(g.values[k], x) == if key(x) == k then Count(xs, x) else 0
      ensures IsSubsequence(g.values[k], xs) && g.values[k] != []
    {
      var keep := (y: T) => key(y) == k;
      FilterCount(xs, keep, x);
      FilterSubsequence(xs, keep);
      GroupedKeys(g, xs, key, k);
      var i :| 0 <= i < |xs| && key(xs[i]) == k;
      FilterCount(xs, keep, xs[i]);
    }
  }

  /** The size of a group is how often its key occurs among the keys. */
  lemma {:induction false} GroupLength<T>(xs: seq<T>, key: T -> string, k: string)
    ensures |Group(xs, key, k)| == Count(KeysOf(xs, key), k)
    decreases |xs|
  {
    if xs != [] {
      var init, x := xs[..|xs| - 1], xs[|xs| - 1];
      GroupLength(init, key, k);
      assert xs == init + [x];
      GroupSnoc(init, key, x, k);
      assert KeysOf(xs, key) == KeysOf(init, key) + [key(x)];
    }
  }

  /** The sizes of the groups under the keys `ks`, added up. */
  function SizeTotal<T>(g: Dict<seq<T>>, ks: seq<string>): nat
    requires forall i :: 0 <= i < |ks| ==> ks[i] in g.values
  {
    if ks == [] then 0 else |g.values[ks[0]]| + SizeTotal(g, ks[1..])
  }

  lemma {:induction false} SizeTotalCounts<T>(g: Dict<seq<T>>, xs: seq<T>, key: T -> string, ks: seq<string>)
    requires GroupedBy(g, xs, key)
    requires forall i :: 0 <= i < |ks| ==> ks[i] in g.values
    ensures SizeTotal(g, ks) == SumCounts(ks, KeysOf(xs, key))
    decreases |ks|
  {
    if ks != [] {
      SizeTotalCounts(g, xs, key, ks[1..]);
      GroupLength(xs, key, ks[0]);
    }
  }

  /** Listed in `Object.keys` order, the group sizes add up to the number of elements. */
  lemma SizesCoverElements<T>(g: Dict<seq<T>>, xs: seq<T>, key: T -> string)
    requires GroupedBy(g, xs, key)
    ensures SizeTotal(g, g.Keys()) == |xs|
  {
    var ks := g.Keys();
    SizeTotalCounts(g, xs, key, ks);
    assert multiset(ks) == multiset(g.order);
    SumCountsPermutation(ks, g.order, KeysOf(xs, key));
    SumCountsOfDistinct(KeysOf(xs, key));
  }
}
