/** Facts about finite sequences shared by every view: duplicates, counting and sums of counts. */
module Seqs {

  /** No element occurs twice. */
  ghost predicate NoDuplicates<T>(s: seq<T>)
  {
    forall i, j :: 0 <= i < j < |s| ==> s[i] != s[j]
  }

  /** The elements of `s` in first-occurrence order, each once (what `[...new Set(s)]` gives, and
      the key order of an object filled by assigning the keys of `s` one after another). */
  function Distinct<T(==)>(s: seq<T>): (r: seq<T>)
    ensures NoDuplicates(r)
    ensures forall i :: 0 <= i < |r| ==> r[i] in s
    ensures forall i :: 0 <= i < |s| ==> s[i] in r
    ensures |r| <= |s|
  {
    if s == [] then []
    else
      var prev := Distinct(s[..|s| - 1]);
      if s[|s| - 1] in prev then prev else prev + [s[|s| - 1]]
  }

  /** Number of occurrences of `x` in `s`. */
  function Count<T(==)>(s: seq<T>, x: T): (n: nat)
    ensures n <= |s|
    ensures n == 0 <==> x !in s
  {
    if s == [] then 0
    else Count(s[..|s| - 1], x) + (if s[|s| - 1] == x then 1 else 0)
  }

  /** The sum, over the keys `ks`, of how often each occurs in `s`. */
  function SumCounts<T(==)>(ks: seq<T>, s: seq<T>): nat
  {
    if ks == [] then 0 else Count(s, ks[0]) + SumCounts(ks[1..], s)
  }

  /** `a` is `b` with some elements left out, the rest in the same order. */
  predicate IsSubsequence<T(==)>(a: seq<T>, b: seq<T>)
  {
    if a == [] then true
    else if b == [] then false
    else if a[|a| - 1] == b[|b| - 1] then IsSubsequence(a[..|a| - 1], b[..|b| - 1])
    else IsSubsequence(a, b[..|b| - 1])
  }

  lemma {:induction false} CountAppend<T>(s: seq<T>, t: seq<T>, x: T)
    ensures Count(s + t, x) == Count(s, x) + Count(t, x)
    decreases |t|
  {
    if t == [] {
      assert s + t == s;
    } else {
      assert (s + t)[..|s + t| - 1] == s + t[..|t| - 1];
      CountAppend(s, t[..|t| - 1], x);
    }
  }

  lemma {:induction false} CountFront<T>(x: T, s: seq<T>, y: T)
    ensures Count([x] + s, y) == (if x == y then 1 else 0) + Count(s, y)
  {
    CountAppend([x], s, y);
    assert [x][..0] == [];
  }

  lemma {:induction false} SumCountsAppend<T>(ks: seq<T>, ls: seq<T>, s: seq<T>)
    ensures SumCounts(ks + ls, s) == SumCounts(ks, s) + SumCounts(ls, s)
    decreases |ks|
  {
    if ks == [] {
      assert ks + ls == ls;
    } else {
      assert (ks + ls)[1..] == ks[1..] + ls;
      SumCountsAppend(ks[1..], ls, s);
    }
  }

  /** Appending `x` to the counted sequence adds one to the sum exactly when `x` is a key. */
  lemma {:induction false} SumCountsSnoc<T>(ks: seq<T>, s: seq<T>, x: T)
    requires NoDuplicates(ks)
    ensures SumCounts(ks, s + [x]) == SumCounts(ks, s) + (if x in ks then 1 else 0)
    decreases |ks|
  {
    if ks != [] {
      assert (s + [x])[..|s + [x]| - 1] == s;
      assert x in ks[1..] ==> x != ks[0];
      assert x in ks <==> x == ks[0] || x in ks[1..];
      SumCountsSnoc(ks[1..], s, x);
    }
  }

  /** Each element of `s` is counted once under its own distinct key: the counts of the distinct
      keys add up to the length. */
  lemma {:induction false} SumCountsOfDistinct<T>(s: seq<T>)
    ensures SumCounts(Distinct(s), s) == |s|
    decreases |s|
  {
    if s != [] {
      var init, x := s[..|s| - 1], s[|s| - 1];
      assert s == init + [x];
      var d := Distinct(init);
      SumCountsOfDistinct(init);
      SumCountsSnoc(d, init, x);
      if x !in d {
        SumCountsAppend(d, [x], s);
        assert [x][1..] == [];
        assert Count(init, x) == 0;
      }
    }
  }

  /** Removing the element at `i`. */
  function RemoveAt<T>(s: seq<T>, i: nat): (r: seq<T>)
    requires i < |s|
    ensures multiset(r) == multiset(s) - multiset{s[i]}
  {
    assert s == s[..i] + [s[i]] + s[i + 1..];
    s[..i] + s[i + 1..]
  }

  /** A permutation of a non-empty sequence holds its head at some index `i`; the tail is a
      permutation of what is left once that index is removed. */
  lemma PermutationHead<T>(a: seq<T>, b: seq<T>) returns (i: nat)
    requires multiset(a) == multiset(b) && a != []
    ensures i < |b| && b[i] == a[0]
    ensures multiset(a[1..]) == multiset(b[..i] + b[i + 1..])
    ensures b == b[..i] + ([b[i]] + b[i + 1..]) && ([b[i]] + b[i + 1..])[1..] == b[i + 1..]
  {
    assert a[0] in multiset(b);
    i :| 0 <= i < |b| && b[i] == a[0];
    assert multiset(a[1..]) == multiset(RemoveAt(b, i)) by {
      assert a == [a[0]] + a[1..];
    }
    assert b == b[..i] + ([b[i]] + b[i + 1..]);
    assert ([b[i]] + b[i + 1..])[1..] == b[i + 1..];
  }

  /** A sum of counts does not depend on the order of the keys. */
  lemma {:induction false} SumCountsPermutation<T>(a: seq<T>, b: seq<T>, s: seq<T>)
    requires multiset(a) == multiset(b)
    ensures SumCounts(a, s) == SumCounts(b, s)
    decreases |a|
  {
    if a != [] {
      var i := PermutationHead(a, b);
      SumCountsPermutation(a[1..], b[..i] + b[i + 1..], s);
      SumCountsAppend(b[..i], [b[i]] + b[i + 1..], s);
      SumCountsAppend(b[..i], b[i + 1..], s);
    } else {
      assert |b| == |multiset(b)| == 0;
    }
  }

  /** Without duplicates, the length of a sequence is the size of its set of elements. */
  lemma {:induction false} DistinctCardinality<T>(s: seq<T>)
    requires NoDuplicates(s)
    ensures |set x | x in s| == |s|
    decreases |s|
  {
    if s != [] {
      var init := s[..|s| - 1];
      DistinctCardinality(init);
      assert (set x | x in s) == (set x | x in init) + {s[|s| - 1]};
      assert s[|s| - 1] !in init;
    }
  }

  /** Appending to the longer sequence keeps a subsequence a subsequence. */
  lemma {:induction false} SubsequenceSnoc<T>(a: seq<T>, b: seq<T>, x: T)
    requires IsSubsequence(a, b)
    ensures IsSubsequence(a, b + [x])
    decreases |b|, 1
  {
    var bx := b + [x];
    assert bx[..|bx| - 1] == b;
    if a != [] && a[|a| - 1] == x {
      SubsequenceDropLast(a, b);
    }
  }

  /** A subsequence without its last element is still a subsequence. */
  lemma {:induction false} SubsequenceDropLast<T>(a: seq<T>, b: seq<T>)
    requires a != [] && IsSubsequence(a, b)
    ensures IsSubsequence(a[..|a| - 1], b)
    decreases |b|, 0
  {
    var a', b' := a[..|a| - 1], b[..|b| - 1];
    assert b' + [b[|b| - 1]] == b;
    if a[|a| - 1] == b[|b| - 1] {
      SubsequenceSnoc(a', b', b[|b| - 1]);
    } else {
      SubsequenceDropLast(a, b');
      SubsequenceSnoc(a', b', b[|b| - 1]);
    }
  }

  lemma {:induction false} CountMultiset<T>(s: seq<T>, x: T)
    ensures multiset(s)[x] == Count(s, x)
    decreases |s|
  {
    if s != [] {
      CountMultiset(s[..|s| - 1], x);
      assert s == s[..|s| - 1] + [s[|s| - 1]];
    }
  }

  lemma {:induction false} NoDuplicatesCount<T>(s: seq<T>, x: T)
    requires NoDuplicates(s)
    ensures Count(s, x) <= 1
    decreases |s|
  {
    if s != [] {
      NoDuplicatesCount(s[..|s| - 1], x);
    }
  }

  /** Reordering keeps a sequence free of duplicates. */
  lemma PermutationNoDuplicates<T>(a: seq<T>, b: seq<T>)
    requires multiset(a) == multiset(b) && NoDuplicates(a)
    ensures NoDuplicates(b)
  {
    forall i, j | 0 <= i < j < |b|
      ensures b[i] != b[j]
    {
      if b[i] == b[j] {
        var x := b[i];
        assert b == b[..j] + b[j..];
        CountAppend(b[..j], b[j..], x);
        assert x in b[..j] && x in b[j..];
        CountMultiset(a, x);
        CountMultiset(b, x);
        NoDuplicatesCount(a, x);
        assert false;
      }
    }
  }

  /** Reordering keeps the images under `f` pairwise different. */
  lemma PermutationDistinctBy<T, K>(a: seq<T>, b: seq<T>, f: T -> K)
    requires multiset(a) == multiset(b)
    requires forall p, q :: 0 <= p < q < |a| ==> f(a[p]) != f(a[q])
    ensures forall i, j :: 0 <= i < j < |b| ==> f(b[i]) != f(b[j])
  {
    assert NoDuplicates(a) by {
      forall p, q | 0 <= p < q < |a|
        ensures a[p] != a[q]
      {
        assert f(a[p]) != f(a[q]);
      }
    }
    PermutationNoDuplicates(a, b);
    forall i, j | 0 <= i < j < |b|
      ensures f(b[i]) != f(b[j])
    {
      assert b[i] in multiset(a) && b[j] in multiset(a);
      var p :| 0 <= p < |a| && a[p] == b[i];
      var q :| 0 <= q < |a| && a[q] == b[j];
      assert p != q;
      if p < q {
        assert f(a[p]) != f(a[q]);
      } else {
        assert f(a[q]) != f(a[p]);
      }
    }
  }

  /** Extending a prefix of `s` by one element, after a fixed `a`. */
  lemma PrefixSnoc<T>(a: seq<T>, s: seq<T>, k: nat)
    requires k < |s|
    ensures a + s[..k + 1] == (a + s[..k]) + [s[k]]
  {
    assert s[..k + 1] == s[..k] + [s[k]];
  }

  /** Extending a prefix of `s` by one element. */
  lemma TakeSnoc<T>(s: seq<T>, k: nat)
    requires k < |s|
    ensures s[..k + 1] == s[..k] + [s[k]]
  {
  }

  lemma DistinctMembership<T>(s: seq<T>, x: T)
    ensures x in Distinct(s) <==> x in s
  {
    var r := Distinct(s);
    if x in r {
      var i :| 0 <= i < |r| && r[i] == x;
    }
    if x in s {
      var i :| 0 <= i < |s| && s[i] == x;
    }
  }

  /** One more element is added to the distinct elements when it is new. */
  lemma DistinctSnoc<T>(s: seq<T>, x: T)
    ensures Distinct(s + [x]) == if x in s then Distinct(s) else Distinct(s) + [x]
    ensures x in Distinct(s) <==> x in s
  {
    assert (s + [x])[..|s|] == s;
    DistinctMembership(s, x);
  }

  /** `r` lists the elements of `s`, each once, in the order of their first occurrence in `s`:
      wherever a later element of `r` occurs in `s`, every earlier element of `r` occurs before. */
  ghost predicate FirstOccurrences<T>(r: seq<T>, s: seq<T>)
  {
    && NoDuplicates(r)
    && (forall i :: 0 <= i < |r| ==> r[i] in s)
    && (forall k :: 0 <= k < |s| ==> s[k] in r)
    && forall i, j, k :: 0 <= i < j < |r| && 0 <= k < |s| && s[k] == r[j] ==> r[i] in s[..k]
  }

  /** `Distinct` keeps first-occurrence order. */
  lemma {:induction false} DistinctFirstOccurrences<T>(s: seq<T>)
    ensures FirstOccurrences(Distinct(s), s)
    decreases |s|
  {
    if s != [] {
      var init, x := s[..|s| - 1], s[|s| - 1];
      var prev, r := Distinct(init), Distinct(s);
      DistinctFirstOccurrences(init);
      assert s == init + [x];
      DistinctMembership(s, x);
      forall i, j, k | 0 <= i < j < |r| && 0 <= k < |s| && s[k] == r[j]
        ensures r[i] in s[..k]
      {
        assert r[i] in prev;
        if k < |init| {
          assert init[k] == s[k];
          assert j < |prev|;
          assert r[j] == prev[j] && r[i] == prev[i];
          assert init[..k] == s[..k];
        } else {
          assert s[..k] == init;
        }
      }
    }
  }

  /** `s.filter(keep)`: the elements `keep` accepts, in their order in `s`. */
  function Filter<T>(s: seq<T>, keep: T -> bool): (r: seq<T>)
    ensures |r| <= |s|
    ensures forall i :: 0 <= i < |r| ==> keep(r[i])
  {
    if s == [] then []
    else Filter(s[..|s| - 1], keep) + (if keep(s[|s| - 1]) then [s[|s| - 1]] else [])
  }

  /** The filter keeps every occurrence of an accepted element and no occurrence of another. */
  lemma {:induction false} FilterCount<T>(s: seq<T>, keep: T -> bool, x: T)
    ensures Count(Filter(s, keep), x) == if keep(x) then Count(s, x) else 0
    decreases |s|
  {
    if s != [] {
      var init, y := s[..|s| - 1], s[|s| - 1];
      FilterCount(init, keep, x);
      var tail := if keep(y) then [y] else [];
      CountAppend(Filter(init, keep), tail, x);
      assert Count(tail, x) == if keep(y) && y == x then 1 else 0 by {
        if keep(y) {
          assert tail[..0] == [];
        }
      }
    }
  }

  /** The filter keeps the order of `s`. */
  lemma {:induction false} FilterSubsequence<T>(s: seq<T>, keep: T -> bool)
    ensures IsSubsequence(Filter(s, keep), s)
    decreases |s|
  {
    if s != [] {
      var init, y := s[..|s| - 1], s[|s| - 1];
      var r := Filter(s, keep);
      FilterSubsequence(init, keep);
      if keep(y) {
        assert r[..|r| - 1] == Filter(init, keep);
      } else {
        assert r == Filter(init, keep);
        assert s == init + [y];
        SubsequenceSnoc(r, init, y);
      }
    }
  }

  /** Every sequence is a subsequence of itself. */
  lemma {:induction false} SubsequenceOfSelf<T>(s: seq<T>)
    ensures IsSubsequence(s, s)
    decreases |s|
  {
    if s != [] {
      SubsequenceOfSelf(s[..|s| - 1]);
    }
  }
}
