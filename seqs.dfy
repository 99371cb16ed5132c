/** Sequence helpers shared by the tree builder and the code table: a map, a
    flat map and a sum over a sequence, and the facts that reordering the input
    (any permutation, such as the one a sort performs) reorders their results and
    leaves the sum unchanged. */
module Seqs {

  /** No element occurs twice. */
  ghost predicate NoDuplicates<T>(s: seq<T>) {
    forall i, j :: 0 <= i < j < |s| ==> s[i] != s[j]
  }

  /** Every character is a '0' or a '1'. */
  predicate IsBits(s: seq<char>) {
    forall i :: 0 <= i < |s| ==> s[i] == '0' || s[i] == '1'
  }

  /** A bit string of k '0' characters. */
  function Zeros(k: nat): (z: seq<char>)
    ensures |z| == k && forall i :: 0 <= i < k ==> z[i] == '0'
  {
    seq(k, _ => '0')
  }

  function Map<A, B>(xs: seq<A>, f: A -> B): (ys: seq<B>)
    ensures |ys| == |xs|
    ensures forall i :: 0 <= i < |xs| ==> ys[i] == f(xs[i])
  {
    if xs == [] then [] else [f(xs[0])] + Map(xs[1..], f)
  }

  function FlatMap<A, B>(xs: seq<A>, f: A -> seq<B>): seq<B> {
    if xs == [] then [] else f(xs[0]) + FlatMap(xs[1..], f)
  }

  function SumOf<A>(xs: seq<A>, f: A -> int): int {
    if xs == [] then 0 else f(xs[0]) + SumOf(xs[1..], f)
  }

  lemma {:induction false} MapAppend<A, B>(xs: seq<A>, ys: seq<A>, f: A -> B)
    ensures Map(xs + ys, f) == Map(xs, f) + Map(ys, f)
  {
  }

  lemma {:induction false} FlatMapAppend<A, B>(xs: seq<A>, ys: seq<A>, f: A -> seq<B>)
    ensures FlatMap(xs + ys, f) == FlatMap(xs, f) + FlatMap(ys, f)
    decreases |xs|
  {
    if xs != [] {
      assert (xs + ys)[1..] == xs[1..] + ys;
      FlatMapAppend(xs[1..], ys, f);
    } else {
      assert xs + ys == ys;
    }
  }

  lemma {:induction false} SumOfAppend<A>(xs: seq<A>, ys: seq<A>, f: A -> int)
    ensures SumOf(xs + ys, f) == SumOf(xs, f) + SumOf(ys, f)
    decreases |xs|
  {
    if xs != [] {
      assert (xs + ys)[1..] == xs[1..] + ys;
      SumOfAppend(xs[1..], ys, f);
    } else {
      assert xs + ys == ys;
    }
  }

  /** In a permutation ys of xs, find the position of xs[0]; the rest of ys is
      then a permutation of the rest of xs. */
  lemma PickOut<A>(xs: seq<A>, ys: seq<A>) returns (k: nat)
    requires xs != [] && multiset(xs) == multiset(ys)
    ensures k < |ys| && ys[k] == xs[0]
    ensures multiset(xs[1..]) == multiset(ys[..k] + ys[k + 1..])
  {
    assert xs[0] in multiset(ys);
    k :| 0 <= k < |ys| && ys[k] == xs[0];
    assert ys == ys[..k] + [ys[k]] + ys[k + 1..];
    assert multiset(ys) == multiset(ys[..k] + ys[k + 1..]) + multiset{ys[k]};
    assert xs == [xs[0]] + xs[1..];
    assert multiset(xs) == multiset(xs[1..]) + multiset{xs[0]};
    calc {
      multiset(xs[1..]);
      multiset(xs) - multiset{xs[0]};
      multiset(ys) - multiset{ys[k]};
      multiset(ys[..k] + ys[k + 1..]);
    }
  }

  lemma {:induction false} PermMap<A, B>(xs: seq<A>, ys: seq<A>, f: A -> B)
    requires multiset(xs) == multiset(ys)
    ensures multiset(Map(xs, f)) == multiset(Map(ys, f))
    decreases |xs|
  {
    if xs == [] {
      assert |multiset(ys)| == 0;
    } else {
      var k := PickOut(xs, ys);
      PermMap(xs[1..], ys[..k] + ys[k + 1..], f);
      assert ys == ys[..k] + ([ys[k]] + ys[k + 1..]);
      MapAppend(ys[..k], [ys[k]] + ys[k + 1..], f);
      MapAppend(ys[..k], ys[k + 1..], f);
      MapAppend([ys[k]], ys[k + 1..], f);
    }
  }

  lemma {:induction false} PermFlatMap<A, B>(xs: seq<A>, ys: seq<A>, f: A -> seq<B>)
    requires multiset(xs) == multiset(ys)
    ensures multiset(FlatMap(xs, f)) == multiset(FlatMap(ys, f))
    decreases |xs|
  {
    if xs == [] {
      assert |multiset(ys)| == 0;
    } else {
      var k := PickOut(xs, ys);
      PermFlatMap(xs[1..], ys[..k] + ys[k + 1..], f);
      assert ys == ys[..k] + ([ys[k]] + ys[k + 1..]);
      FlatMapAppend(ys[..k], [ys[k]] + ys[k + 1..], f);
      FlatMapAppend(ys[..k], ys[k + 1..], f);
      assert ([ys[k]] + ys[k + 1..])[1..] == ys[k + 1..];
    }
  }

  lemma {:induction false} PermSumOf<A>(xs: seq<A>, ys: seq<A>, f: A -> int)
    requires multiset(xs) == multiset(ys)
    ensures SumOf(xs, f) == SumOf(ys, f)
    decreases |xs|
  {
    if xs == [] {
      assert |multiset(ys)| == 0;
    } else {
      var k := PickOut(xs, ys);
      PermSumOf(xs[1..], ys[..k] + ys[k + 1..], f);
      assert ys == ys[..k] + ([ys[k]] + ys[k + 1..]);
      SumOfAppend(ys[..k], [ys[k]] + ys[k + 1..], f);
      SumOfAppend(ys[..k], ys[k + 1..], f);
      assert ([ys[k]] + ys[k + 1..])[1..] == ys[k + 1..];
    }
  }

  lemma {:induction false} NoDuplicatesCount<T>(s: seq<T>, x: T)
    requires NoDuplicates(s)
    ensures multiset(s)[x] <= 1
    decreases |s|
  {
    if s != [] {
      assert s == [s[0]] + s[1..];
      NoDuplicatesCount(s[1..], x);
    }
  }

  /** Having no duplicates depends only on the multiset of elements. */
  lemma PermNoDuplicates<T>(xs: seq<T>, ys: seq<T>)
    requires multiset(xs) == multiset(ys) && NoDuplicates(ys)
    ensures NoDuplicates(xs)
  {
    forall i, j | 0 <= i < j < |xs|
      ensures xs[i] != xs[j]
    {
      NoDuplicatesCount(ys, xs[i]);
      assert xs == xs[..i] + [xs[i]] + xs[i + 1..j] + [xs[j]] + xs[j + 1..];
      assert multiset(xs)[xs[i]] >= 1 + (if xs[j] == xs[i] then 1 else 0);
    }
  }
}
