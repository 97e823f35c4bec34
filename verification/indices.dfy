/** Dense index sequences and duplicate-freedom.

    The scheduler names modules and agents by dense integer ids that double
    as positions in its tables; this module holds the facts about such id
    sequences that the scheduler's proofs share. */
module Indices {

  /** The ids 0, 1, ..., n-1 in ascending order. */
  function Ids(n: nat): (r: seq<int>)
    ensures |r| == n
    ensures forall i :: 0 <= i < n ==> r[i] == i
  {
    seq(n, i => i)
  }

  /** No value occurs twice. */
  ghost predicate Distinct(xs: seq<int>) {
    forall i, j :: 0 <= i < j < |xs| ==> xs[i] != xs[j]
  }

  /** Every entry is an id below n and every id below n is an entry. */
  ghost predicate CoversIds(xs: seq<int>, n: nat) {
    && (forall k :: 0 <= k < |xs| ==> 0 <= xs[k] < n)
    && (forall i :: 0 <= i < n ==> i in xs)
  }

  /** In a duplicate-free sequence a value occurs once if present and never otherwise. */
  lemma {:induction false} DistinctCount(xs: seq<int>, x: int)
    requires Distinct(xs)
    ensures multiset(xs)[x] == if x in xs then 1 else 0
  {
    if xs != [] {
      assert xs == [xs[0]] + xs[1..];
      assert Distinct(xs[1..]) by {
        forall i, j | 0 <= i < j < |xs[1..]|
          ensures xs[1..][i] != xs[1..][j]
        {
          assert xs[1..][i] == xs[i + 1] && xs[1..][j] == xs[j + 1];
        }
      }
      DistinctCount(xs[1..], x);
      if x == xs[0] {
        assert x !in xs[1..];
      }
    }
  }

  /** A value found at two positions occurs at least twice. */
  lemma RepeatCount(xs: seq<int>, i: int, j: int)
    requires 0 <= i < j < |xs| && xs[i] == xs[j]
    ensures multiset(xs)[xs[i]] >= 2
  {
    assert xs == xs[..j] + xs[j..];
    assert xs[i] in xs[..j];
    assert xs[j] in xs[j..];
    assert multiset(xs) == multiset(xs[..j]) + multiset(xs[j..]);
  }

  /** A rearrangement of Ids(n) is duplicate-free and holds exactly the ids below n. */
  lemma PermutationOfIds(xs: seq<int>, n: nat)
    requires multiset(xs) == multiset(Ids(n))
    ensures |xs| == n
    ensures Distinct(xs)
    ensures CoversIds(xs, n)
  {
    assert |multiset(xs)| == |xs|;
    assert Distinct(Ids(n));
    forall i, j | 0 <= i < j < |xs|
      ensures xs[i] != xs[j]
    {
      if xs[i] == xs[j] {
        RepeatCount(xs, i, j);
        DistinctCount(Ids(n), xs[i]);
      }
    }
    forall k | 0 <= k < |xs|
      ensures 0 <= xs[k] < n
    {
      assert xs[k] in multiset(Ids(n));
    }
    forall i | 0 <= i < n
      ensures i in xs
    {
      assert Ids(n)[i] == i;
      assert i in multiset(xs);
    }
  }

  /** Conversely, a duplicate-free sequence holding exactly the ids below n rearranges Ids(n). */
  lemma IdsFromDistinct(xs: seq<int>, n: nat)
    requires Distinct(xs)
    requires CoversIds(xs, n)
    ensures multiset(xs) == multiset(Ids(n))
  {
    assert Distinct(Ids(n));
    forall x
      ensures multiset(xs)[x] == multiset(Ids(n))[x]
    {
      DistinctCount(xs, x);
      DistinctCount(Ids(n), x);
      if x in xs {
        var k :| 0 <= k < |xs| && xs[k] == x;
        assert Ids(n)[x] == x;
      }
      if x in Ids(n) {
        var k :| 0 <= k < n && Ids(n)[k] == x;
        assert x in xs;
      }
    }
  }
  /** A sub-multiset is no larger. */
  lemma SubmultisetSize(a: multiset<int>, b: multiset<int>)
    requires a <= b
    ensures |a| <= |b|
  {
    var d := b - a;
    assert b == a + d;
  }

  /** A duplicate-free sequence of ids below n has at most n entries, and
      has exactly n of them just when it holds every id below n. */
  lemma DistinctIdsBound(xs: seq<int>, n: nat)
    requires Distinct(xs)
    requires forall k :: 0 <= k < |xs| ==> 0 <= xs[k] < n
    ensures |xs| <= n
    ensures |xs| == n <==> forall i :: 0 <= i < n ==> i in xs
  {
    assert Distinct(Ids(n));
    forall x
      ensures multiset(xs)[x] <= multiset(Ids(n))[x]
    {
      DistinctCount(xs, x);
      DistinctCount(Ids(n), x);
      if x in xs {
        var k :| 0 <= k < |xs| && xs[k] == x;
        assert Ids(n)[x] == x;
      }
    }
    SubmultisetSize(multiset(xs), multiset(Ids(n)));
    if forall i :: 0 <= i < n ==> i in xs {
      IdsFromDistinct(xs, n);
    } else {
      var i :| 0 <= i < n && i !in xs;
      assert Ids(n)[i] == i;
      forall x
        ensures multiset(xs)[x] <= (multiset(Ids(n)) - multiset{i})[x]
      {
        DistinctCount(Ids(n), x);
      }
      SubmultisetSize(multiset(xs), multiset(Ids(n)) - multiset{i});
    }
  }
}
