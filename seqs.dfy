/** Sequence helpers shared by the model: repetition-free sequences, first positions,
    dictionary key order and nested generator loops. */
module Seqs {

  predicate Distinct<T(==)>(s: seq<T>)
  {
    forall i, j :: 0 <= i < j < |s| ==> s[i] != s[j]
  }

  /** The first position of `x` in `s`. */
  function IndexOf<T(==)>(s: seq<T>, x: T): (i: nat)
    requires x in s
    ensures i < |s| && s[i] == x && x !in s[..i]
  {
    if s[0] == x then 0 else 1 + IndexOf(s[1..], x)
  }

  /** The head of a sequence without repetitions does not occur in its tail. */
  lemma DistinctHead<T>(s: seq<T>)
    requires Distinct(s) && s != []
    ensures s[0] !in s[1..] && Distinct(s[1..])
  {
  }

  /** Past a different head, a position is one more than the position in the tail. */
  lemma IndexOfTail<T>(s: seq<T>, x: T)
    requires s != [] && x in s[1..] && s[0] != x
    ensures IndexOf(s, x) == 1 + IndexOf(s[1..], x)
  {
  }

  /** The keys of a Python dictionary in insertion order: first occurrences, in order. */
  function Dedup<T(!new,==)>(s: seq<T>): (r: seq<T>)
    ensures forall x :: x in r <==> x in s
    ensures Distinct(r)
  {
    if s == [] then []
    else
      var init := Dedup(s[..|s| - 1]);
      assert forall x :: x in s[..|s| - 1] ==> x in s;
      assert forall x :: x in s ==> x in s[..|s| - 1] || x == s[|s| - 1];
      if s[|s| - 1] in init then init else init + [s[|s| - 1]]
  }

  /** Nested generator loops `for b in blocks for x in b`. */
  function Concat<T>(ss: seq<seq<T>>): seq<T>
  {
    if ss == [] then [] else Concat(ss[..|ss| - 1]) + ss[|ss| - 1]
  }

  lemma {:induction false} ConcatHas<T>(ss: seq<seq<T>>, x: T)
    ensures x in Concat(ss) <==> exists j :: 0 <= j < |ss| && x in ss[j]
  {
    if ss != [] {
      var n := |ss| - 1;
      var init := ss[..n];
      ConcatHas(init, x);
      if x in Concat(init) {
        var j :| 0 <= j < |init| && x in init[j];
        assert init[j] == ss[j];
      }
      if exists j :: 0 <= j < |ss| && x in ss[j] {
        var j :| 0 <= j < |ss| && x in ss[j];
        if j < n {
          assert init[j] == ss[j];
        }
      }
    }
  }

  /** A sequence with the same elements, counted with multiplicity, as a duplicate-free one has
      no duplicates either. */
  lemma {:induction false} DistinctPermutation<T>(a: seq<T>, b: seq<T>)
    requires Distinct(a) && multiset(a) == multiset(b)
    ensures Distinct(b)
  {
    forall i, j | 0 <= i < j < |b|
      ensures b[i] != b[j]
    {
      if b[i] == b[j] {
        var x := b[i];
        assert multiset(b)[x] >= 2 by {
          var b1 := b[..i] + b[i + 1..];
          assert b == b[..i] + [x] + b[i + 1..];
          assert b1[j - 1] == x;
          assert multiset(b) == multiset(b1) + multiset{x};
        }
        DistinctCount(a, x);
        assert false;
      }
    }
  }

  lemma {:induction false} DistinctCount<T>(a: seq<T>, x: T)
    requires Distinct(a)
    ensures multiset(a)[x] <= 1
  {
    if a != [] {
      var n := |a| - 1;
      assert a == a[..n] + [a[n]];
      assert Distinct(a[..n]) by {
        forall i, j | 0 <= i < j < n
          ensures a[..n][i] != a[..n][j]
        {
          assert a[..n][i] == a[i] && a[..n][j] == a[j];
        }
      }
      DistinctCount(a[..n], x);
      if a[n] == x {
        assert x !in a[..n] by {
          forall i | 0 <= i < n
            ensures a[..n][i] != x
          {
            assert a[..n][i] == a[i];
          }
        }
      }
    }
  }

  /** `[f(0), ..., f(n - 1)]`, built one element at a time. */
  function Tabulate<T>(f: nat --> T, n: nat): (r: seq<T>)
    requires forall i: nat :: i < n ==> f.requires(i)
    ensures |r| == n
    ensures forall i :: 0 <= i < n ==> r[i] == f(i)
  {
    if n == 0 then [] else Tabulate(f, n - 1) + [f(n - 1)]
  }
}
