/** Python's `sorted(xs, key=...)`: a stable sort by key. Both users sort by a total order on
    keys: strings by code point (doxyfront/doctree.py:51) and integers (doxyfront/depgraph.py:64). */
module Sorting {
  import opened Strings

  ghost predicate TotalOrder<K(!new)>(le: (K, K) -> bool)
  {
    (forall a, b :: le(a, b) || le(b, a)) &&
    (forall a, b :: le(a, b) && le(b, a) ==> a == b) &&
    (forall a, b, c :: le(a, b) && le(b, c) ==> le(a, c))
  }

  ghost predicate Reflexive<K(!new)>(le: (K, K) -> bool)
  {
    forall a :: le(a, a)
  }

  lemma TotalOrderReflexive<K(!new)>(le: (K, K) -> bool)
    requires TotalOrder(le)
    ensures Reflexive(le)
  {
    forall a
      ensures le(a, a)
    {
      assert le(a, a) || le(a, a);
    }
  }

  /** Put `x` in front of the first element whose key is not below `x`'s. */
  function Insert<T, K>(x: T, s: seq<T>, key: T -> K, le: (K, K) -> bool): seq<T>
  {
    if s == [] then [x]
    else if le(key(x), key(s[0])) then [x] + s
    else [s[0]] + Insert(x, s[1..], key, le)
  }

  /** Insertion sort from the back, which keeps elements of equal key in input order. */
  function SortBy<T, K>(s: seq<T>, key: T -> K, le: (K, K) -> bool): seq<T>
  {
    if s == [] then [] else Insert(s[0], SortBy(s[1..], key, le), key, le)
  }

  predicate SortedBy<T, K>(s: seq<T>, key: T -> K, le: (K, K) -> bool)
  {
    forall i :: 0 < i < |s| ==> le(key(s[i - 1]), key(s[i]))
  }

  /** With a transitive order, sorted neighbours make the whole sequence ordered. */
  lemma {:induction false} SortedByGlobal<T, K(!new)>(s: seq<T>, key: T -> K, le: (K, K) -> bool, i: nat, j: nat)
    requires TotalOrder(le) && SortedBy(s, key, le) && i <= j < |s|
    ensures le(key(s[i]), key(s[j]))
    decreases j - i
  {
    if i == j {
      TotalOrderReflexive(le);
    } else {
      SortedByGlobal(s, key, le, i + 1, j);
    }
  }

  /** The elements whose key is `k`, in order. */
  function KeyFilter<T, K(==)>(s: seq<T>, key: T -> K, k: K): seq<T>
  {
    if s == [] then [] else (if key(s[0]) == k then [s[0]] else []) + KeyFilter(s[1..], key, k)
  }

  lemma {:induction false} InsertSorted<T, K(!new)>(x: T, s: seq<T>, key: T -> K, le: (K, K) -> bool)
    requires TotalOrder(le) && SortedBy(s, key, le)
    ensures SortedBy(Insert(x, s, key, le), key, le)
    ensures s != [] ==> Insert(x, s, key, le)[0] == x || Insert(x, s, key, le)[0] == s[0]
  {
    if s != [] && !le(key(x), key(s[0])) {
      var t := Insert(x, s[1..], key, le);
      InsertSorted(x, s[1..], key, le);
      var r := [s[0]] + t;
      forall i | 0 < i < |r|
        ensures le(key(r[i - 1]), key(r[i]))
      {
        if i == 1 {
          if t[0] != x {
            assert t[0] == s[1];
          }
        } else {
          assert r[i - 1] == t[i - 2] && r[i] == t[i - 1];
        }
      }
    }
  }

  lemma {:induction false} InsertPermutes<T, K>(x: T, s: seq<T>, key: T -> K, le: (K, K) -> bool)
    ensures multiset(Insert(x, s, key, le)) == multiset(s) + multiset{x}
  {
    if s != [] && !le(key(x), key(s[0])) {
      InsertPermutes(x, s[1..], key, le);
      assert s == [s[0]] + s[1..];
    }
  }

  lemma {:induction false} SortByPermutes<T, K>(s: seq<T>, key: T -> K, le: (K, K) -> bool)
    ensures multiset(SortBy(s, key, le)) == multiset(s)
  {
    if s != [] {
      SortByPermutes(s[1..], key, le);
      InsertPermutes(s[0], SortBy(s[1..], key, le), key, le);
      assert s == [s[0]] + s[1..];
    }
  }

  /** `sorted` returns its input in ascending key order, as a permutation. */
  lemma {:induction false} SortBySorted<T, K(!new)>(s: seq<T>, key: T -> K, le: (K, K) -> bool)
    requires TotalOrder(le)
    ensures SortedBy(SortBy(s, key, le), key, le)
    ensures multiset(SortBy(s, key, le)) == multiset(s)
  {
    SortByPermutes(s, key, le);
    if s != [] {
      SortBySorted(s[1..], key, le);
      InsertSorted(s[0], SortBy(s[1..], key, le), key, le);
    }
  }

  lemma {:induction false} KeyFilterAppend<T, K>(a: seq<T>, b: seq<T>, key: T -> K, k: K)
    ensures KeyFilter(a + b, key, k) == KeyFilter(a, key, k) + KeyFilter(b, key, k)
  {
    if a != [] {
      assert (a + b)[1..] == a[1..] + b;
      KeyFilterAppend(a[1..], b, key, k);
    } else {
      assert a + b == b;
    }
  }

  lemma {:induction false} InsertStable<T, K(!new)>(x: T, s: seq<T>, key: T -> K, le: (K, K) -> bool, k: K)
    requires Reflexive(le)
    ensures KeyFilter(Insert(x, s, key, le), key, k) == KeyFilter([x] + s, key, k)
  {
    if s != [] && !le(key(x), key(s[0])) {
      var t := Insert(x, s[1..], key, le);
      assert key(s[0]) != key(x) by {
        assert le(key(x), key(x));
      }
      var hx := if key(x) == k then [x] else [];
      var hs := if key(s[0]) == k then [s[0]] else [];
      var rest := KeyFilter(s[1..], key, k);
      assert KeyFilter(t, key, k) == hx + rest by {
        InsertStable(x, s[1..], key, le, k);
        KeyFilterCons(x, s[1..], key, k);
      }
      assert Insert(x, s, key, le) == [s[0]] + t;
      assert KeyFilter([s[0]] + t, key, k) == hs + (hx + rest) by {
        KeyFilterCons(s[0], t, key, k);
      }
      assert KeyFilter([x] + s, key, k) == hx + (hs + rest) by {
        KeyFilterCons(x, s, key, k);
        KeyFilterCons(s[0], s[1..], key, k);
        assert [s[0]] + s[1..] == s;
      }
      assert hs == [] || hx == [];
    }
  }

  lemma KeyFilterCons<T, K>(x: T, s: seq<T>, key: T -> K, k: K)
    ensures KeyFilter([x] + s, key, k) == (if key(x) == k then [x] else []) + KeyFilter(s, key, k)
  {
    assert ([x] + s)[1..] == s;
  }

  /** Stability: for every key, the elements with that key keep their relative order. */
  lemma {:induction false} SortByStable<T, K(!new)>(s: seq<T>, key: T -> K, le: (K, K) -> bool, k: K)
    requires Reflexive(le)
    ensures KeyFilter(SortBy(s, key, le), key, k) == KeyFilter(s, key, k)
  {
    if s != [] {
      SortByStable(s[1..], key, le, k);
      InsertStable(s[0], SortBy(s[1..], key, le), key, le, k);
      KeyFilterAppend([s[0]], SortBy(s[1..], key, le), key, k);
      KeyFilterAppend([s[0]], s[1..], key, k);
      assert [s[0]] + s[1..] == s;
    }
  }

  /** `x` is kept by `KeyFilter` exactly when it occurs and has key `k`. */
  lemma {:induction false} KeyFilterMember<T, K>(s: seq<T>, key: T -> K, k: K, x: T)
    ensures x in KeyFilter(s, key, k) <==> x in s && key(x) == k
  {
    if s != [] {
      KeyFilterMember(s[1..], key, k, x);
      assert s == [s[0]] + s[1..];
    }
  }

  /** Strictly ascending integers. */
  predicate Increasing(s: seq<int>)
  {
    forall t :: 0 < t < |s| ==> s[t - 1] < s[t]
  }

  lemma {:induction false} IncreasingGlobal(s: seq<int>, i: nat, j: nat)
    requires Increasing(s) && i < j < |s|
    ensures s[i] < s[j]
    decreases j - i
  {
    if i + 1 < j {
      IncreasingGlobal(s, i + 1, j);
    }
  }

  /** Two strictly ascending sequences with the same elements are equal. */
  lemma {:induction false} IncreasingUnique(a: seq<int>, b: seq<int>)
    requires Increasing(a) && Increasing(b)
    requires forall x :: x in a <==> x in b
    ensures a == b
  {
    assert a == [] <==> b == [] by {
      if a != [] {
        assert a[0] in a;
      }
      if b != [] {
        assert b[0] in b;
      }
    }
    if a != [] {
      IncreasingHeads(a, b);
      IncreasingTails(a, b);
      IncreasingUnique(a[1..], b[1..]);
      assert a == [a[0]] + a[1..] && b == [b[0]] + b[1..];
    }
  }

  /** The least element comes first. */
  lemma IncreasingHeads(a: seq<int>, b: seq<int>)
    requires Increasing(a) && Increasing(b) && a != [] && b != []
    requires forall x :: x in a <==> x in b
    ensures a[0] == b[0]
  {
    assert a[0] in a && b[0] in b;
    var i :| 0 <= i < |b| && b[i] == a[0];
    var j :| 0 <= j < |a| && a[j] == b[0];
    if i > 0 {
      IncreasingGlobal(b, 0, i);
    }
    if j > 0 {
      IncreasingGlobal(a, 0, j);
    }
  }

  /** Dropping the common least element leaves the same elements. */
  lemma IncreasingTails(a: seq<int>, b: seq<int>)
    requires Increasing(a) && Increasing(b) && a != [] && b != [] && a[0] == b[0]
    requires forall x :: x in a <==> x in b
    ensures Increasing(a[1..]) && Increasing(b[1..])
    ensures forall x :: x in a[1..] <==> x in b[1..]
  {
    forall x
      ensures x in a[1..] <==> x in b[1..]
    {
      if x in a[1..] {
        var i :| 1 <= i < |a| && a[i] == x;
        IncreasingGlobal(a, 0, i);
        assert x in b;
      }
      if x in b[1..] {
        var i :| 1 <= i < |b| && b[i] == x;
        IncreasingGlobal(b, 0, i);
        assert x in a;
      }
    }
    forall t | 0 < t < |a[1..]|
      ensures a[1..][t - 1] < a[1..][t]
    {
      assert a[1..][t - 1] == a[t] && a[1..][t] == a[t + 1];
    }
    forall t | 0 < t < |b[1..]|
      ensures b[1..][t - 1] < b[1..][t]
    {
      assert b[1..][t - 1] == b[t] && b[1..][t] == b[t + 1];
    }
  }

  /** Strings by code point and integers are both total orders. */
  lemma {:induction false} LexLeAntisymmetric(a: string, b: string)
    requires LexLe(a, b) && LexLe(b, a)
    ensures a == b
  {
    if a != [] && b != [] {
      LexLeAntisymmetric(a[1..], b[1..]);
      assert a == [a[0]] + a[1..] && b == [b[0]] + b[1..];
    }
  }

  lemma {:induction false} LexLeTransitive(a: string, b: string, c: string)
    requires LexLe(a, b) && LexLe(b, c)
    ensures LexLe(a, c)
  {
    if a != [] && b != [] && c != [] && a[0] == b[0] && b[0] == c[0] {
      LexLeTransitive(a[1..], b[1..], c[1..]);
    }
  }

  lemma StringOrderTotal()
    ensures TotalOrder(LexLe)
  {
    forall a, b
      ensures LexLe(a, b) || LexLe(b, a)
    {
      LexLeTotal(a, b);
    }
    forall a, b | LexLe(a, b) && LexLe(b, a)
      ensures a == b
    {
      LexLeAntisymmetric(a, b);
    }
    forall a, b, c | LexLe(a, b) && LexLe(b, c)
      ensures LexLe(a, c)
    {
      LexLeTransitive(a, b, c);
    }
  }

  function IntLe(a: int, b: int): bool
  {
    a <= b
  }

  lemma IntOrderTotal()
    ensures TotalOrder(IntLe)
  {
  }
}
