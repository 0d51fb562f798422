/**
 Product indices and the canonical tuples built from them.

 The recommender keys its rule table by antecedents written as ascending
 tuples of product indices, and enumerates sub-tuples of the cart in the
 order `itertools.combinations` produces them. This module defines both.
 */
module Indices {

  /** A canonical tuple: strictly ascending, hence free of duplicates. */
  predicate Ascending(s: seq<nat>) {
    forall i, j :: 0 <= i < j < |s| ==> s[i] < s[j]
  }

  predicate NoDup<T(==)>(s: seq<T>) {
    forall i, j :: 0 <= i < j < |s| ==> s[i] != s[j]
  }

  /** `order` lists every element of `s` exactly once, in some order. */
  predicate Enumerates(order: seq<nat>, s: set<nat>) {
    && NoDup(order)
    && (forall x :: x in order ==> x in s)
    && (forall x :: x in s ==> x in order)
  }

  function Min(a: nat, b: nat): nat {
    if a <= b then a else b
  }

  /** A non-empty set of indices has a least element. */
  lemma {:induction false} LeastElement(s: set<nat>) returns (m: nat)
    requires s != {}
    ensures m in s && forall y :: y in s ==> m <= y
    decreases |s|
  {
    var x :| x in s;
    if s == {x} {
      m := x;
    } else {
      var rest := s - {x};
      assert |rest| < |s|;
      var r := LeastElement(rest);
      m := if x < r then x else r;
      forall y | y in s
        ensures m <= y
      {
        if y != x {
          assert y in rest;
        }
      }
    }
  }

  lemma MinExists(s: set<nat>)
    requires s != {}
    ensures exists m :: m in s && forall y :: y in s ==> m <= y
  {
    var m := LeastElement(s);
  }

  /** The least element of a non-empty set of indices. */
  function SetMin(s: set<nat>): (m: nat)
    requires s != {}
    ensures m in s
    ensures forall y :: y in s ==> m <= y
  {
    MinExists(s);
    var m :| m in s && (forall y :: y in s ==> m <= y);
    m
  }

  /** Python's `tuple(sorted(s))` for a set of indices. */
  function SortSet(s: set<nat>): (r: seq<nat>)
    ensures Ascending(r)
    ensures forall x :: x in r <==> x in s
    ensures |r| == |s|
    decreases |s|
  {
    if s == {} then []
    else
      var m := SetMin(s);
      [m] + SortSet(s - {m})
  }

  lemma NothingInEmptyOnly<T>(s: seq<T>)
    ensures (forall x :: x !in s) ==> s == []
  {
    if s != [] {
      assert s[0] in s;
    }
  }

  /** An ascending tuple is determined by its elements. */
  lemma {:induction false} AscendingUnique(a: seq<nat>, b: seq<nat>)
    requires Ascending(a) && Ascending(b)
    requires forall x :: x in a <==> x in b
    ensures a == b
  {
    if a == [] {
      NothingInEmptyOnly(b);
    } else {
      assert a[0] in b;
      assert b != [];
      assert a[0] == b[0] by {
        assert b[0] in a;
        assert forall i :: 0 <= i < |b| ==> b[0] <= b[i];
        assert forall j :: 0 <= j < |a| ==> a[0] <= a[j];
      }
      forall x | x in a[1..]
        ensures x in b[1..]
      {
        var i :| 1 <= i < |a| && a[i] == x;
        assert x in b;
        var j :| 0 <= j < |b| && b[j] == x;
        assert j != 0 by { assert a[0] < a[i]; }
        assert b[1..][j - 1] == x;
      }
      forall x | x in b[1..]
        ensures x in a[1..]
      {
        var j :| 1 <= j < |b| && b[j] == x;
        assert x in a;
        var i :| 0 <= i < |a| && a[i] == x;
        assert i != 0 by { assert b[0] < b[j]; }
        assert a[1..][i - 1] == x;
      }
      AscendingUnique(a[1..], b[1..]);
      assert a == [a[0]] + a[1..] && b == [b[0]] + b[1..];
    }
  }

  /** Sorting is canonical: equal sorted tuples come from equal sets, and an
      ascending tuple is the sorted form of its own elements. */
  lemma SortSetCanonical(s: set<nat>, t: seq<nat>)
    requires Ascending(t)
    ensures SortSet(s) == t <==> (forall x :: x in t <==> x in s)
  {
    if forall x :: x in t <==> x in s {
      AscendingUnique(SortSet(s), t);
    }
  }

  function PrefixAll(x: nat, combos: seq<seq<nat>>): (r: seq<seq<nat>>)
    ensures |r| == |combos|
    ensures forall i :: 0 <= i < |r| ==> r[i] == [x] + combos[i]
  {
    seq(|combos|, i requires 0 <= i < |combos| => [x] + combos[i])
  }

  lemma InTail(s: seq<nat>, x: nat)
    requires |s| >= 1 && x in s[1..]
    ensures x in s
  {
    var j :| 0 <= j < |s| - 1 && s[1..][j] == x;
    assert s[j + 1] == x;
  }

  /** Sub-tuples of the tail are drawn from the tuple, and prefixing them with
      the head keeps them drawn from it and, for an ascending tuple,
      ascending. */
  lemma PrefixHead(s: seq<nat>, inner: seq<seq<nat>>)
    requires |s| >= 1
    requires forall i, x :: 0 <= i < |inner| && x in inner[i] ==> x in s[1..]
    requires Ascending(s) ==> forall i :: 0 <= i < |inner| ==> Ascending(inner[i])
    ensures forall i, x :: 0 <= i < |PrefixAll(s[0], inner)| && x in PrefixAll(s[0], inner)[i] ==> x in s
    ensures Ascending(s) ==> forall i :: 0 <= i < |PrefixAll(s[0], inner)| ==> Ascending(PrefixAll(s[0], inner)[i])
  {
    var withHead := PrefixAll(s[0], inner);
    forall i, x | 0 <= i < |withHead| && x in withHead[i]
      ensures x in s
    {
      assert withHead[i] == [s[0]] + inner[i];
      if x != s[0] {
        assert x in inner[i];
        InTail(s, x);
      }
    }
    if Ascending(s) {
      forall i | 0 <= i < |withHead|
        ensures Ascending(withHead[i])
      {
        var c := inner[i];
        forall y | y in c
          ensures s[0] < y
        {
          assert y in s[1..];
          var j :| 0 <= j < |s| - 1 && s[1..][j] == y;
          assert s[j + 1] == y;
        }
        assert withHead[i] == [s[0]] + c;
        forall p, q | 0 <= p < q < |withHead[i]|
          ensures withHead[i][p] < withHead[i][q]
        {
          assert withHead[i][q] == c[q - 1];
          if p > 0 {
            assert withHead[i][p] == c[p - 1];
          } else {
            assert c[q - 1] in c;
          }
        }
      }
    }
  }

  lemma TailDrawn(s: seq<nat>, rest: seq<seq<nat>>)
    requires |s| >= 1
    requires forall i, x :: 0 <= i < |rest| && x in rest[i] ==> x in s[1..]
    ensures forall i, x :: 0 <= i < |rest| && x in rest[i] ==> x in s
  {
    forall i, x | 0 <= i < |rest| && x in rest[i]
      ensures x in s
    {
      InTail(s, x);
    }
  }

  /** `itertools.combinations(s, k)`: every length-`k` sub-tuple of `s`, in
      lexicographic order of positions. */
  function Combinations(s: seq<nat>, k: nat): (r: seq<seq<nat>>)
    ensures forall i :: 0 <= i < |r| ==> |r[i]| == k
    ensures forall i, x :: 0 <= i < |r| && x in r[i] ==> x in s
    ensures Ascending(s) ==> forall i :: 0 <= i < |r| ==> Ascending(r[i])
    decreases |s|
  {
    if k == 0 then [[]]
    else if |s| < k then []
    else
      var tail := s[1..];
      assert Ascending(s) ==> Ascending(tail);
      var inner := Combinations(tail, k - 1);
      var rest := Combinations(tail, k);
      PrefixHead(s, inner);
      TailDrawn(s, rest);
      PrefixAll(s[0], inner) + rest
  }

  /** The whole tuple is the one combination of its own length: a cart of
      one or two items is also visited by the subset pass. */
  lemma {:induction false} WholeTupleIsOnlyCombination(s: seq<nat>)
    requires |s| >= 1
    ensures Combinations(s, |s|) == [s]
  {
    var tail := s[1..];
    if |s| == 1 {
      assert Combinations(tail, 0) == [[]];
      assert Combinations(tail, 1) == [];
    } else {
      WholeTupleIsOnlyCombination(tail);
      assert Combinations(tail, |s|) == [];
    }
    assert [s[0]] + tail == s;
  }

  /** The singletons, in tuple order. */
  lemma {:induction false} SingletonCombinations(s: seq<nat>)
    ensures |Combinations(s, 1)| == |s|
    ensures forall i :: 0 <= i < |s| ==> Combinations(s, 1)[i] == [s[i]]
    decreases |s|
  {
    if |s| >= 1 {
      SingletonCombinations(s[1..]);
      assert Combinations(s[1..], 0) == [[]];
    }
  }

  /** In an ascending tuple, every item after the first is larger than it and
      so sits in the tail. */
  lemma AboveHeadInTail(s: seq<nat>, x: nat)
    requires Ascending(s) && x in s && s != [] && x != s[0]
    ensures s[0] < x && x in s[1..]
  {
    var q :| 0 <= q < |s| && s[q] == x;
    assert s[1..][q - 1] == x;
  }

  /** Every ascending length-`k` tuple of items of an ascending `s` is one of
      its combinations. */
  lemma {:induction false} CombinationsComplete(s: seq<nat>, k: nat, t: seq<nat>)
    requires Ascending(s)
    requires |t| == k && Ascending(t)
    requires forall x :: x in t ==> x in s
    ensures t in Combinations(s, k)
    decreases |s|
  {
    if k == 0 {
      assert t == [];
    } else {
      assert t[0] in t;
      var tail := s[1..];
      var rest := t[1..];
      if t[0] == s[0] {
        forall x | x in rest
          ensures x in tail
        {
          var p :| 0 <= p < |rest| && rest[p] == x;
          assert t[0] < t[p + 1];
          AboveHeadInTail(s, x);
        }
        CombinationsComplete(tail, k - 1, rest);
        var inner := Combinations(tail, k - 1);
        var i :| 0 <= i < |inner| && inner[i] == rest;
        assert |tail| >= k - 1;
        assert Combinations(s, k) == PrefixAll(s[0], inner) + Combinations(tail, k);
        assert PrefixAll(s[0], inner)[i] == [s[0]] + rest == t;
      } else {
        AboveHeadInTail(s, t[0]);
        forall x | x in t
          ensures x in tail
        {
          var p :| 0 <= p < |t| && t[p] == x;
          assert p > 0 ==> t[0] < t[p];
          AboveHeadInTail(s, x);
        }
        CombinationsComplete(tail, k, t);
        assert |tail| >= k;
        var inner := Combinations(tail, k - 1);
        assert Combinations(s, k) == PrefixAll(s[0], inner) + Combinations(tail, k);
      }
    }
  }

  /** For an ascending tuple, the combinations of size `k` are exactly its
      ascending length-`k` sub-tuples. */
  lemma CombinationsMembers(s: seq<nat>, k: nat, t: seq<nat>)
    requires Ascending(s)
    ensures t in Combinations(s, k) <==> |t| == k && Ascending(t) && forall x :: x in t ==> x in s
  {
    var r := Combinations(s, k);
    if t in r {
      var i :| 0 <= i < |r| && r[i] == t;
    } else if |t| == k && Ascending(t) && forall x :: x in t ==> x in s {
      CombinationsComplete(s, k, t);
    }
  }

  /** The combinations of an ascending tuple are listed once each. */
  lemma {:induction false} CombinationsDistinct(s: seq<nat>, k: nat)
    requires Ascending(s)
    ensures NoDup(Combinations(s, k))
    decreases |s|
  {
    if k > 0 && |s| >= k {
      var tail := s[1..];
      var inner := Combinations(tail, k - 1);
      var rest := Combinations(tail, k);
      CombinationsDistinct(tail, k - 1);
      CombinationsDistinct(tail, k);
      var r := Combinations(s, k);
      assert r == PrefixAll(s[0], inner) + rest;
      forall i, j | 0 <= i < j < |r|
        ensures r[i] != r[j]
      {
        if j < |inner| {
          assert r[i] == [s[0]] + inner[i] && r[j] == [s[0]] + inner[j];
          assert r[i][1..] == inner[i] && r[j][1..] == inner[j];
        } else if i < |inner| {
          var b := rest[j - |inner|];
          assert r[j] == b && |b| == k;
          assert b[0] in b;
          assert b[0] in tail;
          var q :| 0 <= q < |tail| && tail[q] == b[0];
          assert s[0] < s[q + 1];
          assert r[i][0] == s[0];
        } else {
          assert r[i] == rest[i - |inner|] && r[j] == rest[j - |inner|];
        }
      }
    }
  }

  /** The number of pairs of positions of an `n`-tuple. */
  function PairCount(n: nat): nat {
    if n == 0 then 0 else (n - 1) + PairCount(n - 1)
  }

  /** An `n`-tuple has `n(n-1)/2` pairs of positions. */
  lemma {:induction false} PairCountClosed(n: nat)
    ensures 2 * PairCount(n) == n * (n - 1)
  {
    if n > 0 {
      PairCountClosed(n - 1);
      assert 2 * (n - 1) + (n - 1) * (n - 2) == n * (n - 1);
    }
  }

  /** The place of the pair of positions `(i, j)` among all pairs of an
      `n`-tuple in lexicographic order: the `n - 1` pairs that start at
      position 0 come first, then the pairs of the remaining positions. */
  function PairPos(n: nat, i: nat, j: nat): (p: nat)
    requires i < j < n
    ensures p < PairCount(n)
    decreases i
  {
    if i == 0 then j - 1 else (n - 1) + PairPos(n - 1, i - 1, j - 1)
  }

  /** `PairPos` is the lexicographic order of pairs of positions. */
  lemma {:induction false} PairPosOrder(n: nat, i: nat, j: nat, i2: nat, j2: nat)
    requires i < j < n && i2 < j2 < n
    ensures PairPos(n, i, j) < PairPos(n, i2, j2) <==> i < i2 || (i == i2 && j < j2)
    decreases i
  {
    if i > 0 && i2 > 0 {
      PairPosOrder(n - 1, i - 1, j - 1, i2 - 1, j2 - 1);
    }
  }

  /** Every place in the list of pairs is the place of some pair of
      positions. */
  lemma {:induction false} PairAt(n: nat, p: nat) returns (i: nat, j: nat)
    requires p < PairCount(n)
    ensures i < j < n && PairPos(n, i, j) == p
    decreases n
  {
    assert n > 0;
    if p < n - 1 {
      i, j := 0, p + 1;
    } else {
      var i', j' := PairAt(n - 1, p - (n - 1));
      i, j := i' + 1, j' + 1;
    }
  }

  /** The pairs of positions of a tuple in lexicographic order, written
      directly: the pairs starting with the head, then those of the tail. */
  function Pairs(s: seq<nat>): (r: seq<seq<nat>>)
    decreases |s|
  {
    if |s| < 2 then []
    else seq(|s| - 1, q requires 0 <= q < |s| - 1 => [s[0], s[q + 1]]) + Pairs(s[1..])
  }

  /** `combinations(s, 2)` is `Pairs(s)`. */
  lemma {:induction false} CombinationsArePairs(s: seq<nat>)
    ensures Combinations(s, 2) == Pairs(s)
    decreases |s|
  {
    if |s| >= 2 {
      var tail := s[1..];
      CombinationsArePairs(tail);
      SingletonCombinations(tail);
      var inner := Combinations(tail, 1);
      var head := seq(|s| - 1, q requires 0 <= q < |s| - 1 => [s[0], s[q + 1]]);
      assert Combinations(s, 2) == PrefixAll(s[0], inner) + Combinations(tail, 2);
      assert PrefixAll(s[0], inner) == head by {
        forall q | 0 <= q < |head|
          ensures PrefixAll(s[0], inner)[q] == head[q]
        {
          assert inner[q] == [tail[q]];
        }
      }
      assert Pairs(s) == head + Pairs(tail);
    } else {
      assert Combinations(s, 2) == [];
    }
  }

  /** There is one pair per pair of positions. */
  lemma {:induction false} PairsLength(s: seq<nat>)
    ensures |Pairs(s)| == PairCount(|s|)
    decreases |s|
  {
    if |s| >= 2 {
      PairsLength(s[1..]);
    }
  }

  /** The pair of positions `(i, j)` is listed at its place `PairPos`. */
  lemma {:induction false} PairInPlace(s: seq<nat>, i: nat, j: nat)
    requires i < j < |s|
    ensures PairPos(|s|, i, j) < |Pairs(s)|
    ensures Pairs(s)[PairPos(|s|, i, j)] == [s[i], s[j]]
    decreases |s|
  {
    var tail := s[1..];
    var head := seq(|s| - 1, q requires 0 <= q < |s| - 1 => [s[0], s[q + 1]]);
    assert Pairs(s) == head + Pairs(tail);
    if i > 0 {
      PairInPlace(tail, i - 1, j - 1);
      assert tail[i - 1] == s[i] && tail[j - 1] == s[j];
    }
  }

  /** `combinations(s, 2)` lists the pairs `[s[i], s[j]]` with `i < j`, each at
      its lexicographic place `PairPos`; with `PairAt`, every place holds one
      of them. */
  lemma PairsInOrder(s: seq<nat>)
    ensures |Combinations(s, 2)| == PairCount(|s|)
    ensures 2 * |Combinations(s, 2)| == |s| * (|s| - 1)
    ensures forall i, j :: 0 <= i < j < |s| ==> Combinations(s, 2)[PairPos(|s|, i, j)] == [s[i], s[j]]
  {
    CombinationsArePairs(s);
    PairsLength(s);
    PairCountClosed(|s|);
    forall i, j | 0 <= i < j < |s|
      ensures Pairs(s)[PairPos(|s|, i, j)] == [s[i], s[j]]
    {
      PairInPlace(s, i, j);
    }
  }
}
