/**
 * The two library calls the network builder composes:
 * Python's `sorted` on a list of strings and `itertools.combinations(xs, 2)`.
 */
module Combinatorics {
  import opened StringOrder

  /** Non-descending in Python's string order. */
  predicate Sorted(s: seq<string>)
  {
    forall i, j :: 0 <= i < j < |s| ==> LessEq(s[i], s[j])
  }

  /** Ascending without repetitions. */
  predicate StrictlySorted(s: seq<string>)
  {
    forall i, j :: 0 <= i < j < |s| ==> Less(s[i], s[j])
  }

  /** No value occurs twice (what `Series.unique()` yields). */
  predicate Distinct<T(==)>(s: seq<T>)
  {
    forall i, j :: 0 <= i < j < |s| ==> s[i] != s[j]
  }

  lemma StrictlySortedIsDistinct(s: seq<string>)
    requires StrictlySorted(s)
    ensures Distinct(s)
  {
    forall i, j | 0 <= i < j < |s| ensures s[i] != s[j] {
      LessIrreflexive(s[i]);
    }
  }

  /** Places `x` in front of the first element it does not exceed. */
  function Insert(x: string, s: seq<string>): (r: seq<string>)
    ensures |r| == |s| + 1
    ensures multiset(r) == multiset(s) + multiset{x}
  {
    if s == [] then [x]
    else if LessEq(x, s[0]) then [x] + s
    else
      assert s == [s[0]] + s[1..];
      [s[0]] + Insert(x, s[1..])
  }

  /** What `Insert` can place after the new element's position. */
  lemma InsertElements(x: string, s: seq<string>)
    ensures forall y :: y in Insert(x, s) ==> y == x || y in s
  {
    forall y | y in Insert(x, s) ensures y == x || y in s {
      assert y in multiset(Insert(x, s));
    }
  }

  lemma {:induction false} InsertSorted(x: string, s: seq<string>)
    requires Sorted(s)
    ensures Sorted(Insert(x, s))
  {
    if s == [] {
    } else if LessEq(x, s[0]) {
      var r := Insert(x, s);
      assert r == [x] + s;
      forall j | 0 < j < |r| ensures LessEq(x, r[j]) {
        if j > 1 { LessEqTransitive(x, s[0], s[j - 1]); }
      }
    } else {
      var t := Insert(x, s[1..]);
      var r := Insert(x, s);
      assert r == [s[0]] + t;
      LessTotal(x, s[0]);
      InsertSorted(x, s[1..]);
      InsertElements(x, s[1..]);
      forall j | 0 < j < |r| ensures LessEq(s[0], r[j]) {
        assert r[j] in t;
      }
    }
  }

  /** A head below every element of an ascending tail keeps the list ascending. */
  lemma ConsStrictlySorted(h: string, t: seq<string>)
    requires StrictlySorted(t) && forall y :: y in t ==> Less(h, y)
    ensures StrictlySorted([h] + t)
  {
    var r := [h] + t;
    forall i, j | 0 <= i < j < |r| ensures Less(r[i], r[j]) {
      assert r[j] == t[j - 1];
      if i > 0 {
        assert r[i] == t[i - 1];
      }
    }
  }

  lemma {:induction false} InsertStrictlySorted(x: string, s: seq<string>)
    requires StrictlySorted(s) && x !in s
    ensures StrictlySorted(Insert(x, s))
  {
    if s == [] {
    } else if LessEq(x, s[0]) {
      assert Insert(x, s) == [x] + s;
      HeadPrecedesTail(s);
      forall y | y in s ensures Less(x, y) {
        if y != s[0] {
          assert y in s[1..];
          LessTransitive(x, s[0], y);
        }
      }
      ConsStrictlySorted(x, s);
    } else {
      var t := Insert(x, s[1..]);
      assert Insert(x, s) == [s[0]] + t;
      LessTotal(x, s[0]);
      assert StrictlySorted(s[1..]);
      assert x !in s[1..];
      InsertStrictlySorted(x, s[1..]);
      InsertElements(x, s[1..]);
      HeadPrecedesTail(s);
      ConsStrictlySorted(s[0], t);
    }
  }

  lemma DistinctTail<T>(s: seq<T>)
    requires Distinct(s) && s != []
    ensures s[0] !in s[1..] && Distinct(s[1..])
  {
    forall k | 0 <= k < |s[1..]| ensures s[1..][k] != s[0] {
      assert s[1..][k] == s[k + 1];
    }
  }

  /** `sorted(xs)`: the same strings, in ascending order. */
  function SortStrings(s: seq<string>): (r: seq<string>)
    ensures |r| == |s|
    ensures multiset(r) == multiset(s)
    ensures Sorted(r)
    ensures Distinct(s) ==> StrictlySorted(r)
  {
    if s == [] then []
    else
      var rest := SortStrings(s[1..]);
      assert s == [s[0]] + s[1..];
      assert s[0] in rest <==> s[0] in multiset(s[1..]);
      InsertSorted(s[0], rest);
      assert Distinct(s) ==> StrictlySorted(Insert(s[0], rest)) by {
        if Distinct(s) {
          DistinctTail(s);
          InsertStrictlySorted(s[0], rest);
        }
      }
      Insert(s[0], rest)
  }

  /** Every element of `t`, in order, paired with `x` in front. */
  function PairsWith<T>(x: T, t: seq<T>): (r: seq<(T, T)>)
    ensures |r| == |t|
    ensures forall k :: 0 <= k < |t| ==> r[k] == (x, t[k])
  {
    if t == [] then [] else [(x, t[0])] + PairsWith(x, t[1..])
  }

  /** `itertools.combinations(s, 2)`: the pairs `(s[i], s[j])` with `i < j`,
      in lexicographic order of their positions. */
  function Combinations2<T>(s: seq<T>): (r: seq<(T, T)>)
  {
    if s == [] then [] else PairsWith(s[0], s[1..]) + Combinations2(s[1..])
  }

  /** A pair is produced exactly when it is two elements of `s` taken in order. */
  lemma {:induction false} CombinationsMembers<T>(s: seq<T>, p: (T, T))
    ensures p in Combinations2(s) <==> exists i, j :: 0 <= i < j < |s| && p == (s[i], s[j])
  {
    if s != [] {
      var t := s[1..];
      CombinationsMembers(t, p);
      if p in Combinations2(s) {
        if p in PairsWith(s[0], t) {
          var k :| 0 <= k < |t| && PairsWith(s[0], t)[k] == p;
          assert p == (s[0], s[k + 1]);
        } else {
          var i, j :| 0 <= i < j < |t| && p == (t[i], t[j]);
          assert p == (s[i + 1], s[j + 1]);
        }
      }
      if exists i, j :: 0 <= i < j < |s| && p == (s[i], s[j]) {
        var i, j :| 0 <= i < j < |s| && p == (s[i], s[j]);
        if i == 0 {
          assert PairsWith(s[0], t)[j - 1] == p;
        } else {
          assert p == (t[i - 1], t[j - 1]);
        }
      }
    }
  }

  /** `k` elements yield `k * (k - 1) / 2` pairs. */
  lemma {:induction false} CombinationsLength<T>(s: seq<T>)
    ensures 2 * |Combinations2(s)| == |s| * (|s| - 1)
  {
    if s != [] {
      var n := |s|;
      CombinationsLength(s[1..]);
      assert 2 * |Combinations2(s)| == 2 * (n - 1) + (n - 1) * (n - 2);
      assert 2 * (n - 1) + (n - 1) * (n - 2) == (n - 1) * n;
    }
  }

  lemma {:induction false} PairsWithCount<T>(x: T, t: seq<T>, p: (T, T))
    requires Distinct(t)
    ensures multiset(PairsWith(x, t))[p] == if p.0 == x && p.1 in t then 1 else 0
  {
    if t != [] {
      assert t == [t[0]] + t[1..];
      DistinctTail(t);
      PairsWithCount(x, t[1..], p);
      assert PairsWith(x, t) == [(x, t[0])] + PairsWith(x, t[1..]);
    }
  }

  /** In an ascending list the first element precedes all the others. */
  lemma HeadPrecedesTail(s: seq<string>)
    requires StrictlySorted(s) && s != []
    ensures forall y :: y in s[1..] ==> Less(s[0], y)
  {
    forall y | y in s[1..] ensures Less(s[0], y) {
      var k :| 0 <= k < |s[1..]| && s[1..][k] == y;
      assert s[k + 1] == y;
    }
  }

  /** Over an ascending list of distinct strings every pair `a < b` of its
      elements is produced exactly once, and no other pair is. */
  lemma {:induction false} CombinationsCount(s: seq<string>, a: string, b: string)
    requires StrictlySorted(s)
    ensures multiset(Combinations2(s))[(a, b)] == if a in s && b in s && Less(a, b) then 1 else 0
  {
    if s != [] {
      var x, t := s[0], s[1..];
      assert s == [x] + t;
      assert StrictlySorted(t);
      StrictlySortedIsDistinct(t);
      PairsWithCount(x, t, (a, b));
      CombinationsCount(t, a, b);
      HeadPrecedesTail(s);
      LessIrreflexive(x);
      if a != x && b == x && a in t {
        LessAsymmetric(x, a);
      }
    }
  }
}
