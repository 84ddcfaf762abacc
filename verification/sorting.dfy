/** Ordering helpers shared by the table, the edge list and the component list:
    a stable sort on integer-pair keys (the model of `sort_values` and of
    Python's `sorted`) and the ascending enumeration of a finite set of integers. */
module Sorting {

  /** Lexicographic order on sort keys: first component, then second. */
  predicate KeyLe(a: (int, int), b: (int, int)) {
    a.0 < b.0 || (a.0 == b.0 && a.1 <= b.1)
  }

  ghost predicate SortedBy<T>(s: seq<T>, key: T -> (int, int)) {
    forall i, j :: 0 <= i < j < |s| ==> KeyLe(key(s[i]), key(s[j]))
  }

  ghost predicate StrictlyIncreasing(s: seq<int>) {
    forall i, j :: 0 <= i < j < |s| ==> s[i] < s[j]
  }

  /** Every element of `s` has a key no smaller than `k`. */
  ghost predicate AllAbove<T>(k: (int, int), s: seq<T>, key: T -> (int, int)) {
    forall y :: y in multiset(s) ==> KeyLe(k, key(y))
  }

  lemma SortedHeadBelowTail<T>(s: seq<T>, key: T -> (int, int))
    requires |s| > 0 && SortedBy(s, key)
    ensures AllAbove(key(s[0]), s[1..], key)
  {
    forall y | y in multiset(s[1..])
      ensures KeyLe(key(s[0]), key(y))
    {
      assert y in s[1..];
      var k :| 0 <= k < |s[1..]| && s[1..][k] == y;
      assert s[k + 1] == y;
    }
  }

  lemma AllAboveSorted<T>(x: T, s: seq<T>, key: T -> (int, int))
    requires SortedBy(s, key) && AllAbove(key(x), s, key)
    ensures SortedBy([x] + s, key)
  {
    var r := [x] + s;
    forall i, j | 0 <= i < j < |r|
      ensures KeyLe(key(r[i]), key(r[j]))
    {
      if i == 0 {
        assert r[j] == s[j - 1];
        assert s[j - 1] in multiset(s);
      } else {
        assert r[i] == s[i - 1] && r[j] == s[j - 1];
      }
    }
  }

  /** Inserts `x` after every element whose key is not greater than its own,
      so that equal keys keep their arrival order. */
  function Insert<T>(x: T, s: seq<T>, key: T -> (int, int)): (r: seq<T>)
    requires SortedBy(s, key)
    ensures SortedBy(r, key)
    ensures multiset(r) == multiset(s) + multiset{x}
  {
    if |s| == 0 || !KeyLe(key(s[0]), key(x)) then
      assert AllAbove(key(x), s, key) by {
        if |s| > 0 {
          SortedHeadBelowTail(s, key);
          assert s == [s[0]] + s[1..];
        }
      }
      AllAboveSorted(x, s, key);
      [x] + s
    else
      var rest := Insert(x, s[1..], key);
      assert s == [s[0]] + s[1..];
      SortedHeadBelowTail(s, key);
      AllAboveSorted(s[0], rest, key);
      [s[0]] + rest
  }

  /** A stable insertion sort: the result is ordered by `key` and is a
      permutation of the input. */
  function SortBy<T>(s: seq<T>, key: T -> (int, int)): (r: seq<T>)
    ensures SortedBy(r, key)
    ensures multiset(r) == multiset(s)
    ensures |r| == |s|
  {
    if |s| == 0 then []
    else
      var init := s[..|s| - 1];
      assert s == init + [s[|s| - 1]];
      var r := Insert(s[|s| - 1], SortBy(init, key), key);
      assert |r| == |multiset(r)|;
      r
  }

  lemma MinExists(s: set<int>)
    requires s != {}
    ensures exists m :: m in s && forall x :: x in s ==> m <= x
    decreases |s|
  {
    var y := PickAny(s);
    if s != {y} {
      MinExists(s - {y});
      var m :| m in s - {y} && forall x :: x in s - {y} ==> m <= x;
      var least := if y < m then y else m;
      forall x | x in s
        ensures least <= x
      {
        if x != y {
          assert x in s - {y};
        }
      }
    } else {
      assert forall x :: x in s ==> y <= x;
    }
  }

  /** Some element of a non-empty set. */
  ghost function PickAny<X>(s: set<X>): (x: X)
    requires s != {}
    ensures x in s
  {
    var x :| x in s; x
  }

  /** The least element of a non-empty finite set. */
  function SetMin(s: set<int>): (m: int)
    requires s != {}
    ensures m in s && forall x :: x in s ==> m <= x
  {
    MinExists(s);
    var m :| m in s && forall x :: x in s ==> m <= x;
    m
  }

  /** The elements of `s` in ascending order. */
  function SetToSeq(s: set<int>): (r: seq<int>)
    ensures StrictlyIncreasing(r)
    ensures forall x :: x in r <==> x in s
    ensures |r| == |s|
    decreases |s|
  {
    if s == {} then []
    else
      var m := SetMin(s);
      var rest := SetToSeq(s - {m});
      assert forall k :: 0 <= k < |rest| ==> m < rest[k] by {
        forall k | 0 <= k < |rest| ensures m < rest[k] {
          assert rest[k] in s - {m};
        }
      }
      [m] + rest
  }

  /** Strict lexicographic order on sort keys. */
  predicate KeyLt(a: (int, int), b: (int, int)) {
    a.0 < b.0 || (a.0 == b.0 && a.1 < b.1)
  }

  ghost predicate DistinctKeys<T>(s: seq<T>, key: T -> (int, int)) {
    forall i, j :: 0 <= i < j < |s| ==> key(s[i]) != key(s[j])
  }

  /** A value found at two positions occurs at least twice. */
  lemma RepeatedCount<T>(s: seq<T>, i: int, j: int)
    requires 0 <= i < j < |s| && s[i] == s[j]
    ensures multiset(s)[s[i]] >= 2
  {
    assert s == s[..j] + [s[j]] + s[j + 1..];
    assert s[..j][i] == s[i];
    assert s[i] in multiset(s[..j]);
  }

  /** A value that occurs at least twice is found at two positions. */
  lemma {:induction false} TwoPositions<T>(s: seq<T>, x: T)
    requires multiset(s)[x] >= 2
    ensures exists i, j :: 0 <= i < j < |s| && s[i] == x && s[j] == x
  {
    assert s == [s[0]] + s[1..];
    if s[0] == x {
      assert x in multiset(s[1..]);
      var k :| 0 <= k < |s[1..]| && s[1..][k] == x;
      assert s[k + 1] == x;
    } else {
      TwoPositions(s[1..], x);
      var i, j :| 0 <= i < j < |s[1..]| && s[1..][i] == x && s[1..][j] == x;
      assert s[i + 1] == x && s[j + 1] == x;
    }
  }

  /** Rearranging a sequence keeps its keys pairwise distinct. */
  lemma PermutationDistinctKeys<T>(s: seq<T>, r: seq<T>, key: T -> (int, int))
    requires multiset(r) == multiset(s) && DistinctKeys(s, key)
    ensures DistinctKeys(r, key)
  {
    forall i, j | 0 <= i < j < |r|
      ensures key(r[i]) != key(r[j])
    {
      if r[i] == r[j] {
        RepeatedCount(r, i, j);
        TwoPositions(s, r[i]);
        assert false;
      } else {
        assert r[i] in multiset(s) && r[j] in multiset(s);
        var p :| 0 <= p < |s| && s[p] == r[i];
        var q :| 0 <= q < |s| && s[q] == r[j];
        assert p != q;
        assert key(s[p]) != key(s[q]) by {
          if p > q {
            assert key(s[q]) != key(s[p]);
          }
        }
      }
    }
  }

  /** A sorted sequence whose keys are pairwise distinct is strictly sorted. */
  lemma SortedDistinctStrict<T>(r: seq<T>, key: T -> (int, int))
    requires SortedBy(r, key) && DistinctKeys(r, key)
    ensures forall i, j :: 0 <= i < j < |r| ==> KeyLt(key(r[i]), key(r[j]))
  {
  }

  /** Two sequences with distinct keys and no key in common concatenate to one
      with distinct keys. */
  lemma DistinctKeysConcat<T>(s: seq<T>, t: seq<T>, key: T -> (int, int))
    requires DistinctKeys(s, key) && DistinctKeys(t, key)
    requires forall x, y :: x in s && y in t ==> key(x) != key(y)
    ensures DistinctKeys(s + t, key)
  {
    var r := s + t;
    forall i, j | 0 <= i < j < |r|
      ensures key(r[i]) != key(r[j])
    {
      if j < |s| {
        assert r[i] == s[i] && r[j] == s[j];
      } else if i >= |s| {
        assert r[i] == t[i - |s|] && r[j] == t[j - |s|];
      } else {
        assert r[i] == s[i] && r[j] == t[j - |s|];
        assert r[i] in s && r[j] in t;
      }
    }
  }

  /** A sequence without repetitions has as many distinct elements as positions. */
  lemma {:induction false} DistinctCard<T>(s: seq<T>)
    requires forall i, j :: 0 <= i < j < |s| ==> s[i] != s[j]
    ensures |set x | x in s| == |s|
  {
    if |s| > 0 {
      DistinctCard(s[1..]);
      var tail := set x | x in s[1..];
      assert (set x | x in s) == {s[0]} + tail;
      assert forall k :: 0 <= k < |s[1..]| ==> s[1..][k] == s[k + 1];
      assert s[0] !in s[1..];
    }
  }

  /** Permutations have the same members. */
  lemma SameMembers<T>(s: seq<T>, r: seq<T>)
    requires multiset(s) == multiset(r)
    ensures forall x :: x in s <==> x in r
  {
    forall x
      ensures x in s <==> x in r
    {
      assert x in s <==> x in multiset(s);
      assert x in r <==> x in multiset(r);
    }
  }
}
