/** pandas' `unique()`: the distinct values of a column, in order of first appearance. */
module Unique {

  /** No value occurs twice. */
  predicate NoDup<T(==)>(s: seq<T>) {
    forall i, j :: 0 <= i < j < |s| ==> s[i] != s[j]
  }

  /** The position of the first occurrence of `x` in `s`. */
  function FirstIndex<T(==)>(s: seq<T>, x: T): (i: nat)
    requires x in s
    ensures i < |s| && s[i] == x
    ensures forall k :: 0 <= k < i ==> s[k] != x
  {
    if s[0] == x then 0 else 1 + FirstIndex(s[1..], x)
  }

  /** The distinct values of `s`, scanning left to right and keeping each value the first time it is seen. */
  function Distinct<T(==)>(s: seq<T>): (r: seq<T>)
    ensures NoDup(r)
    ensures forall i :: 0 <= i < |r| ==> r[i] in s
    ensures forall i :: 0 <= i < |s| ==> s[i] in r
    ensures |r| <= |s|
    decreases |s|
  {
    if |s| == 0 then []
    else
      var init := s[..|s| - 1];
      var d := Distinct(init);
      assert s == init + [s[|s| - 1]];
      if s[|s| - 1] in d then d else d + [s[|s| - 1]]
  }

  /** Extending a sequence does not move the first occurrence of a value it already held. */
  lemma FirstIndexOfPrefix<T>(p: seq<T>, s: seq<T>, x: T)
    requires p <= s && x in p
    ensures FirstIndex(s, x) == FirstIndex(p, x)
  {
  }

  /** Values appear in `Distinct(s)` in the order of their first occurrence in `s`. */
  lemma {:induction false} DistinctFirstAppearance<T>(s: seq<T>)
    ensures forall i, j :: 0 <= i < j < |Distinct(s)| ==>
              FirstIndex(s, Distinct(s)[i]) < FirstIndex(s, Distinct(s)[j])
  {
    if |s| > 0 {
      var init := s[..|s| - 1];
      var last := s[|s| - 1];
      var d := Distinct(init);
      DistinctFirstAppearance(init);
      assert s == init + [last];
      forall x | x in init
        ensures FirstIndex(s, x) == FirstIndex(init, x) < |init|
      {
        FirstIndexOfPrefix(init, s, x);
      }
      if last !in d {
        assert last !in init;
        assert FirstIndex(s, last) == |init|;
        var r := Distinct(s);
        assert r == d + [last];
        forall i, j | 0 <= i < j < |r|
          ensures FirstIndex(s, r[i]) < FirstIndex(s, r[j])
        {
          assert r[i] == d[i] && r[i] in init;
          if j < |d| {
            assert r[j] == d[j] && r[j] in init;
          }
        }
      }
    }
  }

  /** The first value of `Distinct(s)` is the first value of `s`. */
  lemma DistinctHead<T>(s: seq<T>)
    requires |s| > 0
    ensures |Distinct(s)| > 0 && Distinct(s)[0] == s[0]
  {
    var d := Distinct(s);
    assert s[0] in d;
    var k :| 0 <= k < |d| && d[k] == s[0];
    assert FirstIndex(s, s[0]) == 0;
    DistinctFirstAppearance(s);
  }

  /** On a non-decreasing sequence the first-appearance list is strictly increasing. */
  lemma DistinctOfSortedIsAscending(s: seq<int>)
    requires forall i, j :: 0 <= i <= j < |s| ==> s[i] <= s[j]
    ensures forall i, j :: 0 <= i < j < |Distinct(s)| ==> Distinct(s)[i] < Distinct(s)[j]
  {
    var d := Distinct(s);
    DistinctFirstAppearance(s);
    forall i, j | 0 <= i < j < |d|
      ensures d[i] < d[j]
    {
      var a, b := FirstIndex(s, d[i]), FirstIndex(s, d[j]);
      assert a < b;
      assert d[i] != d[j];
    }
  }

  /** Taking distinct values twice changes nothing. */
  lemma {:induction false} DistinctIdempotent<T>(s: seq<T>)
    ensures Distinct(Distinct(s)) == Distinct(s)
  {
    DistinctOfNoDup(Distinct(s));
  }

  /** A duplicate-free sequence is its own list of distinct values. */
  lemma {:induction false} DistinctOfNoDup<T>(s: seq<T>)
    requires NoDup(s)
    ensures Distinct(s) == s
  {
    if |s| > 0 {
      var init := s[..|s| - 1];
      assert NoDup(init);
      DistinctOfNoDup(init);
      assert s[|s| - 1] !in init;
      assert s == init + [s[|s| - 1]];
    }
  }

  /** A non-empty sequence holding one value throughout has just that value as its distinct values. */
  lemma {:induction false} DistinctOfConstant<T>(s: seq<T>, x: T)
    requires x in s
    requires forall k :: 0 <= k < |s| ==> s[k] == x
    ensures Distinct(s) == [x]
  {
    var init := s[..|s| - 1];
    if init != [] {
      assert init[0] == x;
      DistinctOfConstant(init, x);
    }
  }
}
