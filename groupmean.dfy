/** pandas' `groupby(keys)[pollutants].mean()`: one row per distinct key, each pollutant averaged over
    the group's non-missing readings. The key may be any equality type; the dashboard groups by
    (month, station) and by (station, season). */
module GroupMean {
  import opened Wrappers
  import opened Table
  import opened Unique

  /** One output row of the group-by: the group's key and the per-pollutant means. */
  datatype AggRow<K> = AggRow(key: K, means: Readings)

  /** The key column of keyed readings. */
  function KeysOf<K>(rows: seq<(K, Readings)>): (ks: seq<K>)
    ensures |ks| == |rows| && forall i :: 0 <= i < |rows| ==> ks[i] == rows[i].0
  {
    seq(|rows|, i requires 0 <= i < |rows| => rows[i].0)
  }

  /** The readings of the rows whose key is `k`, in row order. */
  function GroupOf<K(==)>(rows: seq<(K, Readings)>, k: K): (g: seq<Readings>)
    ensures |g| <= |rows|
  {
    if rows == [] then []
    else if rows[0].0 == k then [rows[0].1] + GroupOf(rows[1..], k)
    else GroupOf(rows[1..], k)
  }

  /** A reading belongs to the group of `k` exactly when some row pairs it with `k`; so a key that occurs
      has a non-empty group. */
  lemma {:induction false} GroupOfMembers<K>(rows: seq<(K, Readings)>, k: K, r: Readings)
    ensures r in GroupOf(rows, k) <==> (k, r) in rows
  {
    if rows != [] {
      GroupOfMembers(rows[1..], k, r);
      assert rows == [rows[0]] + rows[1..];
    }
  }

  /** One pollutant's column of a group: position by position, each row's reading of `p`. */
  function Column(g: seq<Readings>, p: Pollutant): (c: seq<Option<real>>)
    ensures |c| == |g| && forall i :: 0 <= i < |g| ==> c[i] == g[i].Get(p)
  {
    seq(|g|, i requires 0 <= i < |g| => g[i].Get(p))
  }

  /** When `xs` is divided into parts, its group is the groups of the parts in order: each row of the
      key contributes its reading once, at its own position. */
  lemma {:induction false} GroupOfConcat<K>(a: seq<(K, Readings)>, b: seq<(K, Readings)>, k: K)
    ensures GroupOf(a + b, k) == GroupOf(a, k) + GroupOf(b, k)
  {
    if a == [] {
      assert a + b == b;
    } else {
      assert (a + b)[1..] == a[1..] + b;
      GroupOfConcat(a[1..], b, k);
    }
  }

  /** A reading occurs in the group of `k` exactly as many times as rows pair it with `k`;
      duplicate rows are not collapsed. */
  lemma {:induction false} GroupOfMultiplicity<K>(rows: seq<(K, Readings)>, k: K, r: Readings)
    ensures multiset(GroupOf(rows, k))[r] == multiset(rows)[(k, r)]
  {
    if rows != [] {
      GroupOfMultiplicity(rows[1..], k, r);
      assert rows == [rows[0]] + rows[1..];
    }
  }

  /** The non-missing values of a column, in order. */
  function Present(xs: seq<Option<real>>): (v: seq<real>)
    ensures |v| <= |xs|
  {
    if xs == [] then []
    else match xs[0]
      case Some(x) => [x] + Present(xs[1..])
      case None => Present(xs[1..])
  }

  function Sum(v: seq<real>): real {
    if v == [] then 0.0 else v[0] + Sum(v[1..])
  }

  /** pandas' `mean()` on one column: the average of the non-missing values, and missing (not zero)
      exactly when every reading is missing. */
  function Mean(xs: seq<Option<real>>): (m: Option<real>)
    ensures m.None? <==> forall i :: 0 <= i < |xs| ==> xs[i].None?
  {
    var v := Present(xs);
    PresentEmptyIffAllMissing(xs);
    if |v| == 0 then None else Some(Sum(v) / (|v| as real))
  }

  /** The per-pollutant means of one group. */
  function MeansOf(g: seq<Readings>): (m: Readings)
    ensures forall p :: m.Get(p) == Mean(Column(g, p))
  {
    Readings(Mean(Column(g, PM25)), Mean(Column(g, PM10)), Mean(Column(g, SO2)),
             Mean(Column(g, NO2)), Mean(Column(g, CO)), Mean(Column(g, O3)))
  }

  /** The group-by-mean: one row per distinct key, keys in the order they first occur. */
  function Aggregate<K(==)>(rows: seq<(K, Readings)>): (out: seq<AggRow<K>>)
    ensures forall i, j :: 0 <= i < j < |out| ==> out[i].key != out[j].key
    ensures forall i :: 0 <= i < |out| ==> out[i].key in KeysOf(rows)
    ensures forall j :: 0 <= j < |rows| ==> rows[j].0 in AggKeys(out)
  {
    var ks := Distinct(KeysOf(rows));
    var out := seq(|ks|, i requires 0 <= i < |ks| => AggRow(ks[i], MeansOf(GroupOf(rows, ks[i]))));
    assert AggKeys(out) == ks;
    out
  }

  /** The keys of aggregated rows, in row order. */
  function AggKeys<K>(out: seq<AggRow<K>>): (ks: seq<K>)
    ensures |ks| == |out| && forall i :: 0 <= i < |out| ==> ks[i] == out[i].key
  {
    seq(|out|, i requires 0 <= i < |out| => out[i].key)
  }

  // ---------------------------------------------------------------------------------------------
  // The mean

  lemma {:induction false} PresentConcat(a: seq<Option<real>>, b: seq<Option<real>>)
    ensures Present(a + b) == Present(a) + Present(b)
  {
    if a == [] {
      assert a + b == b;
    } else {
      assert (a + b)[1..] == a[1..] + b;
      PresentConcat(a[1..], b);
    }
  }

  lemma {:induction false} SumConcat(a: seq<real>, b: seq<real>)
    ensures Sum(a + b) == Sum(a) + Sum(b)
  {
    if a == [] {
      assert a + b == b;
    } else {
      assert (a + b)[1..] == a[1..] + b;
      SumConcat(a[1..], b);
    }
  }

  /** There is no non-missing value exactly when every reading is missing. */
  lemma {:induction false} PresentEmptyIffAllMissing(xs: seq<Option<real>>)
    ensures |Present(xs)| == 0 <==> forall i :: 0 <= i < |xs| ==> xs[i].None?
  {
    if xs != [] {
      PresentEmptyIffAllMissing(xs[1..]);
      assert forall i :: 1 <= i < |xs| ==> xs[i] == xs[1..][i - 1];
    }
  }

  /** A missing reading, wherever it stands, changes neither the sum nor the count the mean uses. */
  lemma MeanSkipsMissing(a: seq<Option<real>>, b: seq<Option<real>>)
    ensures Mean(a + [None] + b) == Mean(a + b)
  {
    PresentConcat(a + [None], b);
    PresentConcat(a, [None]);
    PresentConcat(a, b);
    var none: seq<Option<real>> := [None];
    assert none[1..] == [];
    assert Present(none) == [];
    assert Present(a + [None] + b) == Present(a + b);
  }

  /** A present reading adds its value to the sum and one to the count. */
  lemma MeanAddsReading(a: seq<Option<real>>, x: real)
    ensures Mean(a + [Some(x)]) == Some((Sum(Present(a)) + x) / ((|Present(a)| + 1) as real))
  {
    var v, w := Present(a), Present(a + [Some(x)]);
    var one: seq<Option<real>> := [Some(x)];
    assert one[1..] == [];
    assert Present(one) == [x];
    PresentConcat(a, one);
    assert w == v + [x];
    SumConcat(v, [x]);
    assert Sum([x]) == x;
    assert Sum(w) == Sum(v) + x && |w| == |v| + 1;
    assert Mean(a + [Some(x)]) == Some(Sum(w) / (|w| as real));
  }

  lemma {:induction false} SumBounds(v: seq<real>, lo: real, hi: real)
    requires forall i :: 0 <= i < |v| ==> lo <= v[i] <= hi
    ensures (|v| as real) * lo <= Sum(v) <= (|v| as real) * hi
  {
    if v != [] {
      SumBounds(v[1..], lo, hi);
    }
  }

  lemma {:induction false} PresentValues(xs: seq<Option<real>>, lo: real, hi: real)
    requires forall i :: 0 <= i < |xs| && xs[i].Some? ==> lo <= xs[i].value <= hi
    ensures forall i :: 0 <= i < |Present(xs)| ==> lo <= Present(xs)[i] <= hi
  {
    if xs != [] {
      assert forall i :: 1 <= i < |xs| ==> xs[i] == xs[1..][i - 1];
      PresentValues(xs[1..], lo, hi);
    }
  }

  /** A mean lies between the smallest and the largest non-missing reading. */
  lemma MeanWithinReadings(xs: seq<Option<real>>, lo: real, hi: real)
    requires forall i :: 0 <= i < |xs| && xs[i].Some? ==> lo <= xs[i].value <= hi
    requires Mean(xs).Some?
    ensures lo <= Mean(xs).value <= hi
  {
    var v := Present(xs);
    PresentValues(xs, lo, hi);
    SumBounds(v, lo, hi);
    var n := |v| as real;
    assert Mean(xs).value == Sum(v) / n;
    QuotientBounds(Sum(v), n, lo, hi);
  }

  lemma QuotientBounds(s: real, n: real, lo: real, hi: real)
    requires n > 0.0 && n * lo <= s <= n * hi
    ensures lo <= s / n <= hi
  {
    var q := s / n;
    assert q * n == s;
  }

  /** Readings of 10 and 20 average to 15. */
  lemma MeanOfTenAndTwenty()
    ensures Mean([Some(10.0), Some(20.0)]) == Some(15.0)
  {
    assert Present([Some(10.0), Some(20.0)]) == [10.0, 20.0];
    assert Sum([10.0, 20.0]) == 30.0;
  }

  // ---------------------------------------------------------------------------------------------
  // The group-by

  /** A row added to a group extends each pollutant's non-missing values exactly by that row's reading
      when it is present: a row missing one pollutant still counts for the others. */
  lemma RowContributes(g: seq<Readings>, r: Readings, p: Pollutant)
    ensures Present(Column(g + [r], p)) ==
            Present(Column(g, p)) + (if r.Get(p).Some? then [r.Get(p).value] else [])
  {
    assert Column(g + [r], p) == Column(g, p) + [r.Get(p)];
    PresentConcat(Column(g, p), [r.Get(p)]);
  }

  /** The output holds one row per distinct key of the input, in first-appearance order: no key twice,
      no key the input lacks, and every key the input has. */
  lemma AggregateKeys<K>(rows: seq<(K, Readings)>)
    ensures AggKeys(Aggregate(rows)) == Distinct(KeysOf(rows))
    ensures NoDup(AggKeys(Aggregate(rows)))
    ensures forall k :: k in AggKeys(Aggregate(rows)) <==> exists j :: 0 <= j < |rows| && rows[j].0 == k
  {
    var ks := KeysOf(rows);
    var out := Aggregate(rows);
    assert AggKeys(out) == Distinct(ks);
    forall k | k in AggKeys(out)
      ensures exists j :: 0 <= j < |rows| && rows[j].0 == k
    {
      var j :| 0 <= j < |ks| && ks[j] == k;
    }
    forall k | exists j :: 0 <= j < |rows| && rows[j].0 == k
      ensures k in AggKeys(out)
    {
      var j :| 0 <= j < |rows| && rows[j].0 == k;
      assert ks[j] == k;
    }
  }

  /** Each output row's pollutant value is the mean of the non-missing readings of the non-empty group
      of input rows that share its key, each such row counted as often as it occurs. */
  lemma AggregateMeans<K>(rows: seq<(K, Readings)>, p: Pollutant)
    ensures forall i :: 0 <= i < |Aggregate(rows)| ==>
              var k := Aggregate(rows)[i].key;
              && |GroupOf(rows, k)| > 0
              && Aggregate(rows)[i].means.Get(p) == Mean(Column(GroupOf(rows, k), p))
              && forall r :: multiset(GroupOf(rows, k))[r] == multiset(rows)[(k, r)]
  {
    var out := Aggregate(rows);
    var ks := KeysOf(rows);
    forall i | 0 <= i < |out|
      ensures |GroupOf(rows, out[i].key)| > 0
      ensures forall r :: multiset(GroupOf(rows, out[i].key))[r] == multiset(rows)[(out[i].key, r)]
    {
      var k := out[i].key;
      forall r ensures multiset(GroupOf(rows, k))[r] == multiset(rows)[(k, r)] {
        GroupOfMultiplicity(rows, k, r);
      }
      assert k in ks;
      var j :| 0 <= j < |ks| && ks[j] == k;
      assert rows[j] == (k, rows[j].1);
      GroupOfMembers(rows, k, rows[j].1);
    }
  }
}
