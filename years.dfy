/** The year selector: the list of years offered, its default entry, and the filter on the chosen year. */
module Years {
  import opened Wrappers
  import opened Table
  import opened Unique

  /** The year column of the rows, in row order. */
  function YearsOf(rows: seq<Row>): (ys: seq<int>)
    ensures |ys| == |rows| && forall i :: 0 <= i < |rows| ==> ys[i] == rows[i].year
  {
    seq(|rows|, i requires 0 <= i < |rows| => rows[i].year)
  }

  /** The years offered by the selector: the distinct years of the time-sorted rows, in first-appearance order. */
  function YearList(rows: seq<Row>): (ys: seq<int>)
    ensures NoDup(ys)
    ensures forall j :: 0 <= j < |rows| ==> rows[j].year in ys
    ensures forall i :: 0 <= i < |ys| ==> exists j :: 0 <= j < |rows| && rows[j].year == ys[i]
  {
    Distinct(YearsOf(rows))
  }

  /** Every year in the data is offered exactly once, nothing else is offered, and years come in
      the order they first appear. */
  lemma YearListSpec(rows: seq<Row>)
    ensures NoDup(YearList(rows))
    ensures forall y :: y in YearList(rows) <==> exists i :: 0 <= i < |rows| && rows[i].year == y
    ensures forall i, j :: 0 <= i < j < |YearList(rows)| ==>
              FirstIndex(YearsOf(rows), YearList(rows)[i]) < FirstIndex(YearsOf(rows), YearList(rows)[j])
  {
    var ys := YearsOf(rows);
    DistinctFirstAppearance(ys);
    forall y | y in YearList(rows)
      ensures exists i :: 0 <= i < |rows| && rows[i].year == y
    {
      var i :| 0 <= i < |ys| && ys[i] == y;
    }
  }

  /** The selector's initial choice: the first entry, or nothing (the source fails) when no year is offered. */
  function DefaultYear(years: seq<int>): (d: Option<int>)
    ensures d.None? <==> years == []
    ensures d.Some? ==> d.value in years
  {
    if |years| == 0 then None else Some(years[0])
  }

  /** The default is the year of the first row of the sorted data, and so the earliest year offered. */
  lemma DefaultYearIsEarliest(rows: seq<Row>)
    requires SortedByTime(rows)
    ensures DefaultYear(YearList(rows)) == if rows == [] then None else Some(rows[0].year)
    ensures forall i, j :: 0 <= i < j < |YearList(rows)| ==> YearList(rows)[i] < YearList(rows)[j]
  {
    var ys := YearsOf(rows);
    if rows != [] {
      DistinctHead(ys);
    }
    forall i, j | 0 <= i <= j < |ys| ensures ys[i] <= ys[j] {
      assert TimeLeq(rows[i], rows[j]);
    }
    DistinctOfSortedIsAscending(ys);
  }

  /** The rows of the chosen year, in their original order. */
  function FilterYear(rows: seq<Row>, year: int): (r: seq<Row>)
    ensures |r| <= |rows|
    ensures forall i :: 0 <= i < |r| ==> r[i].year == year && r[i] in rows
  {
    if rows == [] then []
    else if rows[0].year == year then [rows[0]] + FilterYear(rows[1..], year)
    else FilterYear(rows[1..], year)
  }

  /** A row survives the filter exactly when it is in the data and has the chosen year; survivors keep
      their multiplicity. */
  lemma {:induction false} FilterYearKeepsExactly(rows: seq<Row>, year: int, row: Row)
    ensures row in FilterYear(rows, year) <==> row in rows && row.year == year
    ensures multiset(FilterYear(rows, year))[row] == if row.year == year then multiset(rows)[row] else 0
  {
    if rows != [] {
      FilterYearKeepsExactly(rows[1..], year, row);
      assert rows == [rows[0]] + rows[1..];
    }
  }

  /** Filtering commutes with concatenation, so the surviving rows keep their relative order. */
  lemma {:induction false} FilterYearConcat(a: seq<Row>, b: seq<Row>, year: int)
    ensures FilterYear(a + b, year) == FilterYear(a, year) + FilterYear(b, year)
  {
    if a != [] {
      assert (a + b)[1..] == a[1..] + b;
      FilterYearConcat(a[1..], b, year);
    } else {
      assert a + b == b;
    }
  }

  /** A row of the chosen year is kept exactly where it stands relative to the others: the filter of
      a prefix is a prefix of the filter. */
  lemma FilterYearPrefix(rows: seq<Row>, n: nat, year: int)
    requires n <= |rows|
    ensures FilterYear(rows[..n], year) <= FilterYear(rows, year)
  {
    FilterYearConcat(rows[..n], rows[n..], year);
    assert rows == rows[..n] + rows[n..];
  }

  /** After filtering on an offered year, that year is the only one left. */
  lemma FilterYearLeavesOneYear(rows: seq<Row>, year: int)
    requires year in YearList(rows)
    ensures YearList(FilterYear(rows, year)) == [year]
  {
    var ys := YearsOf(rows);
    var i := FirstIndex(ys, year);
    FilterYearKeepsExactly(rows, year, rows[i]);
    var f := FilterYear(rows, year);
    var fs := YearsOf(f);
    assert rows[i] in f;
    assert year in fs;
    DistinctOfConstant(fs, year);
  }
}
