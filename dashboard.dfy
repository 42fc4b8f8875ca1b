/** The dashboard's data path: the monthly means per station, the season-binned copy of the year's rows,
    the seasonal means per station, and the run that ties them to the selected year. */
module Dashboard {
  import opened Wrappers
  import opened Table
  import opened Unique
  import opened Seasons
  import opened Years
  import opened GroupMean

  // ---------------------------------------------------------------------------------------------
  // create_annual_pollutant_df

  /** The rows keyed by (month, station), the group-by key of the monthly means. */
  function MonthlyKeyed(rows: seq<Row>): (kr: seq<((int, string), Readings)>)
    ensures |kr| == |rows|
    ensures forall i :: 0 <= i < |rows| ==> kr[i] == ((rows[i].month, rows[i].station), rows[i].readings)
  {
    seq(|rows|, i requires 0 <= i < |rows| => ((rows[i].month, rows[i].station), rows[i].readings))
  }

  /** The monthly pollutant table: one row per (month, station), each pollutant averaged over that
      group's non-missing readings. */
  function MonthlyMeans(rows: seq<Row>): (out: seq<AggRow<(int, string)>>)
    ensures NoDup(AggKeys(out))
    ensures forall j :: 0 <= j < |rows| ==> (rows[j].month, rows[j].station) in AggKeys(out)
    ensures forall i :: 0 <= i < |out| ==>
              exists j :: 0 <= j < |rows| && (rows[j].month, rows[j].station) == out[i].key
  {
    Aggregate(MonthlyKeyed(rows))
  }

  /** The monthly table has one row per (month, station) pair present in its input and no other. */
  lemma MonthlyMeansKeys(rows: seq<Row>)
    ensures NoDup(AggKeys(MonthlyMeans(rows)))
    ensures forall m, st :: (m, st) in AggKeys(MonthlyMeans(rows)) <==>
              exists j :: 0 <= j < |rows| && rows[j].month == m && rows[j].station == st
  {
    var kr := MonthlyKeyed(rows);
    AggregateKeys(kr);
    forall m, st | (m, st) in AggKeys(MonthlyMeans(rows))
      ensures exists j :: 0 <= j < |rows| && rows[j].month == m && rows[j].station == st
    {
      var j :| 0 <= j < |kr| && kr[j].0 == (m, st);
    }
    forall m, st | exists j :: 0 <= j < |rows| && rows[j].month == m && rows[j].station == st
      ensures (m, st) in AggKeys(MonthlyMeans(rows))
    {
      var j :| 0 <= j < |rows| && rows[j].month == m && rows[j].station == st;
      assert kr[j].0 == (m, st);
    }
  }

  /** A reading enters the (month, station) group exactly when a row of that month and station
      carries it, and as many times as such rows carry it. */
  lemma MonthlyGroup(rows: seq<Row>, key: (int, string), r: Readings)
    ensures r in GroupOf(MonthlyKeyed(rows), key) <==>
              exists j :: 0 <= j < |rows| && rows[j] == Row(key.1, rows[j].year, key.0, r)
    ensures multiset(GroupOf(MonthlyKeyed(rows), key))[r] == multiset(MonthlyKeyed(rows))[(key, r)]
  {
    var kr := MonthlyKeyed(rows);
    GroupOfMembers(kr, key, r);
    GroupOfMultiplicity(kr, key, r);
    if (key, r) in kr {
      var j :| 0 <= j < |kr| && kr[j] == (key, r);
      assert rows[j] == Row(key.1, rows[j].year, key.0, r);
    }
  }

  /** Each monthly value is the mean over its (month, station) group, which `MonthlyGroup` pins down
      row by row. */
  lemma MonthlyMeansValues(rows: seq<Row>, p: Pollutant)
    ensures forall i :: 0 <= i < |MonthlyMeans(rows)| ==>
              && |GroupOf(MonthlyKeyed(rows), MonthlyMeans(rows)[i].key)| > 0
              && MonthlyMeans(rows)[i].means.Get(p) ==
                 Mean(Column(GroupOf(MonthlyKeyed(rows), MonthlyMeans(rows)[i].key), p))
  {
    AggregateMeans(MonthlyKeyed(rows), p);
  }

  // ---------------------------------------------------------------------------------------------
  // create_binning_df

  /** A row of the binned copy: the original row untouched, plus the `month` and `season` columns. */
  datatype BinnedRow = BinnedRow(base: Row, month: int, season: Season)

  /** Copies the rows, adds the month column, then derives the season column from it. */
  method CreateBinning(df: seq<Row>) returns (binned: seq<BinnedRow>)
    ensures |binned| == |df|
    ensures forall i :: 0 <= i < |df| ==>
              && binned[i].base == df[i]
              && binned[i].month == df[i].month
              && binned[i].season == GetSeason(df[i].month)
  {
    var months: seq<int> := [];
    for i := 0 to |df|
      invariant |months| == i
      invariant forall k :: 0 <= k < i ==> months[k] == df[k].month
    {
      months := months + [df[i].month];
    }
    binned := [];
    for i := 0 to |df|
      invariant |binned| == i
      invariant forall k :: 0 <= k < i ==> binned[k] == BinnedRow(df[k], months[k], GetSeason(months[k]))
    {
      binned := binned + [BinnedRow(df[i], months[i], GetSeason(months[i]))];
    }
  }

  // ---------------------------------------------------------------------------------------------
  // seasonal_avg

  /** The binned rows keyed by (station, season), the group-by key of the seasonal means. */
  function SeasonalKeyed(binned: seq<BinnedRow>): (kr: seq<((string, Season), Readings)>)
    ensures |kr| == |binned|
    ensures forall i :: 0 <= i < |binned| ==>
              kr[i] == ((binned[i].base.station, binned[i].season), binned[i].base.readings)
  {
    seq(|binned|, i requires 0 <= i < |binned| =>
      ((binned[i].base.station, binned[i].season), binned[i].base.readings))
  }

  /** The seasonal table: one row per (station, season), each pollutant averaged over that group's
      non-missing readings. */
  function SeasonalMeans(binned: seq<BinnedRow>): (out: seq<AggRow<(string, Season)>>)
    ensures NoDup(AggKeys(out))
    ensures forall j :: 0 <= j < |binned| ==> (binned[j].base.station, binned[j].season) in AggKeys(out)
    ensures forall i :: 0 <= i < |out| ==>
              exists j :: 0 <= j < |binned| && (binned[j].base.station, binned[j].season) == out[i].key
  {
    Aggregate(SeasonalKeyed(binned))
  }

  /** The seasonal table has one row per (station, season) pair present in the binned rows and no other. */
  lemma SeasonalMeansKeys(binned: seq<BinnedRow>)
    ensures NoDup(AggKeys(SeasonalMeans(binned)))
    ensures forall st, s :: (st, s) in AggKeys(SeasonalMeans(binned)) <==>
              exists j :: 0 <= j < |binned| && binned[j].base.station == st && binned[j].season == s
  {
    var kr := SeasonalKeyed(binned);
    AggregateKeys(kr);
    forall st, s | (st, s) in AggKeys(SeasonalMeans(binned))
      ensures exists j :: 0 <= j < |binned| && binned[j].base.station == st && binned[j].season == s
    {
      var j :| 0 <= j < |kr| && kr[j].0 == (st, s);
    }
    forall st, s | exists j :: 0 <= j < |binned| && binned[j].base.station == st && binned[j].season == s
      ensures (st, s) in AggKeys(SeasonalMeans(binned))
    {
      var j :| 0 <= j < |binned| && binned[j].base.station == st && binned[j].season == s;
      assert kr[j].0 == (st, s);
    }
  }

  // ---------------------------------------------------------------------------------------------
  // The pipeline restricted to one year

  /** The monthly table of a year has a row for (month, station) exactly when the data holds a row of
      that station in that month of that year. */
  lemma MonthlyKeysOfYear(rows: seq<Row>, year: int)
    ensures forall m, st :: (m, st) in AggKeys(MonthlyMeans(FilterYear(rows, year))) <==>
              exists j :: 0 <= j < |rows| && rows[j].year == year && rows[j].month == m && rows[j].station == st
  {
    var f := FilterYear(rows, year);
    MonthlyMeansKeys(f);
    forall m, st | (m, st) in AggKeys(MonthlyMeans(f))
      ensures exists j :: 0 <= j < |rows| && rows[j].year == year && rows[j].month == m && rows[j].station == st
    {
      var i :| 0 <= i < |f| && f[i].month == m && f[i].station == st;
      assert f[i] in rows;
      var j :| 0 <= j < |rows| && rows[j] == f[i];
    }
    forall m, st | exists j :: 0 <= j < |rows| && rows[j].year == year && rows[j].month == m && rows[j].station == st
      ensures (m, st) in AggKeys(MonthlyMeans(f))
    {
      var j :| 0 <= j < |rows| && rows[j].year == year && rows[j].month == m && rows[j].station == st;
      FilterYearKeepsExactly(rows, year, rows[j]);
      var i :| 0 <= i < |f| && f[i] == rows[j];
    }
  }

  /** The seasonal table of a year's binned rows has a row for (station, season) exactly when the data
      holds a row of that station, in that year, in a month of that season. */
  lemma SeasonalKeysOfYear(rows: seq<Row>, year: int, binned: seq<BinnedRow>)
    requires |binned| == |FilterYear(rows, year)|
    requires forall i :: 0 <= i < |binned| ==>
               binned[i].base == FilterYear(rows, year)[i] && binned[i].season == GetSeason(binned[i].base.month)
    ensures forall st, s :: (st, s) in AggKeys(SeasonalMeans(binned)) <==>
              exists j :: 0 <= j < |rows| && rows[j].year == year && rows[j].station == st
                          && GetSeason(rows[j].month) == s
  {
    var f := FilterYear(rows, year);
    forall row | row in rows && row.year == year ensures row in f {
      FilterYearKeepsExactly(rows, year, row);
    }
    SeasonalMeansKeys(binned);
    SeasonalKeysThroughFilter(rows, year, f, binned);
  }

  /** Each row of the seasonal table holds, per pollutant, the skip-missing mean over the non-empty
      group of binned rows sharing its (station, season) key. */
  lemma SeasonalMeansValues(binned: seq<BinnedRow>, p: Pollutant)
    ensures forall i :: 0 <= i < |SeasonalMeans(binned)| ==>
              && |GroupOf(SeasonalKeyed(binned), SeasonalMeans(binned)[i].key)| > 0
              && SeasonalMeans(binned)[i].means.Get(p) ==
                 Mean(Column(GroupOf(SeasonalKeyed(binned), SeasonalMeans(binned)[i].key), p))
  {
    AggregateMeans(SeasonalKeyed(binned), p);
  }

  lemma SeasonalKeysThroughFilter(rows: seq<Row>, year: int, f: seq<Row>, binned: seq<BinnedRow>)
    requires forall i :: 0 <= i < |f| ==> f[i].year == year && f[i] in rows
    requires forall row :: row in rows && row.year == year ==> row in f
    requires |binned| == |f|
    requires forall i :: 0 <= i < |binned| ==>
               binned[i].base == f[i] && binned[i].season == GetSeason(binned[i].base.month)
    requires forall st, s :: (st, s) in AggKeys(SeasonalMeans(binned)) <==>
               exists j :: 0 <= j < |binned| && binned[j].base.station == st && binned[j].season == s
    ensures forall st, s :: (st, s) in AggKeys(SeasonalMeans(binned)) <==>
              exists j :: 0 <= j < |rows| && rows[j].year == year && rows[j].station == st
                          && GetSeason(rows[j].month) == s
  {
    forall st, s | (st, s) in AggKeys(SeasonalMeans(binned))
      ensures exists j :: 0 <= j < |rows| && rows[j].year == year && rows[j].station == st
                          && GetSeason(rows[j].month) == s
    {
      var i :| 0 <= i < |binned| && binned[i].base.station == st && binned[i].season == s;
      assert f[i] in rows;
      var j :| 0 <= j < |rows| && rows[j] == f[i];
    }
    forall st, s | exists j :: 0 <= j < |rows| && rows[j].year == year && rows[j].station == st
                               && GetSeason(rows[j].month) == s
      ensures (st, s) in AggKeys(SeasonalMeans(binned))
    {
      var j :| 0 <= j < |rows| && rows[j].year == year && rows[j].station == st && GetSeason(rows[j].month) == s;
      assert rows[j] in f;
      var i :| 0 <= i < |f| && f[i] == rows[j];
      assert binned[i].base.station == st && binned[i].season == s;
    }
  }

  /** A station with no row in the selected year draws no line: no monthly row carries it. */
  lemma AbsentStationHasNoSeries(rows: seq<Row>, year: int, st: string)
    requires forall j :: 0 <= j < |rows| && rows[j].year == year ==> rows[j].station != st
    ensures forall i :: 0 <= i < |MonthlyMeans(FilterYear(rows, year))| ==>
              MonthlyMeans(FilterYear(rows, year))[i].key.1 != st
  {
    MonthlyKeysOfYear(rows, year);
    var out := MonthlyMeans(FilterYear(rows, year));
    forall i | 0 <= i < |out| ensures out[i].key.1 != st {
      assert out[i].key == AggKeys(out)[i];
    }
  }

  /** Two PM2.5 readings of 10 and 20 at station "A" in March 2014 give that month a PM2.5 mean of 15;
      a pollutant with no reading stays missing, and a station with no row in 2014 has no row. */
  lemma MarchExample()
    ensures var none := Readings(None, None, None, None, None, None);
            var rows := [Row("A", 2014, 3, none.(pm25 := Some(10.0))), Row("B", 2013, 3, none),
                         Row("A", 2014, 3, none.(pm25 := Some(20.0)))];
            MonthlyMeans(FilterYear(rows, 2014)) == [AggRow((3, "A"), none.(pm25 := Some(15.0)))]
  {
    var none := Readings(None, None, None, None, None, None);
    var a1, a2 := Row("A", 2014, 3, none.(pm25 := Some(10.0))), Row("A", 2014, 3, none.(pm25 := Some(20.0)));
    var rows := [a1, Row("B", 2013, 3, none), a2];
    assert FilterYear(rows, 2014) == [a1, a2] by {
      assert rows[1..][1..] == [a2];
      assert FilterYear([a2], 2014) == [a2];
    }
    var kr := MonthlyKeyed([a1, a2]);
    assert kr == [((3, "A"), a1.readings), ((3, "A"), a2.readings)];
    SameKeyAggregate((3, "A"), a1.readings, a2.readings);
    PairMeans();
  }

  /** Two rows sharing one key aggregate into a single row holding the means of both. */
  lemma SameKeyAggregate<K>(k: K, ra: Readings, rb: Readings)
    ensures Aggregate([(k, ra), (k, rb)]) == [AggRow(k, MeansOf([ra, rb]))]
  {
    var kr := [(k, ra), (k, rb)];
    assert KeysOf(kr) == [k, k];
    DistinctOfConstant(KeysOf(kr), k);
    assert kr[1..] == [(k, rb)];
    assert GroupOf(kr, k) == [ra, rb];
  }

  lemma PairMeans()
    ensures var none := Readings(None, None, None, None, None, None);
            MeansOf([none.(pm25 := Some(10.0)), none.(pm25 := Some(20.0))]) == none.(pm25 := Some(15.0))
  {
    var none := Readings(None, None, None, None, None, None);
    var g := [none.(pm25 := Some(10.0)), none.(pm25 := Some(20.0))];
    assert Column(g, PM25) == [Some(10.0), Some(20.0)];
    MeanOfTenAndTwenty();
  }

  /** A row missing PM2.5 but holding PM10 = 50 counts towards the PM10 mean of its group and not
      towards the PM2.5 mean. */
  lemma MissingReadingExample()
    ensures var none := Readings(None, None, None, None, None, None);
            var g := [none.(pm25 := Some(10.0), pm10 := Some(30.0)), none.(pm10 := Some(50.0))];
            MeansOf(g).pm25 == Some(10.0) && MeansOf(g).pm10 == Some(40.0)
  {
    var none := Readings(None, None, None, None, None, None);
    var g0 := [none.(pm25 := Some(10.0), pm10 := Some(30.0))];
    var r := none.(pm10 := Some(50.0));
    var g := g0 + [r];
    RowContributes(g0, r, PM25);
    RowContributes(g0, r, PM10);
    assert Present(Column(g0, PM25)) == [10.0];
    assert Present(Column(g0, PM10)) == [30.0];
    assert Present(Column(g, PM25)) == [10.0];
    assert Present(Column(g, PM10)) == [30.0, 50.0];
    assert Sum([10.0]) == 10.0;
    assert Sum([30.0, 50.0]) == 80.0;
    assert MeansOf(g).Get(PM25) == Some(10.0);
    assert MeansOf(g).Get(PM10) == Some(40.0);
    assert g == [none.(pm25 := Some(10.0), pm10 := Some(30.0)), none.(pm10 := Some(50.0))];
  }

  /** Everything one run of the dashboard computes from the data and the selection. */
  datatype Report = Report(
    years: seq<int>,
    year: int,
    monthly: seq<AggRow<(int, string)>>,
    binned: seq<BinnedRow>,
    seasonal: seq<AggRow<(string, Season)>>)

  /** The dashboard fails before drawing anything when the data holds no year to select. */
  datatype DashboardError = NoYears

  /** One top-to-bottom run over the time-sorted rows with the selector at option `choice`
      (0 until the user picks another): year list, selected year, filtered rows and both tables. */
  method Run(sorted: seq<Row>, choice: nat) returns (res: Result<Report, DashboardError>)
    requires sorted == [] || choice < |YearList(sorted)|
    ensures res.Err? <==> sorted == []
    ensures res.Ok? ==>
              var r := res.value;
              && r.years == YearList(sorted)
              && r.year == r.years[choice]
              && r.monthly == MonthlyMeans(FilterYear(sorted, r.year))
              && r.seasonal == SeasonalMeans(r.binned)
              && r.monthly != [] && r.seasonal != []
    ensures res.Ok? && choice == 0 ==> DefaultYear(res.value.years) == Some(res.value.year)
    ensures res.Ok? ==>
              var f := FilterYear(sorted, res.value.year);
              && |res.value.binned| == |f|
              && forall i :: 0 <= i < |f| ==>
                   res.value.binned[i] == BinnedRow(f[i], f[i].month, GetSeason(f[i].month))
    ensures res.Ok? ==>
              forall m, st :: (m, st) in AggKeys(res.value.monthly) <==>
                exists j :: 0 <= j < |sorted| && sorted[j].year == res.value.year
                            && sorted[j].month == m && sorted[j].station == st
    ensures res.Ok? ==>
              forall st, s :: (st, s) in AggKeys(res.value.seasonal) <==>
                exists j :: 0 <= j < |sorted| && sorted[j].year == res.value.year
                            && sorted[j].station == st && GetSeason(sorted[j].month) == s
  {
    var years := YearList(sorted);
    assert sorted != [] ==> sorted[0].year in years;
    var initial := DefaultYear(years);
    if initial.None? {
      return Err(NoYears);
    }
    // The selector starts at `initial` (position 0) and yields the entry at the chosen position.
    var year := years[choice];
    var filtered := FilterYear(sorted, year);
    var monthly := MonthlyMeans(filtered);
    var binned := CreateBinning(filtered);
    var seasonal := SeasonalMeans(binned);
    TablesOfYear(sorted, year, binned);
    res := Ok(Report(years, year, monthly, binned, seasonal));
  }

  /** For an offered year, both tables are non-empty and keyed by exactly the pairs of that year's rows. */
  lemma TablesOfYear(sorted: seq<Row>, year: int, binned: seq<BinnedRow>)
    requires year in YearList(sorted)
    requires |binned| == |FilterYear(sorted, year)|
    requires forall i :: 0 <= i < |binned| ==>
               && binned[i].base == FilterYear(sorted, year)[i]
               && binned[i].season == GetSeason(FilterYear(sorted, year)[i].month)
    ensures MonthlyMeans(FilterYear(sorted, year)) != [] && SeasonalMeans(binned) != []
    ensures forall m, st :: (m, st) in AggKeys(MonthlyMeans(FilterYear(sorted, year))) <==>
              exists j :: 0 <= j < |sorted| && sorted[j].year == year
                          && sorted[j].month == m && sorted[j].station == st
    ensures forall st, s :: (st, s) in AggKeys(SeasonalMeans(binned)) <==>
              exists j :: 0 <= j < |sorted| && sorted[j].year == year
                          && sorted[j].station == st && GetSeason(sorted[j].month) == s
  {
    MonthlyKeysOfYear(sorted, year);
    SeasonalKeysOfYear(sorted, year, binned);
    var j :| 0 <= j < |sorted| && sorted[j].year == year;
    assert (sorted[j].month, sorted[j].station) in AggKeys(MonthlyMeans(FilterYear(sorted, year)));
    assert (sorted[j].station, GetSeason(sorted[j].month)) in AggKeys(SeasonalMeans(binned));
  }
}
