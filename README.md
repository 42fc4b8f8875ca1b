# Air-quality dashboard: the data path

A Dafny model of the data transformations inside the air-quality dashboard script `dashboard.py`.
The script loads observations from several monitoring stations. It offers the years found in
the data in a selector and keeps the rows of the chosen year. From those rows it builds two tables:
the mean of each of six pollutants (PM2.5, PM10, SO2, NO2, CO, O3) per calendar month and station,
and the mean per station and season, where months are bucketed into four seasons.

Rows are taken as already parsed: a station name, the year and month of the timestamp, and six
readings, each of which may be missing (`Option<real>`; pandas' NaN is `None`). Means use exact
`real` arithmetic.

Files and modules:

- `wrappers.dfy` (`Wrappers`): `Option` and `Result`.
- `table.dfy` (`Table`): pollutants, readings, rows, timestamp order.
- `seasons.dfy` (`Seasons`): `get_season`.
- `unique.dfy` (`Unique`): pandas' `unique()`, the distinct values of a column in first-appearance order.
- `years.dfy` (`Years`): the year list, the default selection and the year filter.
- `groupmean.dfy` (`GroupMean`): pandas' `groupby(...)[pollutants].mean()` over rows paired with a
  key, with a mean that skips missing readings.
- `dashboard.dfy` (`Dashboard`): `create_annual_pollutant_df`, `create_binning_df` (a method that
  builds the copy column by column), the seasonal group-by, and `Run`, one top-to-bottom run from the
  sorted rows and the selector position to every table it computes.

## Model

| member | source | states |
|---|---|---|
| Seasons.GetSeason | dashboard.py:24-32 | months 3-5 give Spring, 6-8 Summer, 9-11 Fall, every other integer Winter; each input yields exactly one season |
| Seasons.Season.Name | dashboard.py:24-32 | the label stored for a season is one of the seasonal chart's labels Spring, Summer, Fall, Winter (with NamesDistinct and EveryLabelNamesASeason: a one-to-one match between seasons and labels) |
| Seasons.EveryLabelNamesASeason | dashboard.py:108 | every label of the seasonal chart's axis is the label of some season |
| Seasons.NamesDistinct | dashboard.py:24-35 | two seasons have the same label in the `season` column exactly when they are the same season |
| Seasons.SeasonsPartitionYear | dashboard.py:24-32 | a calendar month lies in a season's bucket exactly when `GetSeason` returns that season, and each season's bucket holds three months (Winter: 12, 1, 2) |
| Unique.FirstIndex | dashboard.py:52 | the returned position holds the value and no earlier position does |
| Unique.Distinct | dashboard.py:52 | the distinct values have no duplicates, contain every value of the input and nothing else |
| Unique.DistinctFirstAppearance | dashboard.py:52 | distinct values come in the order of their first occurrence in the input |
| Unique.DistinctHead | dashboard.py:52-55 | the first distinct value is the input's first value |
| Unique.DistinctOfSortedIsAscending | dashboard.py:46-52 | on a non-decreasing input the distinct list is strictly increasing |
| Unique.DistinctOfNoDup | dashboard.py:52 | a duplicate-free input is returned unchanged |
| Unique.DistinctIdempotent | dashboard.py:52 | taking distinct values twice changes nothing |
| Unique.DistinctOfConstant | dashboard.py:52 | a non-empty input holding one value gives exactly that value |
| Years.YearList | dashboard.py:52 | the year list has no duplicates, holds the year of every row, and holds only years some row has (order: YearListSpec) |
| Years.YearListSpec | dashboard.py:46-52 | the year list has no duplicates, offers a year exactly when some row has it, in first-appearance order |
| Years.DefaultYear | dashboard.py:55 | the default is absent exactly when no year is offered, and otherwise is an offered year |
| Years.DefaultYearIsEarliest | dashboard.py:46-55 | on time-sorted rows the default is the first row's year, and the year list ascends strictly |
| Years.FilterYear | dashboard.py:64 | every kept row has the chosen year and comes from the input |
| Years.FilterYearKeepsExactly | dashboard.py:64 | a row is kept exactly when it is in the input with the chosen year, with its multiplicity; other rows have none |
| Years.FilterYearConcat | dashboard.py:64 | the filter of a concatenation is the concatenation of the filters, so kept rows keep their relative order |
| Years.FilterYearPrefix | dashboard.py:64 | filtering a prefix of the rows gives a prefix of the filtered rows |
| Years.FilterYearLeavesOneYear | dashboard.py:52-64 | the rows kept for an offered year offer exactly that one year |
| GroupMean.GroupOf | dashboard.py:11 | a group is no longer than its input; GroupOfConcat and GroupOfMultiplicity fix its contents and order |
| GroupMean.GroupOfConcat | dashboard.py:11 | the group of a concatenation is the groups of the parts in order, so each row of the key contributes its reading once, at its position |
| GroupMean.GroupOfMultiplicity | dashboard.py:11 | a reading occurs in a key's group exactly as many times as rows pair it with that key: duplicate rows are not collapsed |
| GroupMean.GroupOfMembers | dashboard.py:11 | a reading is in the group of a key exactly when some input row pairs it with that key |
| GroupMean.Present | dashboard.py:11 | the non-missing values are no more than the readings |
| GroupMean.PresentConcat | dashboard.py:11 | the non-missing values of a concatenation are those of the parts, in order |
| GroupMean.SumConcat | dashboard.py:11 | the sum of a concatenation is the sum of the parts' sums |
| GroupMean.MeansOf | dashboard.py:11 | each pollutant of a group's means is the mean of that pollutant's column |
| GroupMean.Aggregate | dashboard.py:11 | the output keys have no duplicates, every output key occurs in the input, and every input key has an output row (means: AggregateMeans) |
| GroupMean.PresentEmptyIffAllMissing | dashboard.py:11 | a column has no non-missing value exactly when every reading is missing |
| GroupMean.Mean | dashboard.py:11 | the skip-missing mean is missing, not zero, exactly when every reading is missing; MeanSkipsMissing, MeanAddsReading, MeanWithinReadings and MeanOfTenAndTwenty state its value |
| GroupMean.MeanSkipsMissing | dashboard.py:11 | inserting a missing reading anywhere leaves the mean unchanged |
| GroupMean.MeanAddsReading | dashboard.py:11 | appending a present reading adds its value to the sum and one to the count |
| GroupMean.SumBounds | dashboard.py:11 | a sum of values between two bounds lies between the count times each bound |
| GroupMean.PresentValues | dashboard.py:11 | bounds on the present readings carry over to the non-missing values |
| GroupMean.MeanWithinReadings | dashboard.py:11 | a mean lies between any lower and upper bound of the non-missing readings |
| GroupMean.MeanOfTenAndTwenty | dashboard.py:11 | readings 10 and 20 average to 15 |
| GroupMean.RowContributes | dashboard.py:11 | a row added to a group adds its reading to a pollutant's values exactly when that reading is present |
| GroupMean.AggregateKeys | dashboard.py:11 | output keys are the distinct input keys in first-appearance order: no duplicates, none fabricated, none dropped |
| GroupMean.AggregateMeans | dashboard.py:11 | each output row's pollutant value is the skip-missing mean over the non-empty group of its key, in which each reading occurs as often as input rows pair it with the key |
| Dashboard.MonthlyMeans | dashboard.py:11-14 | the monthly table has no duplicate (month, station) key, a row for the pair of every input row, and only pairs some input row has |
| Dashboard.MonthlyMeansKeys | dashboard.py:11-14 | the monthly table has one row per (month, station) pair present in its input and no other |
| Dashboard.MonthlyGroup | dashboard.py:11 | a reading is in the (month, station) group exactly when a row of that month and station carries it, and occurs there as many times as such rows carry it |
| Dashboard.MonthlyMeansValues | dashboard.py:11 | each monthly value is the skip-missing mean over the non-empty group of its (month, station) key |
| Dashboard.CreateBinning | dashboard.py:20-39 | the copy has the input's rows in order, unchanged, each with a month column equal to its month and a season column equal to `GetSeason` of it |
| Dashboard.SeasonalMeans | dashboard.py:105 | the seasonal table has no duplicate (station, season) key, a row for the pair of every binned row, and only pairs some binned row has |
| Dashboard.SeasonalMeansKeys | dashboard.py:105 | the seasonal table has one row per (station, season) pair present in the binned rows and no other |
| Dashboard.SeasonalMeansValues | dashboard.py:105 | each seasonal value is the skip-missing mean over the non-empty group of binned rows with that (station, season) key |
| Dashboard.MonthlyKeysOfYear | dashboard.py:64-66 | the monthly table of a year has (month, station) exactly when the data has a row of that station, month and year |
| Dashboard.SeasonalKeysThroughFilter | dashboard.py:64-68 | keys of the binned rows of a filter are the (station, season) pairs of the input rows of that year |
| Dashboard.SeasonalKeysOfYear | dashboard.py:105 | the seasonal table of a year has (station, season) exactly when the data has a row of that station and year in a month of that season |
| Dashboard.AbsentStationHasNoSeries | dashboard.py:64-66 | a station with no row in the selected year has no row in the monthly table |
| Dashboard.TablesOfYear | dashboard.py:64-68 | for an offered year both tables are non-empty and keyed by exactly the pairs of that year's rows |
| Dashboard.MarchExample | dashboard.py:11 | 10 and 20 for PM2.5 at "A" in March 2014 give one row (3, "A") with PM2.5 15, other pollutants missing, and no row for the 2013-only station |
| Dashboard.SameKeyAggregate | dashboard.py:11 | two rows with one key aggregate to a single row with the means of both |
| Dashboard.PairMeans | dashboard.py:11 | PM2.5 readings 10 and 20 with every other pollutant missing give PM2.5 15 and the rest missing |
| Dashboard.MissingReadingExample | dashboard.py:11 | a row missing PM2.5 with PM10 50 counts for the PM10 mean (40) but not for the PM2.5 mean (10) |
| Dashboard.Run | dashboard.py:42-68 | fails exactly on empty data (the list_tahun[0] lookup); otherwise offers the year list, starts at its first entry, takes the chosen entry, builds the binned copy of exactly that year's rows, and both tables have exactly the keys of that year's rows and are non-empty |

## Left out

- Loading: reading the CSV file and parsing the timestamp column (lines 42-43, 50-51) are input handling through pandas; rows arrive with year and month extracted.
- The sort at line 46 runs on the timestamp text before parsing; `Run` takes its rows as already sorted, and `DefaultYearIsEarliest` states what follows when they are.
- The assignment at line 50, which copies sorted timestamps onto the unsorted frame, feeds only the correlation matrix.
- The correlation matrix (`create_correlation_df`, lines 16-18) is one Pearson correlation call over floating point; the weather columns it reads are therefore not part of the rows.
- The Streamlit sidebar, headers and every chart (lines 57-62 for the widget, 70-121 for rendering): the widget's result is the `choice` parameter of `Run`, and its `requires` says the widget only returns an offered position.
- GroupMean.AggregateKeys: pandas sorts group keys (month, then station; station, then season); the model keeps keys in first-appearance order and states the key set and the absence of duplicates, not the row order, which only affects chart layout.
- The fixed season label order used for the x axis (lines 108, 114) is presentation.
- Floating-point rounding of means: means are exact reals.
- Integer widths: years and months are unbounded integers; nothing in this path depends on their width.
- `set_index("datetime")` at line 13 only moves the month column into the index; the model keeps it as the first component of the key.
