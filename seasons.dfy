/** The calendar-month to season bucketing of `get_season`. */
module Seasons {

  datatype Season = Spring | Summer | Fall | Winter
  {
    /** The label the dashboard stores in its `season` column: one of the chart's season labels. */
    function Name(): (n: string)
      ensures n in SeasonLabels
    {
      match this
      case Spring => "Spring"
      case Summer => "Summer"
      case Fall => "Fall"
      case Winter => "Winter"
    }
  }

  /** The season labels of the seasonal chart's x axis. */
  const SeasonLabels: seq<string> := ["Spring", "Summer", "Fall", "Winter"]

  /** Every label on the seasonal chart's axis is the label of a season (of exactly one, by NamesDistinct). */
  lemma {:induction false} EveryLabelNamesASeason(text: string)
    requires text in SeasonLabels
    ensures exists s: Season :: s.Name() == text
  {
    var i :| 0 <= i < |SeasonLabels| && SeasonLabels[i] == text;
    if i == 0 { assert Spring.Name() == text; }
    else if i == 1 { assert Summer.Name() == text; }
    else if i == 2 { assert Fall.Name() == text; }
    else { assert Winter.Name() == text; }
  }

  /** The season of a month number: every integer, in range or not, falls in exactly one bucket. */
  function GetSeason(month: int): (s: Season)
    ensures s == Spring <==> 3 <= month <= 5
    ensures s == Summer <==> 6 <= month <= 8
    ensures s == Fall <==> 9 <= month <= 11
    ensures s == Winter <==> month < 3 || 11 < month
  {
    if month in [3, 4, 5] then Spring
    else if month in [6, 7, 8] then Summer
    else if month in [9, 10, 11] then Fall
    else Winter
  }

  /** The calendar months the dashboard places in each season. */
  function CalendarMonths(s: Season): set<int> {
    match s
    case Spring => {3, 4, 5}
    case Summer => {6, 7, 8}
    case Fall => {9, 10, 11}
    case Winter => {12, 1, 2}
  }

  /** A calendar month lies in exactly one season's bucket: the one `GetSeason` gives it; every
      season's bucket holds three calendar months. */
  lemma SeasonsPartitionYear(month: int, s: Season)
    requires 1 <= month <= 12
    ensures month in CalendarMonths(s) <==> GetSeason(month) == s
    ensures |CalendarMonths(s)| == 3
  {
  }

  /** Distinct seasons carry distinct labels, so grouping by the season equals grouping by its label. */
  lemma NamesDistinct(s: Season, t: Season)
    ensures s.Name() == t.Name() <==> s == t
  {
  }
}
