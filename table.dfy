/** The records the dashboard works on: one observation per station per timestamp. */
module Table {
  import opened Wrappers

  /** The six pollutant columns, in the order of the dashboard's `pollutants` list. */
  datatype Pollutant = PM25 | PM10 | SO2 | NO2 | CO | O3

  /** One concentration per pollutant; `None` is a missing reading. */
  datatype Readings = Readings(pm25: Option<real>, pm10: Option<real>, so2: Option<real>,
                               no2: Option<real>, co: Option<real>, o3: Option<real>)
  {
    /** The column named by `p`. */
    function Get(p: Pollutant): Option<real> {
      match p
      case PM25 => pm25
      case PM10 => pm10
      case SO2 => so2
      case NO2 => no2
      case CO => co
      case O3 => o3
    }
  }

  /** An observation whose timestamp has already been split into its calendar year and month. */
  datatype Row = Row(station: string, year: int, month: int, readings: Readings)

  /** The timestamp order the dashboard sorts its second copy of the data into. */
  predicate TimeLeq(a: Row, b: Row) {
    a.year < b.year || (a.year == b.year && a.month <= b.month)
  }

  /** Rows in ascending timestamp order. */
  predicate SortedByTime(rows: seq<Row>) {
    forall i, j :: 0 <= i <= j < |rows| ==> TimeLeq(rows[i], rows[j])
  }
}
