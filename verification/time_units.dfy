/**
 The second counts of the Calendar class and its default unit-name table
 (seconds threshold => label).
 */
module TimeUnits {

  const TIME_MINUTE: int := 60
  const TIME_HOURS: int := 3600
  const TIME_DAY: int := 3600 * 24
  const TIME_WEEK: int := 3600 * 24 * 7
  const TIME_MONTH: int := 3600 * 24 * 30
  /** A common (365-day) year. */
  const TIME_YEAR: int := 3600 * 24 * 365
  /** A leap (366-day) year. */
  const TIME_YEAR_INTERCALARY: int := 3600 * 24 * 366

  /** One entry of a unit table: a threshold in seconds and the label printed after the count. */
  datatype Unit = Unit(threshold: int, name: string)

  /** A unit table, as a PHP array from integer keys to labels. */
  type Table = seq<Unit>

  /** PHP array keys are unique. */
  predicate DistinctKeys(t: Table) {
    forall i, j :: 0 <= i < |t| && 0 <= j < |t| && t[i].threshold == t[j].threshold ==> i == j
  }

  /** `TIME_NAMES`: second, minute, hour, day, week, month, year. */
  const TIME_NAMES: Table := [
    Unit(0, "秒"),
    Unit(TIME_MINUTE, "分钟"),
    Unit(TIME_HOURS, "小时"),
    Unit(TIME_DAY, "天"),
    Unit(TIME_WEEK, "周"),
    Unit(TIME_MONTH, "月"),
    Unit(TIME_YEAR, "年")
  ]

  /** The derived durations are the stated multiples of the smaller ones. */
  lemma DerivedDurations()
    ensures TIME_HOURS == 60 * TIME_MINUTE
    ensures TIME_DAY == 24 * TIME_HOURS
    ensures TIME_WEEK == 7 * TIME_DAY
    ensures TIME_MONTH == 30 * TIME_DAY
    ensures TIME_YEAR == 365 * TIME_DAY
    ensures TIME_YEAR_INTERCALARY == TIME_YEAR + TIME_DAY
    ensures TIME_YEAR_INTERCALARY == 31622400 && TIME_YEAR == 31536000
  {
  }

  /** The default table's keys strictly increase from 0, so in particular they are distinct. */
  lemma DefaultTableOrdered()
    ensures TIME_NAMES[0].threshold == 0
    ensures forall i, j :: 0 <= i < j < |TIME_NAMES| ==> TIME_NAMES[i].threshold < TIME_NAMES[j].threshold
    ensures DistinctKeys(TIME_NAMES)
  {
  }
}
