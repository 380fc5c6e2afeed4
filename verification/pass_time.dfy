/**
 The "is the date at least this far ahead of now" tests `isPassTime`,
 `isPassYear`, ..., `isPassSecond`. The wall clock `time()` is the parameter
 `now`; the parsed date is None when `strtotime` failed and returned `false`.
 */
module PassTime {
  import opened Wrappers
  import opened TimeUnits
  import LeapYear

  /** The position of a boolean in PHP's ordering, where false < true. */
  function BoolRank(b: bool): int {
    if b then 1 else 0
  }

  /** PHP's comparison of a boolean with an integer by `>=`: the integer is converted to bool (non-zero is true) and false < true. */
  function BoolAtLeastInt(b: bool, i: int): (r: bool)
    ensures r <==> BoolRank(b) >= BoolRank(i != 0)
  {
    b || i == 0
  }

  /**
   `isPassTime`: the parsed date is compared, by `>=`, with the clock plus the limit. A parsed
   date passes exactly when it lies `limit` or more seconds after now; a failed
   parse (`false`) passes only when `now + limit` is 0.
   */
  function IsPassTime(date: Option<int>, now: int, limit: int): (r: bool)
    ensures date.Some? ==> (r <==> date.value - now >= limit)
    ensures date.None? ==> (r <==> limit == -now)
  {
    match date
    case Some(t) => t >= now + limit
    case None => BoolAtLeastInt(false, now + limit)
  }

  /** For a parsed date the test is antitone in the limit: passing a limit passes every smaller one. */
  lemma IsPassTimeAntitone(t: int, now: int, limit: int, smaller: int)
    requires smaller <= limit
    requires IsPassTime(Some(t), now, limit)
    ensures IsPassTime(Some(t), now, smaller)
  {
  }

  /** An unparsable date breaks antitonicity: it passes the limit `-now` and no other. */
  lemma UnparsedDateNotAntitone(now: int)
    ensures IsPassTime(None, now, -now)
    ensures !IsPassTime(None, now, -now - 1)
  {
  }

  /** The year limit: 366 days when the CURRENT year is intercalary, else 365. */
  function YearLimit(currentYear: int): (r: int)
    ensures LeapYear.IsIntercalaryYear(currentYear) ==> r == 366 * TIME_DAY
    ensures !LeapYear.IsIntercalaryYear(currentYear) ==> r == 365 * TIME_DAY
  {
    if LeapYear.IsIntercalaryYear(currentYear) then TIME_YEAR_INTERCALARY else TIME_YEAR
  }

  /** `isPassYear($date)`; `currentYear` is the year of `time()`, not of the date. */
  function IsPassYear(date: Option<int>, now: int, currentYear: int): (r: bool)
    ensures date.Some? && currentYear % 4 == 0 ==> (r <==> date.value - now >= 31622400)
    ensures date.Some? && currentYear % 4 != 0 ==> (r <==> date.value - now >= 31536000)
    ensures date.None? && currentYear % 4 == 0 ==> (r <==> now == -31622400)
    ensures date.None? && currentYear % 4 != 0 ==> (r <==> now == -31536000)
  {
    LeapYear.IntercalaryIffDivisibleByFour(currentYear);
    IsPassTime(date, now, YearLimit(currentYear))
  }

  /** `isPassMonth($date)`: a 30-day month ahead. */
  function IsPassMonth(date: Option<int>, now: int): (r: bool)
    ensures date.Some? ==> (r <==> date.value - now >= 30 * 86400)
    ensures date.None? ==> (r <==> now == -(30 * 86400))
  {
    IsPassTime(date, now, TIME_MONTH)
  }

  /** `isPassWeek($date)`. */
  function IsPassWeek(date: Option<int>, now: int): (r: bool)
    ensures date.Some? ==> (r <==> date.value - now >= 7 * 86400)
    ensures date.None? ==> (r <==> now == -(7 * 86400))
  {
    IsPassTime(date, now, TIME_WEEK)
  }

  /** `isPassDay($date)`. */
  function IsPassDay(date: Option<int>, now: int): (r: bool)
    ensures date.Some? ==> (r <==> date.value - now >= 86400)
    ensures date.None? ==> (r <==> now == -86400)
  {
    IsPassTime(date, now, TIME_DAY)
  }

  /** `isPassHours($date)`. */
  function IsPassHours(date: Option<int>, now: int): (r: bool)
    ensures date.Some? ==> (r <==> date.value - now >= 3600)
    ensures date.None? ==> (r <==> now == -3600)
  {
    IsPassTime(date, now, TIME_HOURS)
  }

  /** `isPassMinute($date)`. */
  function IsPassMinute(date: Option<int>, now: int): (r: bool)
    ensures date.Some? ==> (r <==> date.value - now >= 60)
    ensures date.None? ==> (r <==> now == -60)
  {
    IsPassTime(date, now, TIME_MINUTE)
  }

  /** `isPassSecond($date, $second)`: the caller's own limit. */
  function IsPassSecond(date: Option<int>, now: int, second: int): (r: bool)
    ensures date.Some? ==> (r <==> date.value - now >= second)
    ensures date.None? ==> (r <==> second == -now)
  {
    IsPassTime(date, now, second)
  }

  /** For a parsed date each coarser test implies the finer ones. */
  lemma PassChain(t: int, now: int, currentYear: int)
    ensures IsPassYear(Some(t), now, currentYear) ==> IsPassMonth(Some(t), now)
    ensures IsPassMonth(Some(t), now) ==> IsPassWeek(Some(t), now)
    ensures IsPassWeek(Some(t), now) ==> IsPassDay(Some(t), now)
    ensures IsPassDay(Some(t), now) ==> IsPassHours(Some(t), now)
    ensures IsPassHours(Some(t), now) ==> IsPassMinute(Some(t), now)
  {
  }

  /** For an unparsable date the tests with the fixed limits fail for every `now` but one each, so none of them implies another. */
  lemma UnparsedDateChainBreaks()
    ensures IsPassDay(None, -TIME_DAY) && !IsPassHours(None, -TIME_DAY)
  {
  }
}
