/**
 The leap-year arithmetic of the Calendar class: `isIntercalaryYear` (the bare
 divisible-by-four rule) and `getTimeIntercalary` (an approximate count of leap
 years between two year numbers).
 */
module LeapYear {

  /** PHP's remainder by four: it takes the sign of the dividend (truncating division). */
  function PhpRem4(a: int): (r: int)
    ensures -4 < r < 4
    ensures a >= 0 ==> r >= 0
    ensures a < 0 ==> r <= 0
    ensures (a - r) % 4 == 0
    ensures r == 0 <==> a % 4 == 0
  {
    if a >= 0 then a % 4 else -((-a) % 4)
  }

  function Abs(x: int): nat {
    if x < 0 then -x else x
  }

  /**
   `isIntercalaryYear`, with the year already extracted from the date: the PHP
   remainder of the year by four is zero, so every fourth year counts, centuries included.
   */
  function IsIntercalaryYear(year: int): (r: bool)
    ensures r <==> year % 4 == 0
  {
    PhpRem4(year) == 0
  }

  /** The leap-year rule of the Gregorian calendar, with its century exceptions. */
  predicate IsGregorianLeapYear(year: int) {
    year % 4 == 0 && (year % 100 != 0 || year % 400 == 0)
  }

  /** A year is intercalary exactly when it is divisible by four, whatever its sign. */
  lemma IntercalaryIffDivisibleByFour(year: int)
    ensures IsIntercalaryYear(year) <==> year % 4 == 0
  {
  }

  /** A century year is divisible by four. */
  lemma CenturyDivisibleByFour(year: int)
    requires year % 100 == 0
    ensures year % 4 == 0
  {
    var k := year / 100;
    assert year == 4 * (25 * k);
  }

  /** The rule departs from the Gregorian one exactly on centuries not divisible by 400 (1900, 2100, ...). */
  lemma IntercalaryIgnoresCenturyRule(year: int)
    ensures IsIntercalaryYear(year) != IsGregorianLeapYear(year) <==> year % 100 == 0 && year % 400 != 0
  {
    IntercalaryIffDivisibleByFour(year);
    if year % 100 == 0 {
      CenturyDivisibleByFour(year);
    }
  }

  /** 1900 is intercalary here though not a Gregorian leap year; 2000 and 2024 are both, 2023 neither. */
  lemma IntercalaryExamples()
    ensures IsIntercalaryYear(1900) && !IsGregorianLeapYear(1900)
    ensures IsIntercalaryYear(2000) && IsIntercalaryYear(2024) && !IsIntercalaryYear(2023)
  {
  }

  /**
   `getTimeIntercalary`: a quarter of the distance between the two years, cut
   to an integer (the cast truncates a non-negative quotient, which is the floor),
   minus one unless the second year is divisible by four.
   */
  function GetTimeIntercalary(from: int, to: int): (r: int)
    ensures to % 4 == 0 ==> r == Abs(from - to) / 4
    ensures to % 4 != 0 ==> r == Abs(from - to) / 4 - 1
    ensures r >= -1
  {
    Abs(from - to) / 4 + (if PhpRem4(to) == 0 then 0 else -1)
  }

  /** The count is not symmetric in its arguments, and is -1 for equal years not divisible by four. */
  lemma GetTimeIntercalaryAsymmetric()
    ensures GetTimeIntercalary(1, 0) == 0 && GetTimeIntercalary(0, 1) == -1
    ensures GetTimeIntercalary(2023, 2023) == -1
  {
  }

  /** Number of years divisible by four among `lo, lo + 1, ..., lo + n - 1`. */
  function CountLeap(lo: int, n: nat): (c: nat)
    ensures c <= n
    decreases n
  {
    if n == 0 then 0
    else (if lo % 4 == 0 then 1 else 0) + CountLeap(lo + 1, n - 1)
  }

  /** Closed form: multiples of four below `lo + n` minus those below `lo`. */
  lemma {:induction false} CountLeapClosedForm(lo: int, n: nat)
    ensures CountLeap(lo, n) == (lo + n - 1) / 4 - (lo - 1) / 4
    decreases n
  {
    if n > 0 {
      CountLeapClosedForm(lo + 1, n - 1);
      assert (lo - 1) / 4 + (if lo % 4 == 0 then 1 else 0) == lo / 4;
    }
  }

  /**
   The number of leap years (years divisible by four) from `from` up to, but
   not including, `to`, in whichever direction `to` lies. This is the count the
   documentation of `getTimeIntercalary` describes ("leap years in the span,
   not counting the current year").
   */
  function LeapYearsBetween(from: int, to: int): (r: nat)
    ensures r <= Abs(from - to)
    ensures from == to ==> r == 0
  {
    if from <= to then CountLeap(from, to - from) else CountLeap(to + 1, from - to)
  }

  /** The two agree whenever the end year is divisible by four. */
  lemma IntercalaryMatchesCountWhenEndIsLeap(from: int, to: int)
    requires to % 4 == 0
    ensures GetTimeIntercalary(from, to) == LeapYearsBetween(from, to)
  {
    if from <= to {
      CountLeapClosedForm(from, to - from);
      var k := to / 4;
      assert to == 4 * k;
      assert (to - 1) / 4 == k - 1;
      var c := (from + 3) / 4;
      assert (from - 1) / 4 == c - 1;
      assert (to - from) / 4 == k - c by {
        assert to - from == 4 * (k - c) + (4 * c - from);
        assert 0 <= 4 * c - from < 4;
      }
    } else {
      CountLeapClosedForm(to + 1, from - to);
      var k := to / 4;
      assert to == 4 * k;
      assert to / 4 == k;
      assert (from - to) / 4 == from / 4 - k by {
        assert from - to == 4 * (from / 4 - k) + from % 4;
      }
    }
  }

  /** Where the formula goes wrong: it can be negative, and undercounts when the end year is not divisible by four. */
  lemma IntercalaryCounterexamples()
    ensures GetTimeIntercalary(2023, 2023) == -1 && LeapYearsBetween(2023, 2023) == 0
    ensures GetTimeIntercalary(2001, 2005) == 0 && LeapYearsBetween(2001, 2005) == 1
  {
    CountLeapClosedForm(2001, 4);
  }
}
