# Calendar rules of rapidPHP, modelled in Dafny

The `Calendar` class of rapidPHP (`rapidPHP/library/Calendar.class.php`) is a
date helper that mostly hands work to PHP's `date()` and `strtotime()`. This
project models the rules in it that do not depend on those calls. Each rule is
a pure function over integers and strings. The wall clock (`time()`), the
parsed timestamp and the year that `date('Y', ·)` would print are explicit
parameters.

- `formatSecond` (module `Durations`). It renders a number of seconds in the
  largest unit of a threshold => label table (`TIME_NAMES`, module `TimeUnits`).
  The `krsort` of the PHP array is a functional insertion sort. The earlier
  `ksort` is not modelled, because it only reorders the array and the
  `$unitString[0]` lookup after it does not depend on the order. The
  `foreach` is modelled literally on the sorted table. The result is proved to
  be the count of the largest positive key that is at most the input, or null
  when there is none. Below 60 seconds the result is the raw count with the
  label at key 0.
- `isIntercalaryYear` and `getTimeIntercalary` (module `LeapYear`). PHP's
  truncating `%` is written out. The model proves how the bare divide-by-four
  rule departs from the Gregorian rule. It also compares `getTimeIntercalary`
  with an independent count of leap years (see Findings).
- The smart-year token of `format` (module `SmartYear`). The presence test is
  the case-sensitive `strpos($format, 'AY')`. The rewrite is `preg_replace` with
  `#AY(\(.*\)|)#i` and is modelled with its PCRE semantics:
  - it is case-insensitive;
  - it replaces every match from the left;
  - the greedy `.*` runs to the last `)` of the line;
  - `.` does not match a newline;
  - an unset group 2 reads as the empty string.

  The "same year" decision uses `getDate`'s `$time ? $time : time()` fallback.
  So a timestamp of 0, or a failed parse, counts as the current year.
- `getHsMode` and the coarse/fine format strings of `hsMonth` … `hsSecond`
  (module `HsMode`).
- `isPassTime` and `isPassYear` … `isPassSecond` (module `PassTime`). A date
  `strtotime` cannot parse is `None`. PHP then compares `false >= now + limit`
  as booleans, which holds only when `now + limit` is 0.

Where the documentation and the code differ, the model follows the code. The
helpers `hsYear` … `hsSecond` are documented as comparing two dates at a
granularity. In the code they call `hsTime($default, $to, $format)`, but
`hsTime` is declared as `($default, $format, $to)`. For that reason only the
choice of format string is modelled (see Left out).

## Model

| member | source | states |
|---|---|---|
| `TimeUnits.DerivedDurations` | rapidPHP/library/Calendar.class.php:14-44 | an hour is 60 minutes, a day 24 hours, a week 7 days, a month 30 days, a year 365 days and a leap year one day more (31622400 s vs 31536000 s) |
| `TimeUnits.DefaultTableOrdered` | rapidPHP/library/Calendar.class.php:49-57 | the default unit table starts at key 0 and its keys strictly increase, so they are distinct |
| `Decimal.FromInt` | rapidPHP/library/Calendar.class.php:164 | an integer concatenated into a string is written as its canonical digits (no leading zero), with a leading minus sign when it is negative |
| `Decimal.IntRoundTrip` | rapidPHP/library/Calendar.class.php:173 | the printed count reads back as the integer it came from |
| `Durations.SortDescending` | rapidPHP/library/Calendar.class.php:166 | `krsort` leaves the same entries (as a multiset) in non-increasing key order |
| `Durations.LabelAt` | rapidPHP/library/Calendar.class.php:164 | the array lookup `$unitString[$key]` finds the entry with that key, or reports that no entry has it |
| `Durations.LabelAtZero` | rapidPHP/library/Calendar.class.php:164 | the label read for seconds is the one stored at key 0, and "" (PHP null) when key 0 is missing |
| `Durations.ScanDescending` | rapidPHP/library/Calendar.class.php:168-176 | the `foreach` skips keys <= 0 and returns the count and label of the first entry, in table order, whose positive key is at most `second`; it returns null only when no entry fits |
| `Durations.QuotientAtLeastOne` | rapidPHP/library/Calendar.class.php:171-173 | `floor(second / T) >= 1` holds exactly when T <= second, for a positive T |
| `Durations.ScanNone` | rapidPHP/library/Calendar.class.php:168-176 | the descending scan returns null exactly when no key is both positive and at most `second` |
| `Durations.ScanFindsBest` | rapidPHP/library/Calendar.class.php:168-174 | on a descending table the scan stops at the entry with the largest positive key at most `second` and prints its quotient and label |
| `Durations.ScanOfSortedTable` | rapidPHP/library/Calendar.class.php:166-176 | scanning the `krsort`ed table gives the best entry of the original table, whatever order its entries had |
| `Durations.FormatSecond` | rapidPHP/library/Calendar.class.php:160-177 | below 60 (negatives too): the count then the label at key 0, whatever else the table holds; from 60: `floor(second/T)` (at least 1) then T's label, for the largest positive key T <= second; null exactly when no positive key fits |
| `Durations.LargestFitting` | rapidPHP/library/Calendar.class.php:49-57 | for the default table and `second >= 60`, names the best entry: year, month, week, day, hour or minute by range |
| `Durations.DefaultTablePicks` | rapidPHP/library/Calendar.class.php:166-174 | with the default table, from one minute on, the result is the count (at least 1) in the unit of that range |
| `Durations.DefaultTableNeverNull` | rapidPHP/library/Calendar.class.php:162-176 | with the default table the result is never null |
| `Durations.Example45Seconds` | rapidPHP/library/Calendar.class.php:164 | 45 seconds are printed "45秒" |
| `Durations.ExampleNegativeSeconds` | rapidPHP/library/Calendar.class.php:164 | -5 is below the cut-off and printed "-5秒" |
| `LeapYear.PhpRem4` | rapidPHP/library/Calendar.class.php:187 | PHP's `% 4` keeps the dividend's sign and is zero exactly when the year is divisible by four |
| `LeapYear.IsIntercalaryYear` | rapidPHP/library/Calendar.class.php:221 | a year is intercalary exactly when it is divisible by four |
| `LeapYear.IntercalaryIffDivisibleByFour` | rapidPHP/library/Calendar.class.php:221 | `isIntercalaryYear` holds iff the year is divisible by four, negative years included |
| `LeapYear.IntercalaryIgnoresCenturyRule` | rapidPHP/library/Calendar.class.php:221 | the rule differs from the Gregorian one exactly on centuries not divisible by 400 |
| `LeapYear.IntercalaryExamples` | rapidPHP/library/Calendar.class.php:213-222 | 1900 counts as a leap year although it is not a Gregorian one; 2000 and 2024 are leap years and 2023 is not |
| `LeapYear.GetTimeIntercalary` | rapidPHP/library/Calendar.class.php:185-188 | `floor(abs(from-to)/4)` when `to % 4 == 0`, one less otherwise, so never below -1 |
| `LeapYear.GetTimeIntercalaryAsymmetric` | rapidPHP/library/Calendar.class.php:187 | swapping the arguments changes the result (0 vs -1 for years 1 and 0), and equal years not divisible by four give -1 |
| `LeapYear.CountLeapClosedForm` | rapidPHP/library/Calendar.class.php:180 | the number of multiples of four in a run of consecutive years is the difference of two floored quotients |
| `LeapYear.LeapYearsBetween` | rapidPHP/library/Calendar.class.php:180-188 | the documented count (leap years from `from` up to `to`, not counting `to`) is non-negative, at most the span, and 0 for equal years |
| `LeapYear.IntercalaryMatchesCountWhenEndIsLeap` | rapidPHP/library/Calendar.class.php:187 | when `to` is divisible by four the formula equals that count in both directions |
| `LeapYear.IntercalaryCounterexamples` | rapidPHP/library/Calendar.class.php:187 | for other `to` it does not: equal years 2023 give -1 instead of 0, and 2001 to 2005 give 0 although 2004 lies between |
| `PassTime.BoolAtLeastInt` | rapidPHP/library/Calendar.class.php:356 | `false`/`true >= int` converts the integer to bool and compares with false < true |
| `PassTime.IsPassTime` | rapidPHP/library/Calendar.class.php:352-357 | a parsed date passes iff it lies at least `limit` seconds after now; an unparsable one passes only when `limit == -now` |
| `PassTime.IsPassTimeAntitone` | rapidPHP/library/Calendar.class.php:356 | for a parsed date, passing a limit implies passing every smaller limit |
| `PassTime.UnparsedDateNotAntitone` | rapidPHP/library/Calendar.class.php:354-356 | an unparsable date passes the limit `-now` but not the limit below it, so the test is not antitone there |
| `PassTime.YearLimit` | rapidPHP/library/Calendar.class.php:366 | 366 days when the current year is intercalary, 365 otherwise |
| `PassTime.IsPassYear` | rapidPHP/library/Calendar.class.php:364-369 | a parsed date passes iff it is at least 31622400 s ahead when the current year is divisible by four, and at least 31536000 s otherwise; an unparsable one passes only when now is minus that limit |
| `PassTime.IsPassMonth` | rapidPHP/library/Calendar.class.php:376-379 | a parsed date passes iff it is at least 30 days ahead; an unparsable one passes only when now is minus that limit |
| `PassTime.IsPassWeek` | rapidPHP/library/Calendar.class.php:387-390 | a parsed date passes iff it is at least 7 days ahead; an unparsable one passes only when now is minus that limit |
| `PassTime.IsPassDay` | rapidPHP/library/Calendar.class.php:397-400 | a parsed date passes iff it is at least one day ahead; an unparsable one passes only when now is minus that limit |
| `PassTime.IsPassHours` | rapidPHP/library/Calendar.class.php:407-410 | a parsed date passes iff it is at least one hour ahead; an unparsable one passes only when now is minus that limit |
| `PassTime.IsPassMinute` | rapidPHP/library/Calendar.class.php:417-420 | a parsed date passes iff it is at least one minute ahead; an unparsable one passes only when now is minus that limit |
| `PassTime.IsPassSecond` | rapidPHP/library/Calendar.class.php:428-431 | passes iff the date is at least the caller's number of seconds ahead |
| `PassTime.PassChain` | rapidPHP/library/Calendar.class.php:364-420 | for a parsed date, passing the year test implies passing the month, week, day, hour and minute tests in turn |
| `PassTime.UnparsedDateChainBreaks` | rapidPHP/library/Calendar.class.php:397-410 | for an unparsable date that chain fails: the day test can pass while the hour test fails |
| `HsMode.GetHsMode` | rapidPHP/library/Calendar.class.php:260-271 | mode 'c' selects the coarse string; 'f' and every other mode select the fine one |
| `HsMode.CoarseFormat` | rapidPHP/library/Calendar.class.php:282-343 | each helper's coarse string is a single date field below the year |
| `HsMode.FineFormat` | rapidPHP/library/Calendar.class.php:282-343 | each helper's fine string starts with the year, ends with the coarse field, and lists date fields largest first, each once |
| `HsMode.HsFormat` | rapidPHP/library/Calendar.class.php:280-343 | the coarse choice is the single last field of the fine string; the fine choice starts with the year and ends with the unit's field |
| `HsMode.CoarseIsLastFieldOfFine` | rapidPHP/library/Calendar.class.php:282-343 | m/Ym, w/Ymdw, d/Ymd, H/YmdH, i/YmdHi, s/YmdHis: each coarse string is the last character of the fine one, which starts with Y |
| `HsMode.FineFormatsNest` | rapidPHP/library/Calendar.class.php:282-343 | each finer fine string extends the previous one by one field, and the week adds the weekday to the day |
| `HsMode.ModeExamples` | rapidPHP/library/Calendar.class.php:256-271 | only the exact "c" selects the coarse string; "f", "" and "C" give the fine one |
| `SmartYear.Strpos` | rapidPHP/library/Calendar.class.php:101 | `strpos` returns the first index where the needle occurs, or false when it occurs nowhere |
| `SmartYear.LineEnd` | rapidPHP/library/Calendar.class.php:103 | the line ends at the first newline (which `.` cannot match) or at the end of the format |
| `SmartYear.LastClose` | rapidPHP/library/Calendar.class.php:103-105 | finds the last `)` in a range, or reports that there is none |
| `SmartYear.MatchAt` | rapidPHP/library/Calendar.class.php:103-105 | a match is `AY` plus `(` … the last `)` before the line's end, with no newline inside; with no such `)` it is `AY` alone and group 2 is empty |
| `SmartYear.Replacement` | rapidPHP/library/Calendar.class.php:103-105 | a match is replaced by the template '' in the current year and 'Y$2' otherwise, with `$2` expanded to group 2 |
| `SmartYear.ReplaceTokens` | rapidPHP/library/Calendar.class.php:103-105 | the global replacement never lengthens the format, and outside the current year leaves a nonempty format nonempty |
| `SmartYear.RewriteFormat` | rapidPHP/library/Calendar.class.php:101-107 | a format without the case-sensitive `AY` is returned unchanged; otherwise every match is rewritten |
| `SmartYear.EffectiveTime` | rapidPHP/library/Calendar.class.php:119-122 | `getDate` uses the given time unless it is 0 or false, and then uses now |
| `SmartYear.FormatPattern` | rapidPHP/library/Calendar.class.php:97-107 | the format handed to `date()`: the token is deleted when the date's year equals now's (always for 0 or a failed parse) and rewritten otherwise |
| `SmartYear.NoTokenUnchanged` | rapidPHP/library/Calendar.class.php:103-105 | a format with no `AY` in any letter case passes through `preg_replace` unchanged |
| `SmartYear.PrefixCopied` | rapidPHP/library/Calendar.class.php:103-105 | text before the first match is copied unchanged |
| `SmartYear.SingleTokenWithSuffix` | rapidPHP/library/Calendar.class.php:101-107 | `pre AY(inner) post` with no token in pre or post and no `)` in post becomes `pre post` in the current year and `pre Y inner post` otherwise |
| `SmartYear.SingleTokenWithoutSuffix` | rapidPHP/library/Calendar.class.php:101-107 | `pre AY post` with no suffix becomes `pre post` in the current year and `pre Y post` otherwise |
| `SmartYear.GreedySuffixExample` | rapidPHP/library/Calendar.class.php:105 | the suffix runs to the last `)`: "AY(a)b)c" becomes "Ya)bc" |
| `SmartYear.GreedySuffixSameYearExample` | rapidPHP/library/Calendar.class.php:103 | in the current year "AY(a)b)c" becomes "c" |
| `SmartYear.NewlineEndsSuffixExample` | rapidPHP/library/Calendar.class.php:103 | a `)` on the next line does not close the suffix: "AY(x\n)" becomes "(x\n)" |
| `SmartYear.LowerCaseAloneExample` | rapidPHP/library/Calendar.class.php:101 | a format holding only a lower-case "ay" is not touched |
| `SmartYear.LowerCaseAlongExample` | rapidPHP/library/Calendar.class.php:101-105 | once an upper-case "AY" is present, "ay" is rewritten too: "AY-ay" becomes "Y-Y" |

## Left out

- `date()` and `strtotime()` are left out: the formatting inside `format` and `getDate`, and the parsing in `dateToTime`. These are library calls that depend on the timezone database. Timestamps are `Option<int>` parameters, and the year that `date('Y', ·)` prints is the function parameter `yearOf`.
- `setZone`, `getInstance` and the constructor are left out. They only manage the process-wide timezone and the singleton.
- `getDateWeekName` is left out. It delegates to the helper `B()->getData`, which is not part of this model.
- `hsTime` and the comparisons in `hsYear` … `hsSecond` are left out. The helpers pass `($default, $to, $format)` to `hsTime($default, $format, $to)`, and the result rests on `date()`. Only the choice of format string (`getHsMode` and the literals) is modelled.
- `getTimeToTimeDay` is left out. It mutates its arguments by reference, round-trips through `strtotime`, and returns a float.
- The wall clock `time()` is the parameter `now`. `format` reads the clock twice; the model treats both reads as one instant.
- `Durations.FormatSecond`: PHP's `floor()` returns a float. The model prints the exact integer quotient. The two differ for quotients of 10^14 and above at the default `precision` of 14 (PHP then prints an exponent, e.g. "1.0E+14"), and for inputs beyond 2^53. Table keys are integers only; string keys are not modelled.
- `Durations.LabelAtZero`: reading the missing key 0 raises an E_WARNING in PHP 8 before yielding null. The model yields "" and does not model the warning.
- `LeapYear.GetTimeIntercalary`: 64-bit overflow and the float precision of `/ 4` on huge inputs are not modelled.
- `PassTime.IsPassTime`: overflow of `time() + $limit` into a float is not modelled, and neither are limits that are not integers.
- `HsMode.GetHsMode`: the mode is a string. PHP's loose `switch` comparison on other types (for example `true == 'c'`) is not modelled.
- `SmartYear.MatchAt`: the pattern has no `u` flag, so PCRE works on bytes. The model works on characters. The two agree because the pattern's literals `A`, `Y`, `(`, `)` and the newline are ASCII.

## Findings

| source | as written | input that shows it | evidently intended | confidence | as-written member | corrected member |
|---|---|---|---|---|---|---|
| rapidPHP/library/Calendar.class.php:187 | `(int)abs(($from - $to) / 4) + ($to % 4 == 0 ? 0 : -1)` | `from = to = 2023` gives -1. `from = 2001, to = 2005` gives 0, although 2004 lies between. | the number of leap years from `from` up to `to`, not counting `to` (the doc comment on line 180); never negative | medium, not executed | `LeapYear.IntercalaryCounterexamples` | `LeapYear.LeapYearsBetween` |

`LeapYear.IntercalaryMatchesCountWhenEndIsLeap` proves that the formula and the
corrected count agree whenever `to` is divisible by four. The corrected count
is never negative, which `LeapYear.LeapYearsBetween` proves.
