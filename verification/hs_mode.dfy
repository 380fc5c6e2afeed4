/**
 `getHsMode` and the pairs of `date()` format strings the `hsMonth` ... `hsSecond`
 helpers choose between: a coarse one (the unit's own field only, e.g. month
 of year) and a fine one (the unit together with every larger field).
 */
module HsMode {

  const HS_MODE_C: string := "c"
  const HS_MODE_F: string := "f"

  /** `getHsMode($mode, $c, $f)`: the coarse string for mode 'c', the fine one for 'f' and for anything else. */
  function GetHsMode(mode: string, coarse: string, fine: string): (r: string)
    ensures mode == HS_MODE_C ==> r == coarse
    ensures mode != HS_MODE_C ==> r == fine
  {
    if mode == HS_MODE_C then coarse
    else if mode == HS_MODE_F then fine
    else fine
  }

  /** The units the `hs*` helpers compare (hsYear has no mode). */
  datatype Granularity = Month | Week | Day | Hours | Minute | Second

  /**
   The `date()` format letters the helpers use, ranked from the largest unit to
   the smallest: year, month, day of month, weekday, hour, minute, second.
   Any other character ranks -1.
   */
  function FieldRank(c: char): int {
    match c
    case 'Y' => 0
    case 'm' => 1
    case 'd' => 2
    case 'w' => 3
    case 'H' => 4
    case 'i' => 5
    case 's' => 6
    case _ => -1
  }

  /** The coarse format string each helper passes: one field below the year. */
  function CoarseFormat(g: Granularity): (r: string)
    ensures |r| == 1 && FieldRank(r[0]) > 0
  {
    match g
    case Month => "m"
    case Week => "w"
    case Day => "d"
    case Hours => "H"
    case Minute => "i"
    case Second => "s"
  }

  /**
   The fine format string each helper passes: date fields from the year down to
   the unit's own field, each at most once and largest first.
   */
  function FineFormat(g: Granularity): (r: string)
    ensures |r| >= 2 && r[0] == 'Y' && r[|r| - 1..] == CoarseFormat(g)
    ensures forall i, j :: 0 <= i < j < |r| ==> 0 <= FieldRank(r[i]) < FieldRank(r[j])
  {
    match g
    case Month => "Ym"
    case Week => "Ymdw"
    case Day => "Ymd"
    case Hours => "YmdH"
    case Minute => "YmdHi"
    case Second => "YmdHis"
  }

  /** The format string `hsMonth` ... `hsSecond` hand on for a given mode. */
  function HsFormat(g: Granularity, mode: string): (r: string)
    ensures mode == HS_MODE_C ==> |r| == 1 && r[0] == FineFormat(g)[|FineFormat(g)| - 1]
    ensures mode != HS_MODE_C ==> |r| >= 2 && r[0] == 'Y' && r[|r| - 1] == CoarseFormat(g)[0]
  {
    GetHsMode(mode, CoarseFormat(g), FineFormat(g))
  }

  /** Each coarse string is the last field of the fine one, and each fine string starts with the year. */
  lemma CoarseIsLastFieldOfFine(g: Granularity)
    ensures |FineFormat(g)| >= 2 && FineFormat(g)[0] == 'Y'
    ensures CoarseFormat(g) == FineFormat(g)[|FineFormat(g)| - 1..]
  {
  }

  /** The fine strings nest: each finer unit extends the previous one by one field (the week adds the weekday to the day). */
  lemma FineFormatsNest()
    ensures FineFormat(Day) == FineFormat(Month) + "d"
    ensures FineFormat(Hours) == FineFormat(Day) + "H"
    ensures FineFormat(Minute) == FineFormat(Hours) + "i"
    ensures FineFormat(Second) == FineFormat(Minute) + "s"
    ensures FineFormat(Week) == FineFormat(Day) + "w"
  {
  }

  /** Only the exact string "c" selects the coarse format; "f", "" and "C" all give the fine one. */
  lemma ModeExamples(g: Granularity)
    ensures HsFormat(g, "c") == CoarseFormat(g)
    ensures HsFormat(g, "f") == FineFormat(g) && HsFormat(g, "") == FineFormat(g) && HsFormat(g, "C") == FineFormat(g)
  {
  }
}
