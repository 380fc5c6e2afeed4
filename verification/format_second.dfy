/**
 `formatSecond`: renders a number of seconds in the largest unit of a
 threshold => label table that fits, e.g. 3661 => "1小时".
 */
module Durations {
  import opened Wrappers
  import opened TimeUnits
  import Decimal

  /** Thresholds never increase from left to right (the order `krsort` leaves). */
  ghost predicate SortedDescending(s: Table) {
    forall i, j :: 0 <= i < j < |s| ==> s[i].threshold >= s[j].threshold
  }

  /** Inserts `u` into a table sorted by descending threshold. */
  function Insert(u: Unit, s: Table): (r: Table)
    requires SortedDescending(s)
    ensures |r| == |s| + 1
    ensures r[0] == u || (|s| > 0 && r[0] == s[0])
    ensures SortedDescending(r)
    ensures multiset(r) == multiset(s) + multiset{u}
    decreases |s|
  {
    if |s| == 0 then [u]
    else if u.threshold >= s[0].threshold then [u] + s
    else
      var rest := Insert(u, s[1..]);
      assert s == [s[0]] + s[1..];
      assert s[0].threshold >= rest[0].threshold by {
        if rest[0] != u {
          assert rest[0] == s[1];
        }
      }
      [s[0]] + rest
  }

  /** `krsort`: the table reordered by descending key. */
  function SortDescending(t: Table): (r: Table)
    ensures SortedDescending(r)
    ensures multiset(r) == multiset(t)
    decreases |t|
  {
    if |t| == 0 then []
    else
      assert t == [t[0]] + t[1..];
      Insert(t[0], SortDescending(t[1..]))
  }

  /** The label stored at `key`, None when the table has no such key. */
  function LabelAt(t: Table, key: int): (r: Option<string>)
    ensures r.Some? ==> Unit(key, r.value) in t
    ensures r.None? ==> forall u :: u in t ==> u.threshold != key
    decreases |t|
  {
    if |t| == 0 then None
    else if t[0].threshold == key then Some(t[0].name)
    else
      var r := LabelAt(t[1..], key);
      assert forall u :: u in t ==> u == t[0] || u in t[1..];
      r
  }

  /** `$unitString[0]`: a missing key reads as PHP null, which concatenates as "". */
  function LabelAtZero(t: Table): (r: string)
    requires DistinctKeys(t)
    ensures forall s :: Unit(0, s) in t ==> r == s
    ensures (forall u :: u in t ==> u.threshold != 0) ==> r == ""
  {
    var l := LabelAt(t, 0);
    assert forall s, s' :: Unit(0, s) in t && Unit(0, s') in t ==> s == s' by {
      forall s, s' | Unit(0, s) in t && Unit(0, s') in t
        ensures s == s'
      {
        var i :| 0 <= i < |t| && t[i] == Unit(0, s);
        var j :| 0 <= j < |t| && t[j] == Unit(0, s');
      }
    }
    l.GetOr("")
  }

  /** Some positive threshold of the table is at most `second`. */
  ghost predicate HasCandidate(t: Table, second: int) {
    exists u :: u in t && 0 < u.threshold <= second
  }

  /** `u` is the entry with the largest positive threshold that is at most `second`. */
  ghost predicate IsBest(t: Table, u: Unit, second: int) {
    && u in t
    && 0 < u.threshold <= second
    && forall v :: v in t && 0 < v.threshold <= second ==> v.threshold <= u.threshold
  }

  /** The text for `second` counted in unit `u`: `floor(second / threshold)` then the label. */
  function Rendered(second: int, u: Unit): string
    requires u.threshold > 0
  {
    Decimal.FromInt(second / u.threshold) + u.name
  }

  /** Index `i` holds the first entry of `t` with a positive threshold that is at most `second`. */
  ghost predicate FirstFit(t: Table, second: int, i: int) {
    && 0 <= i < |t|
    && 0 < t[i].threshold <= second
    && forall j :: 0 <= j < i ==> !(0 < t[j].threshold <= second)
  }

  /**
   The `foreach` over the `krsort`ed table: skip keys <= 0, stop at the first
   whose quotient is >= 1. In whatever order the table comes, the result is the
   rendering in the first fitting entry, and null when no entry fits.
   */
  function ScanDescending(sorted: Table, second: int): (r: Option<string>)
    ensures r.Some? ==> exists i :: FirstFit(sorted, second, i) && r.value == Rendered(second, sorted[i])
    ensures r.None? ==> forall i :: 0 <= i < |sorted| ==> !(0 < sorted[i].threshold <= second)
    decreases |sorted|
  {
    if |sorted| == 0 then None
    else
      var u := sorted[0];
      FirstFitInTail(sorted, second);
      if u.threshold <= 0 then ScanDescending(sorted[1..], second)
      else
        QuotientAtLeastOne(second, u.threshold);
        if second / u.threshold >= 1 then
          assert FirstFit(sorted, second, 0);
          Some(Rendered(second, u))
        else ScanDescending(sorted[1..], second)
  }

  /** When the head does not fit, the first fit of the tail is the first fit of the whole table, one place on. */
  lemma FirstFitInTail(t: Table, second: int)
    requires |t| > 0
    ensures !(0 < t[0].threshold <= second) ==>
              forall i :: FirstFit(t[1..], second, i) ==> FirstFit(t, second, i + 1)
  {
  }

  /** For a positive divisor, the floored quotient is at least 1 exactly when the divisor fits. */
  lemma QuotientAtLeastOne(a: int, d: int)
    requires d > 0
    ensures a / d >= 1 <==> d <= a
  {
    var q, m := a / d, a % d;
    assert a == d * q + m && 0 <= m < d;
    if q >= 1 {
      assert d * q >= d;
    } else {
      assert d * q <= 0;
    }
  }

  /** On a descending table the scan finds nothing exactly when no positive threshold fits. */
  lemma {:induction false} ScanNone(sorted: Table, second: int)
    ensures ScanDescending(sorted, second).None? <==> !HasCandidate(sorted, second)
    decreases |sorted|
  {
    if |sorted| > 0 {
      var u, rest := sorted[0], sorted[1..];
      ScanNone(rest, second);
      if u.threshold > 0 {
        QuotientAtLeastOne(second, u.threshold);
      }
      if HasCandidate(sorted, second) && !(0 < u.threshold <= second) {
        var v :| v in sorted && 0 < v.threshold <= second;
        var k :| 0 <= k < |sorted| && sorted[k] == v;
        assert rest[k - 1] == v;
      }
      if HasCandidate(rest, second) {
        var v :| v in rest && 0 < v.threshold <= second;
        var k :| 0 <= k < |rest| && rest[k] == v;
        assert sorted[k + 1] == v;
      }
    }
  }

  /** The head of a descending table is the best entry as soon as it fits. */
  lemma HeadIsBest(sorted: Table, second: int)
    requires SortedDescending(sorted)
    requires |sorted| > 0 && 0 < sorted[0].threshold <= second
    ensures IsBest(sorted, sorted[0], second)
  {
    forall v | v in sorted && 0 < v.threshold <= second
      ensures v.threshold <= sorted[0].threshold
    {
      var k :| 0 <= k < |sorted| && sorted[k] == v;
    }
  }

  /** When the head does not fit, the best entry of the tail is the best of the whole table. */
  lemma TailBestIsBest(sorted: Table, b: Unit, second: int)
    requires |sorted| > 0 && !(0 < sorted[0].threshold <= second)
    requires IsBest(sorted[1..], b, second)
    ensures IsBest(sorted, b, second)
  {
    var rest := sorted[1..];
    forall v | v in sorted && 0 < v.threshold <= second
      ensures v.threshold <= b.threshold
    {
      var k :| 0 <= k < |sorted| && sorted[k] == v;
      assert rest[k - 1] == v;
    }
    var kb :| 0 <= kb < |rest| && rest[kb] == b;
    assert sorted[kb + 1] == b;
  }

  /** When the head does not fit, a fitting entry lies in the tail. */
  lemma TailHasCandidate(sorted: Table, second: int)
    requires |sorted| > 0 && !(0 < sorted[0].threshold <= second)
    requires HasCandidate(sorted, second)
    ensures HasCandidate(sorted[1..], second)
  {
    var w :| w in sorted && 0 < w.threshold <= second;
    var kw :| 0 <= kw < |sorted| && sorted[kw] == w;
    assert sorted[1..][kw - 1] == w;
  }

  /** On a descending table the scan stops at the entry with the largest fitting positive threshold. */
  lemma {:induction false} ScanFindsBest(sorted: Table, second: int)
    requires SortedDescending(sorted)
    requires HasCandidate(sorted, second)
    ensures exists b :: IsBest(sorted, b, second) && ScanDescending(sorted, second) == Some(Rendered(second, b))
    decreases |sorted|
  {
    var u := sorted[0];
    if u.threshold > 0 {
      QuotientAtLeastOne(second, u.threshold);
    }
    if 0 < u.threshold <= second {
      HeadIsBest(sorted, second);
      assert ScanDescending(sorted, second) == Some(Rendered(second, u));
    } else {
      TailHasCandidate(sorted, second);
      ScanFindsBest(sorted[1..], second);
      var b :| IsBest(sorted[1..], b, second) && ScanDescending(sorted[1..], second) == Some(Rendered(second, b));
      TailBestIsBest(sorted, b, second);
      assert ScanDescending(sorted, second) == ScanDescending(sorted[1..], second);
    }
  }

  /** With unique keys there is at most one best entry. */
  lemma BestIsUnique(t: Table, u: Unit, v: Unit, second: int)
    requires DistinctKeys(t)
    requires IsBest(t, u, second) && IsBest(t, v, second)
    ensures u == v
  {
    var i :| 0 <= i < |t| && t[i] == u;
    var j :| 0 <= j < |t| && t[j] == v;
  }

  /** Sorting keeps exactly the same entries. */
  lemma SortKeepsEntries(t: Table, v: Unit)
    ensures v in SortDescending(t) <==> v in t
  {
    var r := SortDescending(t);
    assert v in r <==> v in multiset(r);
    assert v in t <==> v in multiset(t);
  }

  /** Fitting and being best depend only on the entries, not on their order. */
  lemma SortKeepsBest(t: Table, second: int)
    ensures HasCandidate(SortDescending(t), second) <==> HasCandidate(t, second)
    ensures forall b :: IsBest(SortDescending(t), b, second) <==> IsBest(t, b, second)
  {
    var r := SortDescending(t);
    forall v
      ensures v in r <==> v in t
    {
      SortKeepsEntries(t, v);
    }
  }

  /** The descending scan of the sorted table picks the best entry of the original table. */
  lemma ScanOfSortedTable(table: Table, second: int)
    requires DistinctKeys(table)
    ensures ScanDescending(SortDescending(table), second).None? <==> !HasCandidate(table, second)
    ensures forall u :: IsBest(table, u, second) ==>
              second / u.threshold >= 1 && ScanDescending(SortDescending(table), second) == Some(Rendered(second, u))
  {
    var sorted := SortDescending(table);
    SortKeepsBest(table, second);
    ScanNone(sorted, second);
    forall u | IsBest(table, u, second)
      ensures second / u.threshold >= 1 && ScanDescending(sorted, second) == Some(Rendered(second, u))
    {
      ScanFindsBest(sorted, second);
      var b :| IsBest(sorted, b, second) && ScanDescending(sorted, second) == Some(Rendered(second, b));
      BestIsUnique(table, u, b, second);
      QuotientAtLeastOne(second, u.threshold);
    }
  }

  /**
   `formatSecond($second, $unitString)`. Below one minute (`TIME_MINUTE`, not a table
   entry) it prints the count with the label at key 0; otherwise it prints
   `floor(second / T)` with the label of the largest positive key T <= second, and
   returns null when there is none.
   */
  function FormatSecond(second: int, table: Table): (r: Option<string>)
    requires DistinctKeys(table)
    ensures second < TIME_MINUTE ==> r == Some(Decimal.FromInt(second) + LabelAtZero(table))
    ensures second >= TIME_MINUTE ==> (r.None? <==> !HasCandidate(table, second))
    ensures second >= TIME_MINUTE ==>
              forall u :: IsBest(table, u, second) ==>
                second / u.threshold >= 1 && r == Some(Rendered(second, u))
  {
    if second < TIME_MINUTE then Some(Decimal.FromInt(second) + LabelAtZero(table))
    else
      ScanOfSortedTable(table, second);
      ScanDescending(SortDescending(table), second)
  }

  /** The default entry chosen for `second >= 60`. */
  function LargestFitting(second: int): (u: Unit)
    requires second >= TIME_MINUTE
    ensures IsBest(TIME_NAMES, u, second)
  {
    var t := TIME_NAMES;
    if second >= TIME_YEAR then t[6]
    else if second >= TIME_MONTH then t[5]
    else if second >= TIME_WEEK then t[4]
    else if second >= TIME_DAY then t[3]
    else if second >= TIME_HOURS then t[2]
    else t[1]
  }

  /** From one minute on, the default table prints a count of at least 1 in the unit `LargestFitting` names. */
  lemma DefaultTablePicks(second: int)
    requires second >= TIME_MINUTE
    ensures FormatSecond(second, TIME_NAMES) == Some(Rendered(second, LargestFitting(second)))
    ensures second / LargestFitting(second).threshold >= 1
  {
    DefaultTableOrdered();
    QuotientAtLeastOne(second, LargestFitting(second).threshold);
  }

  /** With the default table the result is never null. */
  lemma DefaultTableNeverNull(second: int)
    ensures FormatSecond(second, TIME_NAMES).Some?
  {
    DefaultTableOrdered();
    if second >= TIME_MINUTE {
      DefaultTablePicks(second);
    }
  }

  /** Worked value: 45 seconds stay in seconds. */
  lemma Example45Seconds()
    ensures FormatSecond(45, TIME_NAMES) == Some("45秒")
  {
    DefaultTableOrdered();
    assert TIME_NAMES[0] == Unit(0, "秒");
    assert LabelAtZero(TIME_NAMES) == "秒";
    assert Decimal.FromInt(45) == "45";
    assert "45" + "秒" == "45秒";
  }

  /** Worked value: a negative count is also printed in seconds. */
  lemma ExampleNegativeSeconds()
    ensures FormatSecond(-5, TIME_NAMES) == Some("-5秒")
  {
    DefaultTableOrdered();
    assert TIME_NAMES[0] == Unit(0, "秒");
    assert LabelAtZero(TIME_NAMES) == "秒";
    assert Decimal.FromInt(-5) == "-5";
    assert "-5" + "秒" == "-5秒";
  }
}
