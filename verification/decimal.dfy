/**
 Decimal rendering of integers, as PHP produces it when an integer is
 concatenated with a string: an optional minus sign
 followed by the digits, without leading zeros.
 */
module Decimal {
  import opened Wrappers

  predicate IsDigit(c: char) {
    '0' <= c <= '9'
  }

  predicate AllDigits(s: string) {
    forall k :: 0 <= k < |s| ==> IsDigit(s[k])
  }

  function DigitChar(d: int): (c: char)
    requires 0 <= d < 10
    ensures IsDigit(c)
  {
    (('0' as int) + d) as char
  }

  function DigitValue(c: char): (d: int)
    requires IsDigit(c)
    ensures 0 <= d < 10
  {
    (c as int) - ('0' as int)
  }

  /** The digits of `n`, most significant first. */
  function FromNat(n: nat): (s: string)
    ensures |s| >= 1 && AllDigits(s)
    ensures |s| > 1 ==> s[0] != '0'
    decreases n
  {
    if n < 10 then [DigitChar(n)]
    else FromNat(n / 10) + [DigitChar(n % 10)]
  }

  /** PHP's string form of an integer. */
  function FromInt(n: int): (s: string)
    ensures |s| >= 1
    ensures n >= 0 ==> AllDigits(s) && s == FromNat(n)
    ensures n < 0 ==> s[0] == '-' && AllDigits(s[1..]) && s[1..] == FromNat(-n)
    ensures |s| > 1 && s[0] != '-' ==> s[0] != '0'
    ensures n < 0 && |s| > 2 ==> s[1] != '0'
  {
    if n < 0 then "-" + FromNat(-n) else FromNat(n)
  }

  /** The value of a digit string (the empty string reads as 0). */
  function ToNat(s: string): nat
    requires AllDigits(s)
  {
    if |s| == 0 then 0
    else ToNat(s[..|s| - 1]) * 10 + DigitValue(s[|s| - 1])
  }

  /** Reads an optionally negative decimal numeral; None when it is not one. */
  function ToInt(s: string): Option<int> {
    if |s| >= 2 && s[0] == '-' && AllDigits(s[1..]) then Some(-(ToNat(s[1..]) as int))
    else if |s| >= 1 && AllDigits(s) then Some(ToNat(s) as int)
    else None
  }

  /** Reading back the digits of `n` gives `n`. */
  lemma {:induction false} NatRoundTrip(n: nat)
    ensures ToNat(FromNat(n)) == n
    decreases n
  {
    if n >= 10 {
      var s := FromNat(n);
      var p := FromNat(n / 10);
      assert s == p + [DigitChar(n % 10)];
      assert s[..|s| - 1] == p;
      NatRoundTrip(n / 10);
    }
  }

  /** A negative integer renders as a minus sign followed by the digits of its magnitude. */
  lemma NegativeShape(n: int)
    requires n < 0
    ensures |FromInt(n)| >= 2 && FromInt(n)[0] == '-'
    ensures FromInt(n)[1..] == FromNat(-n)
  {
    assert FromInt(n) == "-" + FromNat(-n);
  }

  /** The rendering of an integer is a numeral that reads back as that integer. */
  lemma IntRoundTrip(n: int)
    ensures ToInt(FromInt(n)) == Some(n)
  {
    var s := FromInt(n);
    if n < 0 {
      NegativeShape(n);
      NatRoundTrip(-n);
      assert AllDigits(s[1..]);
      assert ToInt(s) == Some(-(ToNat(s[1..]) as int));
    } else {
      NatRoundTrip(n);
      assert s[0] != '-' by {
        assert IsDigit(s[0]);
      }
      assert ToInt(s) == Some(ToNat(s) as int);
    }
  }
}
