/**
 * Decimal text of Java `int` values, as produced when an `int` is appended
 * to a `String` (`Integer.toString`): an optional minus sign followed by
 * the digits of the magnitude, without leading zeros.
 */
module Decimal {
  import opened Wrappers

  predicate IsDigit(c: char) {
    '0' <= c <= '9'
  }

  predicate AllDigits(s: string) {
    forall i :: 0 <= i < |s| ==> IsDigit(s[i])
  }

  function DigitChar(d: nat): (c: char)
    requires d < 10
    ensures IsDigit(c)
  {
    ('0' as int + d) as char
  }

  function DigitValue(c: char): (d: nat)
    requires IsDigit(c)
    ensures d < 10 && DigitChar(d) == c
  {
    c as int - '0' as int
  }

  /** The digits of `n`, most significant first. */
  function NatToDecimal(n: nat): (r: string)
    ensures |r| >= 1 && AllDigits(r)
    ensures r[0] == '0' ==> n == 0 && r == "0"
    decreases n
  {
    if n < 10 then [DigitChar(n)] else NatToDecimal(n / 10) + [DigitChar(n % 10)]
  }

  /** The number a string of digits denotes. */
  function DecimalValue(s: string): nat
    requires AllDigits(s)
    decreases |s|
  {
    if |s| == 0 then 0 else DecimalValue(s[..|s| - 1]) * 10 + DigitValue(s[|s| - 1])
  }

  lemma {:induction false} NatDecimalRoundTrip(n: nat)
    ensures DecimalValue(NatToDecimal(n)) == n
    decreases n
  {
    if n >= 10 {
      var r := NatToDecimal(n);
      NatDecimalRoundTrip(n / 10);
      assert r[..|r| - 1] == NatToDecimal(n / 10);
    }
  }

  /** `Integer.toString(i)`. */
  function IntToDecimal(i: int): (r: string)
    ensures |r| >= 1
    ensures '/' !in r
    ensures (r[0] == '-') == (i < 0)
    ensures r[0] == '-' ==> |r| >= 2 && AllDigits(r[1..]) && r[1] != '0'
    ensures r[0] != '-' ==> AllDigits(r)
    ensures r[0] == '0' ==> r == "0"
  {
    if i < 0 then "-" + NatToDecimal(-i) else NatToDecimal(i)
  }

  /** Reads an optional minus sign and one or more digits. */
  function ParseInt(s: string): (r: Option<int>)
    ensures r.Some? ==> |s| >= 1
  {
    if |s| >= 2 && s[0] == '-' && AllDigits(s[1..]) then var magnitude: int := DecimalValue(s[1..]); Some(-magnitude)
    else if |s| >= 1 && AllDigits(s) then Some(DecimalValue(s))
    else None
  }

  lemma IntDecimalRoundTrip(i: int)
    ensures ParseInt(IntToDecimal(i)) == Some(i)
  {
    var r := IntToDecimal(i);
    if i < 0 {
      var digits := NatToDecimal(-i);
      assert r == "-" + digits && r[1..] == digits;
      NatDecimalRoundTrip(-i);
      assert DecimalValue(digits) == -i;
    } else {
      assert IsDigit(r[0]) && r[0] != '-';
      NatDecimalRoundTrip(i);
      assert ParseInt(r) == Some(DecimalValue(r));
    }
  }
}
