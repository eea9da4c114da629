/**
  Decimal rendering of integers, as Rust's `{}` formatting of an `i64`
  produces it inside `format!`: the digits of the magnitude, most significant
  first, with no leading zeros, and a `-` in front of a negative value.
  The bot uses it for the latency in the `ping` reply and for the percentage
  in the progress line.  Parsing is the partner that shows the rendering
  loses nothing.
 */
module Decimal {

  predicate IsDigit(c: char) {
    '0' <= c <= '9'
  }

  predicate AllDigits(s: string) {
    forall i :: 0 <= i < |s| ==> IsDigit(s[i])
  }

  function DigitChar(d: nat): (c: char)
    requires d < 10
    ensures IsDigit(c)
    ensures c as int - '0' as int == d
  {
    ['0', '1', '2', '3', '4', '5', '6', '7', '8', '9'][d]
  }

  function DigitValue(c: char): (d: nat)
    requires IsDigit(c)
    ensures d < 10
  {
    c as int - '0' as int
  }

  /** The decimal digits of `n`, without leading zeros ("0" for zero). */
  function NatToDecimal(n: nat): (s: string)
    ensures |s| >= 1 && AllDigits(s)
    ensures |s| > 1 ==> s[0] != '0'
    ensures n < 10 <==> |s| == 1
    ensures 10 <= n < 100 <==> |s| == 2
    decreases n
  {
    if n < 10 then [DigitChar(n)]
    else NatToDecimal(n / 10) + [DigitChar(n % 10)]
  }

  /** The value of a string of decimal digits, most significant first. */
  function DecimalToNat(s: string): (n: nat)
    requires AllDigits(s)
    decreases |s|
  {
    if s == [] then 0
    else DecimalToNat(s[..|s| - 1]) * 10 + DigitValue(s[|s| - 1])
  }

  /** Reading back the rendered digits gives the number. */
  lemma {:induction false} DecimalRoundTrip(n: nat)
    ensures DecimalToNat(NatToDecimal(n)) == n
    decreases n
  {
    var s := NatToDecimal(n);
    if n < 10 {
      assert s[..|s| - 1] == [];
    } else {
      DecimalRoundTrip(n / 10);
      assert s[..|s| - 1] == NatToDecimal(n / 10);
    }
  }

  /** Two numbers render the same only if they are equal. */
  lemma NatToDecimalInjective(a: nat, b: nat)
    requires NatToDecimal(a) == NatToDecimal(b)
    ensures a == b
  {
    DecimalRoundTrip(a);
    DecimalRoundTrip(b);
  }

  /** Rust's `{}` on a signed integer: a minus sign, then the magnitude. */
  function IntToDecimal(i: int): (s: string)
    ensures |s| >= 1
    ensures s[0] == '-' <==> i < 0
  {
    if i < 0 then "-" + NatToDecimal(-i) else NatToDecimal(i)
  }

  /** An optional minus sign followed by at least one digit. */
  predicate IsIntText(s: string) {
    if |s| >= 1 && s[0] == '-' then |s| >= 2 && AllDigits(s[1..])
    else |s| >= 1 && AllDigits(s)
  }

  function DecimalToInt(s: string): (r: int)
    requires IsIntText(s)
  {
    if s[0] == '-' then 0 - DecimalToNat(s[1..]) as int else DecimalToNat(s)
  }

  lemma IntDecimalRoundTrip(i: int)
    ensures IsIntText(IntToDecimal(i))
    ensures DecimalToInt(IntToDecimal(i)) == i
  {
    if i < 0 {
      assert IntToDecimal(i) == "-" + NatToDecimal(-i);
      NegativeRoundTrip(-i);
    } else {
      var digits := NatToDecimal(i);
      assert IntToDecimal(i) == digits;
      NonNegativeRoundTrip(i);
    }
  }

  /** The digits of `n` alone read back as `n`. */
  lemma NonNegativeRoundTrip(n: nat)
    ensures IsIntText(NatToDecimal(n))
    ensures DecimalToInt(NatToDecimal(n)) == n
  {
    var digits := NatToDecimal(n);
    assert IsDigit(digits[0]);
    DecimalRoundTrip(n);
  }

  /** A minus sign in front of the digits of `m` reads back as `-m`. */
  lemma NegativeRoundTrip(m: nat)
    requires m > 0
    ensures IsIntText("-" + NatToDecimal(m))
    ensures DecimalToInt("-" + NatToDecimal(m)) == 0 - m as int
  {
    var digits := NatToDecimal(m);
    var s := "-" + digits;
    assert s[0] == '-' && s[1..] == digits;
    DecimalRoundTrip(m);
  }

  lemma IntToDecimalInjective(a: int, b: int)
    requires IntToDecimal(a) == IntToDecimal(b)
    ensures a == b
  {
    IntDecimalRoundTrip(a);
    IntDecimalRoundTrip(b);
  }
}
