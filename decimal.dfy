/**
 * Decimal rendering of integers, as PHP's `(string)` cast on an int
 * produces it (an optional minus sign, then digits without leading zeros),
 * and the parse that reads it back.
 */
module Decimal {

  predicate IsDigit(c: char)
  {
    '0' <= c <= '9'
  }

  function DigitChar(d: nat): (c: char)
    requires d < 10
    ensures IsDigit(c) && c as int - '0' as int == d
  {
    ('0' as int + d) as char
  }

  /** The decimal digits of n, most significant first. */
  function NatToString(n: nat): (s: string)
    ensures |s| >= 1
    ensures forall i :: 0 <= i < |s| ==> IsDigit(s[i])
    ensures |s| > 1 ==> s[0] != '0'
    ensures s[0] == '0' <==> n == 0
  {
    if n < 10 then [DigitChar(n)]
    else NatToString(n / 10) + [DigitChar(n % 10)]
  }

  function IntToString(x: int): (s: string)
    ensures |s| >= 1
    ensures forall i :: 0 < i < |s| ==> IsDigit(s[i])
    ensures s[0] == '-' <==> x < 0
    ensures x >= 0 ==> IsDigit(s[0])
    ensures x < 0 ==> |s| >= 2
    ensures s[if x < 0 then 1 else 0] == '0' ==> x == 0
    ensures x == 0 ==> s == "0"
  {
    if x < 0 then "-" + NatToString(-x) else NatToString(x)
  }

  function ParseNat(s: string): int
  {
    if s == [] then 0
    else 10 * ParseNat(s[..|s| - 1]) + (s[|s| - 1] as int - '0' as int)
  }

  function ParseInt(s: string): int
  {
    if |s| > 0 && s[0] == '-' then -ParseNat(s[1..]) else ParseNat(s)
  }

  lemma {:induction false} NatRoundTrip(n: nat)
    ensures ParseNat(NatToString(n)) == n
  {
    if n >= 10 {
      var s := NatToString(n);
      assert s[..|s| - 1] == NatToString(n / 10);
      NatRoundTrip(n / 10);
    }
  }

  /** Reading the decimal text of x back gives x. */
  lemma IntRoundTrip(x: int)
    ensures ParseInt(IntToString(x)) == x
  {
    if x < 0 {
      assert IntToString(x)[1..] == NatToString(-x);
      NatRoundTrip(-x);
    } else {
      NatRoundTrip(x);
    }
  }
}
