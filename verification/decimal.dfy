/** Decimal rendering of integers: Python's `str(n)` / `'{}'.format(n)` and the
    zero-padded fixed-width fields `strftime` writes, with the digit-string value
    that reads them back. */
module Decimal {
  import opened Outcomes
  import Text

  predicate IsDigit(c: char)
  {
    '0' <= c <= '9'
  }

  predicate AllDigits(s: string)
  {
    forall i :: 0 <= i < |s| ==> IsDigit(s[i])
  }

  function DigitChar(d: int): (c: char)
    requires 0 <= d < 10
    ensures IsDigit(c)
  {
    ('0' as int + d) as char
  }

  function DigitValue(c: char): int
    requires IsDigit(c)
  {
    c as int - '0' as int
  }

  function Pow10(w: nat): (p: nat)
    ensures p >= 1
  {
    if w == 0 then 1 else 10 * Pow10(w - 1)
  }

  function Sign(x: int): int
  {
    if x < 0 then -1 else if x > 0 then 1 else 0
  }

  /** The number a string of decimal digits denotes (most significant first). */
  function Value(s: string): nat
    requires AllDigits(s)
  {
    if |s| == 0 then 0 else 10 * Value(s[..|s| - 1]) + DigitValue(s[|s| - 1])
  }

  /** `str(n)` for a non-negative `n`: the shortest digit string denoting `n`, so the
      only string starting with `0` is "0" itself. */
  function NatToString(n: nat): (r: string)
    ensures |r| >= 1 && AllDigits(r)
    ensures Value(r) == n
    ensures r[0] == '0' ==> r == "0"
  {
    if n < 10 then [DigitChar(n)]
    else
      var r := NatToString(n / 10) + [DigitChar(n % 10)];
      assert r[..|r| - 1] == NatToString(n / 10);
      r
  }

  /** `str(n)` for any integer: a minus sign before the digits of `-n` when negative. */
  function IntToString(n: int): (r: string)
    ensures |r| >= 1
    ensures r[0] == '-' <==> n < 0
    ensures n >= 0 ==> r == NatToString(n)
    ensures n < 0 ==> r[1..] == NatToString(-n)
  {
    if n < 0 then "-" + NatToString(-n) else NatToString(n)
  }

  /** Reads back an optional minus sign followed by decimal digits with no redundant
      leading zero; anything else is rejected. */
  function ReadInt(s: string): Option<int>
  {
    if |s| > 0 && s[0] == '-' then
      var d := s[1..];
      if |d| > 0 && AllDigits(d) && d[0] != '0' then Some(-(Value(d) as int)) else None
    else if |s| > 0 && AllDigits(s) && (s[0] != '0' || s == "0") then Some(Value(s) as int)
    else None
  }

  /** Rendering an integer and reading it back gives the same integer, so distinct
      integers render to distinct strings. */
  lemma IntToStringRoundTrip(n: int)
    ensures ReadInt(IntToString(n)) == Some(n)
  {
    if n < 0 {
      var r := IntToString(n);
      assert r[1..] == NatToString(-n);
      assert r[0] == '-';
      assert -n != 0;
    }
  }

  /** `n` as exactly `w` digits with leading zeros, as `%m`/`%d`/`%H`/`%M`/`%S`
      (`w` = 2) and `%Y` (`w` = 4) write it; it denotes `n` whenever `n` fits. */
  function Pad(n: nat, w: nat): (r: string)
    ensures |r| == w && AllDigits(r)
    ensures n < Pow10(w) ==> Value(r) == n
  {
    if w == 0 then ""
    else
      var r := Pad(n / 10, w - 1) + [DigitChar(n % 10)];
      assert r[..|r| - 1] == Pad(n / 10, w - 1);
      r
  }

  lemma DigitCharOrder(a: int, b: int)
    requires 0 <= a < 10 && 0 <= b < 10
    ensures Text.Cmp([DigitChar(a)], [DigitChar(b)]) == Sign(a - b)
  {
    var x, y := [DigitChar(a)], [DigitChar(b)];
    assert x[1..] == [] && y[1..] == [];
  }

  /** Fixed-width zero padding makes string order agree with numeric order. */
  lemma {:induction false} PadOrder(n: nat, m: nat, w: nat)
    requires n < Pow10(w) && m < Pow10(w)
    ensures Text.Cmp(Pad(n, w), Pad(m, w)) == Sign(n - m)
  {
    if w > 0 {
      PadOrder(n / 10, m / 10, w - 1);
      Text.CmpConcat(Pad(n / 10, w - 1), [DigitChar(n % 10)], Pad(m / 10, w - 1), [DigitChar(m % 10)]);
      DigitCharOrder(n % 10, m % 10);
    }
  }
}
