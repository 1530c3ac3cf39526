/**
 Integers as text: Python's `int(s)` on a `-?digits` string, `int(s, 16)` on a
 `0x`-prefixed hexadecimal literal, and `str(v)` / `"{}".format(v)` on an
 integer. Only ASCII digits are modelled.
 */
module Decimal {

  predicate IsDigit(c: char) { '0' <= c <= '9' }

  predicate IsHexDigit(c: char) { IsDigit(c) || 'a' <= c <= 'f' || 'A' <= c <= 'F' }

  predicate AllDigits(s: string) { forall k :: 0 <= k < |s| ==> IsDigit(s[k]) }

  predicate AllHexDigits(s: string) { forall k :: 0 <= k < |s| ==> IsHexDigit(s[k]) }

  /** The regular-expression fragment `-?\d+`. */
  predicate IsSignedDigits(s: string) {
    if |s| > 0 && s[0] == '-' then |s| > 1 && AllDigits(s[1..]) else |s| > 0 && AllDigits(s)
  }

  /** A hexadecimal literal that `int(s, 16)` accepts: `0x` or `0X`, then hex digits. */
  predicate IsHexLiteral(s: string) {
    |s| > 2 && s[0] == '0' && (s[1] == 'x' || s[1] == 'X') && AllHexDigits(s[2..])
  }

  function DigitValue(c: char): (d: nat)
    requires IsDigit(c)
    ensures d < 10
  {
    (c as int) - ('0' as int)
  }

  function HexDigitValue(c: char): (d: nat)
    requires IsHexDigit(c)
    ensures d < 16
  {
    if IsDigit(c) then DigitValue(c)
    else if 'a' <= c <= 'f' then (c as int) - ('a' as int) + 10
    else (c as int) - ('A' as int) + 10
  }

  function DigitChar(d: nat): (c: char)
    requires d < 10
    ensures IsDigit(c) && DigitValue(c) == d
  {
    ('0' as int + d) as char
  }

  /** The value of a run of decimal digits, most significant first. */
  function DigitsValue(s: string): nat
    requires AllDigits(s)
    decreases |s|
  {
    if s == [] then 0 else DigitsValue(s[..|s| - 1]) * 10 + DigitValue(s[|s| - 1])
  }

  function HexDigitsValue(s: string): nat
    requires AllHexDigits(s)
    decreases |s|
  {
    if s == [] then 0 else HexDigitsValue(s[..|s| - 1]) * 16 + HexDigitValue(s[|s| - 1])
  }

  /** `int(s)` on `-?digits`; leading zeros are accepted and `-0` is 0. */
  function SignedDecimal(s: string): int
    requires IsSignedDigits(s)
  {
    if s[0] == '-' then 0 - DigitsValue(s[1..]) else DigitsValue(s) as int
  }

  /** `int(s, 16)`, which accepts the `0x`/`0X` prefix itself. */
  function HexValue(s: string): nat
    requires IsHexLiteral(s)
  {
    HexDigitsValue(s[2..])
  }

  /** `str(n)` for a natural number: no sign, no leading zeros. */
  function NatToDecimal(n: nat): (s: string)
    ensures |s| > 0 && AllDigits(s)
    ensures |s| > 1 ==> s[0] != '0'
    decreases n
  {
    if n < 10 then [DigitChar(n)] else NatToDecimal(n / 10) + [DigitChar(n % 10)]
  }

  /** `str(v)` for an integer: a minus sign before the magnitude when negative. */
  function IntToDecimal(v: int): (s: string)
    ensures IsSignedDigits(s)
    ensures '\n' !in s && ',' !in s
  {
    if v < 0 then "-" + NatToDecimal(-v) else NatToDecimal(v)
  }

  lemma {:induction false} NatToDecimalRoundTrip(n: nat)
    ensures DigitsValue(NatToDecimal(n)) == n
    decreases n
  {
    if n >= 10 {
      NatToDecimalRoundTrip(n / 10);
      var s := NatToDecimal(n);
      assert s[..|s| - 1] == NatToDecimal(n / 10);
    }
  }

  /** Parsing what `str` printed gives the integer back. */
  lemma IntToDecimalRoundTrip(v: int)
    ensures SignedDecimal(IntToDecimal(v)) == v
  {
    if v < 0 {
      NatToDecimalRoundTrip(-v);
      assert IntToDecimal(v)[1..] == NatToDecimal(-v);
    } else {
      NatToDecimalRoundTrip(v);
    }
  }
}
