/**
 * Decimal rendering of numbers inside template strings (`${n}`), as the
 * trip-name generator and the timeline formatters use it, with a parser that
 * inverts it so that the rendering is known to lose nothing.
 */
module Text {

  predicate IsDigit(c: char)
  {
    '0' <= c <= '9'
  }

  function DigitChar(d: nat): (c: char)
    requires d < 10
    ensures IsDigit(c)
  {
    "0123456789"[d]
  }

  function DigitValue(c: char): (d: nat)
    requires IsDigit(c)
    ensures d < 10
  {
    (c as int - '0' as int) as nat
  }

  lemma DigitRoundTrip(d: nat)
    requires d < 10
    ensures DigitValue(DigitChar(d)) == d
  {
  }

  predicate AllDigits(s: string)
  {
    forall i | 0 <= i < |s| :: IsDigit(s[i])
  }

  /** `${n}` for a non-negative integer: its shortest decimal form. */
  function NatToString(n: nat): (s: string)
    ensures |s| >= 1 && AllDigits(s)
    ensures |s| > 1 ==> s[0] != '0'
  {
    if n < 10 then [DigitChar(n)] else NatToString(n / 10) + [DigitChar(n % 10)]
  }

  /** `${i}` for any integer: a minus sign before the digits of a negative one. */
  function IntToString(i: int): (s: string)
    ensures |s| >= 1
    ensures i >= 0 ==> s == NatToString(i)
    ensures i < 0 ==> s == "-" + NatToString(-i)
  {
    if i < 0 then "-" + NatToString(-i) else NatToString(i)
  }

  /** Reads a string of decimal digits back as a natural number. */
  function ParseNat(s: string): nat
    requires AllDigits(s)
  {
    if s == [] then 0 else 10 * ParseNat(s[..|s| - 1]) + DigitValue(s[|s| - 1])
  }

  lemma {:induction false} NatToStringRoundTrip(n: nat)
    ensures ParseNat(NatToString(n)) == n
  {
    if n >= 10 {
      var s := NatToString(n);
      assert s[..|s| - 1] == NatToString(n / 10);
      NatToStringRoundTrip(n / 10);
      DigitRoundTrip(n % 10);
    } else {
      DigitRoundTrip(n);
    }
  }

  lemma NatToStringInjective(a: nat, b: nat)
    requires NatToString(a) == NatToString(b)
    ensures a == b
  {
    NatToStringRoundTrip(a);
    NatToStringRoundTrip(b);
  }

  lemma IntToStringInjective(a: int, b: int)
    requires IntToString(a) == IntToString(b)
    ensures a == b
  {
    var s := IntToString(a);
    if a < 0 && b < 0 {
      assert NatToString(-a) == s[1..] == NatToString(-b);
      NatToStringInjective(-a, -b);
    } else if a >= 0 && b >= 0 {
      NatToStringInjective(a, b);
    }
  }

  /** `x.toFixed(1)` for a non-negative value below 10^21: the nearest multiple of
      one tenth (the larger one on a tie), written with one decimal. */
  function ToFixed1(x: real): (s: string)
    requires x >= 0.0
    ensures |s| >= 3 && s[|s| - 2] == '.' && IsDigit(s[|s| - 1])
  {
    var tenths := (x * 10.0 + 0.5).Floor;
    NatToString(tenths / 10) + "." + [DigitChar(tenths % 10)]
  }

  /** The text of `x.toFixed(1)` reads back as the nearest tenth of x: its digits before
      the point and the one after it make the whole number of tenths within half a tenth
      of x. */
  lemma ToFixed1Value(x: real)
    requires x >= 0.0
    ensures var s := ToFixed1(x);
      && AllDigits(s[..|s| - 2])
      && var tenths := ParseNat(s[..|s| - 2]) * 10 + DigitValue(s[|s| - 1]);
      x * 10.0 - 0.5 < tenths as real <= x * 10.0 + 0.5
  {
    var tenths := (x * 10.0 + 0.5).Floor;
    var s := ToFixed1(x);
    assert s[..|s| - 2] == NatToString(tenths / 10);
    NatToStringRoundTrip(tenths / 10);
    DigitRoundTrip(tenths % 10);
  }
}
