/**
 * How the timeline prints durations: a stay (`formatStay`) and an arrival time
 * (`formatMinutes`), the latter both as written and with its rounding corrected.
 */
module TimelineFormat {
  import opened Numbers
  import opened Text

  /** `formatStay`: whole hours for the two hour-long options, minutes otherwise. */
  function FormatStay(mins: int): (s: string)
    ensures |s| >= 2
    ensures s[|s| - 1] == 'h' <==> mins == 60 || mins == 120
  {
    if mins == 60 then "1h"
    else if mins == 120 then "2h"
    else IntToString(mins) + "m"
  }

  /** Different stays never print the same. */
  lemma FormatStayInjective(a: int, b: int)
    requires FormatStay(a) == FormatStay(b)
    ensures a == b
  {
    var s := FormatStay(a);
    if a != 60 && a != 120 && b != 60 && b != 120 {
      assert IntToString(a) == s[..|s| - 1] == IntToString(b);
      IntToStringInjective(a, b);
    } else if a == 60 || a == 120 {
      assert s[|s| - 1] == 'h';
    }
  }

  /** `Math.round(x)`: the nearest integer, halves rounded up. */
  function JsRound(x: real): (r: int)
    ensures x - 0.5 < r as real <= x + 0.5
  {
    (x + 0.5).Floor
  }

  /** Truncation toward zero, as the `%` operator of JavaScript divides. */
  function Trunc(x: real): (r: int)
    ensures x >= 0.0 ==> r == x.Floor
    ensures x < 0.0 ==> r == -((-x).Floor)
  {
    if x >= 0.0 then x.Floor else -((-x).Floor)
  }

  /** `x % 60` on numbers: the remainder keeps the sign of x. */
  function JsRemainder60(x: real): (r: real)
    ensures x >= 0.0 ==> 0.0 <= r < 60.0
    ensures x < 0.0 ==> -60.0 < r <= 0.0
  {
    x - 60.0 * Trunc(x / 60.0) as real
  }

  /** The hour and minute figures a duration is printed with. */
  datatype Clock = Clock(hours: int, mins: int)

  /** `${i}` never holds the letter h. */
  lemma NoHourMark(i: int)
    ensures 'h' !in IntToString(i)
  {
    if i < 0 {
      assert IntToString(i)[1..] == NatToString(-i);
    }
  }

  /** `${hours}h ${mins}m`, or `${mins}m` when there are no whole hours. */
  function Render(c: Clock): (r: string)
    ensures |r| >= 2 && r[|r| - 1] == 'm'
    ensures 'h' in r <==> c.hours > 0
  {
    NoHourMark(c.hours);
    NoHourMark(c.mins);
    if c.hours <= 0 then IntToString(c.mins) + "m"
    else IntToString(c.hours) + "h " + IntToString(c.mins) + "m"
  }

  /** The figures `formatMinutes` prints, as written: the hours are split off first
      and the remaining minutes are rounded afterwards. */
  function ClockAsWritten(total: real): Clock
  {
    Clock((total / 60.0).Floor, JsRound(JsRemainder60(total)))
  }

  /** `formatMinutes` as written; a NaN total prints as `NaNh NaNm`
      (`NaN <= 0` is false). */
  function FormatMinutesAsWritten(total: Number): (r: string)
    ensures |r| >= 2 && r[|r| - 1] == 'm'
    ensures 'h' in r <==> total.NaN? || total.value >= 60.0
  {
    if total.NaN? then "NaNh NaNm" else Render(ClockAsWritten(total.value))
  }

  /** For a whole number of minutes, as the timeline's stays are, the written function
      never prints 60 minutes and agrees with the corrected one. */
  lemma WholeMinutesAsWritten(total: int)
    requires total >= 0
    ensures ClockAsWritten(total as real).mins < 60
    ensures FormatMinutesAsWritten(Finite(total as real)) == FormatMinutes(Finite(total as real))
  {
    var h := total / 60;
    assert (total as real / 60.0).Floor == h;
    assert JsRemainder60(total as real) == (total % 60) as real;
    ClockAsWrittenOnlyOverflowDiffers(total as real);
  }

  /** As written, a total that rounds up to a full hour prints 60 minutes: 119.5 gives
      `1h 60m` and 59.5 gives `60m`. */
  lemma ClockAsWrittenOverflows()
    ensures ClockAsWritten(119.5) == Clock(1, 60)
    ensures FormatMinutesAsWritten(Finite(119.5)) == "1h 60m"
    ensures ClockAsWritten(59.5) == Clock(0, 60)
    ensures FormatMinutesAsWritten(Finite(59.5)) == "60m"
  {
    assert (119.5 / 60.0).Floor == 1;
    assert JsRemainder60(119.5) == 59.5;
    assert (59.5 / 60.0).Floor == 0;
    assert JsRemainder60(59.5) == 59.5;
    assert NatToString(60) == NatToString(6) + [DigitChar(0)] == "60";
  }

  /** The figures with the rounding done first: the total is rounded to whole minutes
      and then split into hours and minutes. A negative total, which a timeline does not
      produce, keeps the written behaviour. */
  function ClockOf(total: real): Clock
  {
    if total < 0.0 then ClockAsWritten(total)
    else
      var rounded := JsRound(total);
      Clock(rounded / 60, rounded % 60)
  }

  /** `formatMinutes` with the rounding corrected. */
  function FormatMinutes(total: Number): string
  {
    if total.NaN? then "NaNh NaNm" else Render(ClockOf(total.value))
  }

  /** For a non-negative total the minute figure is below 60, and the figures add back
      up to the total rounded to the nearest minute. */
  lemma ClockOfSound(total: real)
    requires total >= 0.0
    ensures var c := ClockOf(total);
      && 0 <= c.mins < 60 && c.hours >= 0
      && c.hours * 60 + c.mins == JsRound(total)
  {
  }

  /** The written function goes wrong only where its minute figure reaches 60: there the
      corrected one carries that hour over, and everywhere else the two agree. */
  lemma ClockAsWrittenOnlyOverflowDiffers(total: real)
    requires total >= 0.0
    ensures 0 <= ClockAsWritten(total).mins <= 60
    ensures ClockAsWritten(total).mins < 60 ==> ClockAsWritten(total) == ClockOf(total)
    ensures ClockAsWritten(total).mins == 60 ==> ClockOf(total) == Clock(ClockAsWritten(total).hours + 1, 0)
  {
    var h := (total / 60.0).Floor;
    var rest := JsRemainder60(total);
    assert rest == total - 60.0 * h as real;
    var m := JsRound(rest);
    assert (total + 0.5).Floor == 60 * h + m by {
      assert m as real <= rest + 0.5 < m as real + 1.0;
      assert (60 * h + m) as real <= total + 0.5 < (60 * h + m) as real + 1.0;
    }
  }

  /** The corrected function prints 119.5 minutes as two hours. */
  lemma ClockOfRoundsFirst()
    ensures ClockOf(119.5) == Clock(2, 0)
    ensures FormatMinutes(Finite(119.5)) == "2h 0m"
  {
    assert JsRound(119.5) == 120;
  }
}
