/**
 * JavaScript numbers as the route engine uses them: a finite value or NaN.
 * Values are exact reals, so floating-point rounding is not part of the model;
 * what is kept is that NaN propagates through arithmetic and that every
 * comparison involving NaN is false.
 */
module Numbers {

  datatype Number = Finite(value: real) | NaN

  /** `x + y` */
  function Plus(x: Number, y: Number): (r: Number)
    ensures r.Finite? <==> x.Finite? && y.Finite?
    ensures r.Finite? ==> r.value == x.value + y.value
  {
    if x.Finite? && y.Finite? then Finite(x.value + y.value) else NaN
  }

  /** `x < y` (false as soon as either side is NaN) */
  predicate Less(x: Number, y: Number)
  {
    x.Finite? && y.Finite? && x.value < y.value
  }

  /** `x > c` for a finite constant `c` */
  predicate Above(x: Number, c: real)
  {
    x.Finite? && x.value > c
  }

  /** `Number.isNaN(x)` */
  predicate IsNaN(x: Number)
  {
    x.NaN?
  }

  /** The value of a finite number and 0 for NaN; used only in specifications. */
  function FiniteOrZero(x: Number): real
  {
    if x.Finite? then x.value else 0.0
  }

  /** A finite term can be moved out of a sum to the front. */
  lemma PlusRegroup(a: real, t: Number, x: Number)
    ensures Plus(Plus(Finite(a), t), x) == Plus(Finite(a), Plus(t, x))
  {
  }

  /** A finite term added last can be merged into the finite front term. */
  lemma PlusShift(a: real, t: Number, d: real)
    ensures Plus(Plus(Finite(a), t), Finite(d)) == Plus(Finite(a + d), t)
  {
  }
}
