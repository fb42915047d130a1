/**
 * The unit rules of `quantity<T, Unit>`: a value tagged with a unit type.
 * The library enforces these rules at compile time; here a rule that
 * would not compile is `Rejected`. Values are exact reals; only the unit
 * typing of the floating-point functions (`sqrt`, `cbrt`) is modelled.
 */
module Quantities {
  import opened Dimensions
  import opened Optionals
  import opened RealPowers
  import opened StaticUnits
  import opened StaticLaws
  import opened StaticMagnitudes
  import opened Conversions

  datatype Quantity = Quantity(value: real, unit: SUnit)

  /** Why a quantity expression does not compile. */
  datatype QuantityError =
    | DimensionMismatch          // converting between different dimensions
    | AbsoluteRelativeMismatch   // converting between an absolute and a relative unit
    | UnitMismatch               // the operands' unit types differ
    | AbsoluteSum                // `+` of absolute quantities
    | RootFailed(reason: RootError)
    | ConversionNotCallable      // the conversion object is called with no argument

  datatype QResult<T> = Compiles(value: T) | Rejected(error: QuantityError)

  /** The quantity a value denotes, in coherent SI units. */
  function Denotes(q: Quantity): real
  {
    SIValue(q.value, SMagnitude(q.unit), SOrigin(q.unit))
  }

  // ---------------------------------------------------------------------
  // Converting construction

  /**
   * `quantity<T, Unit>(quantity<T2, Unit2> const&)` as intended: a unit
   * equal to the source's copies the value; otherwise the dimensions must
   * agree and the two units must both be absolute or both relative, and
   * the value is converted by `static_conversion<T2, Unit2, Unit>`.
   */
  function Convert(q: Quantity, target: SUnit): (r: QResult<Quantity>)
    ensures r.Compiles? <==> SDimension(target) == SDimension(q.unit) && IsAbsolute(target) == IsAbsolute(q.unit)
    ensures r.Compiles? ==> r.value.unit == target
    ensures r.Rejected? && SDimension(target) != SDimension(q.unit) ==> r.error == DimensionMismatch
  {
    if AreEqual(target, q.unit) then Compiles(Quantity(q.value, target))
    else if SDimension(target) != SDimension(q.unit) then Rejected(DimensionMismatch)
    else if IsAbsolute(target) != IsAbsolute(q.unit) then Rejected(AbsoluteRelativeMismatch)
    else Compiles(Quantity(Apply(StaticConversion(q.unit, target), q.value), target))
  }

  /**
   * The converting constructors as written. The one for units that are
   * not `are_equal` initializes its value with
   * `static_conversion<T2, Unit2, Unit>()(other.value())`: the first `()`
   * calls the `conversion` object with no argument, and `conversion` has
   * only the one-argument call operator, so that constructor never
   * compiles. Only a unit equal to the source's converts.
   */
  function ConvertAsWritten(q: Quantity, target: SUnit): (r: QResult<Quantity>)
    ensures r.Compiles? <==> AreEqual(target, q.unit)
    ensures r.Compiles? ==> r.value == q.(unit := target)
    ensures r.Rejected? ==> r.error == ConversionNotCallable
  {
    if AreEqual(target, q.unit) then Compiles(Quantity(q.value, target))
    else Rejected(ConversionNotCallable)
  }

  /**
   * The two agree where the units are equal; a thousandth of an inch is a
   * length like a micrometre, yet as written it does not convert to one.
   */
  lemma ConvertAsWrittenRejects(q: Quantity, target: SUnit)
    ensures AreEqual(target, q.unit) ==> ConvertAsWritten(q, target) == Convert(q, target)
    ensures var thou := Quantity(1.0, SNamed(Units.Milli(Units.Inch)));
            var micrometre := SNamed(Units.Milli(Units.Milli(Units.Meter)));
      ConvertAsWritten(thou, micrometre) == Rejected(ConversionNotCallable)
      && Convert(thou, micrometre).Compiles?
  {
  }

  /** A converted quantity denotes what the original did, whichever constructor applies. */
  lemma ConvertPreservesDenotation(q: Quantity, target: SUnit)
    requires Convert(q, target).Compiles?
    ensures Denotes(Convert(q, target).value) == Denotes(q)
  {
    if !AreEqual(target, q.unit) {
      ConversionPreservesSIValue(SMagnitude(q.unit), SOrigin(q.unit), SMagnitude(target), SOrigin(target), q.value);
    }
  }

  /** Converting to another unit and back gives the original quantity. */
  lemma {:induction false} ConvertRoundTrip(q: Quantity, target: SUnit)
    requires Convert(q, target).Compiles?
    ensures Convert(Convert(q, target).value, q.unit) == Compiles(q)
  {
    var mid := Convert(q, target).value;
    var back := Convert(mid, q.unit).value;
    ConvertPreservesDenotation(q, target);
    ConvertPreservesDenotation(mid, q.unit);
    SIValueInjective(back.value, q.value, SMagnitude(q.unit), SOrigin(q.unit));
  }

  // ---------------------------------------------------------------------
  // Arithmetic

  /** `operator+`: only for two quantities of the same relative unit. */
  function Add(a: Quantity, b: Quantity): (r: QResult<Quantity>)
    ensures r.Compiles? <==> a.unit == b.unit && IsRelative(a.unit)
    ensures r.Compiles? ==> r.value.unit == a.unit
  {
    if a.unit != b.unit then Rejected(UnitMismatch)
    else if IsAbsolute(a.unit) then Rejected(AbsoluteSum)
    else Compiles(Quantity(a.value + b.value, a.unit))
  }

  /**
   * `operator-`: for two quantities of the same unit. The difference of
   * two absolute quantities is relative: its unit is `make_relative` of
   * theirs.
   */
  function Subtract(a: Quantity, b: Quantity): (r: QResult<Quantity>)
    ensures r.Compiles? <==> a.unit == b.unit
    ensures r.Compiles? ==> IsRelative(r.value.unit) && AreEqual(r.value.unit, MakeRelative(a.unit))
    ensures r.Compiles? ==> r.value.unit == (if IsAbsolute(a.unit) then MakeRelative(a.unit) else a.unit)
  {
    if a.unit != b.unit then Rejected(UnitMismatch)
    else if IsAbsolute(a.unit) then Compiles(Quantity(a.value - b.value, MakeRelative(a.unit)))
    else Compiles(Quantity(a.value - b.value, a.unit))
  }

  /** A sum denotes the sum of what its operands denote. */
  lemma AddDenotation(a: Quantity, b: Quantity)
    requires Add(a, b).Compiles?
    ensures Denotes(Add(a, b).value) == Denotes(a) + Denotes(b)
  {
    var m := SMagnitude(a.unit);
    assert (a.value + b.value) * m == a.value * m + b.value * m;
  }

  /** A difference denotes the difference of what its operands denote, absolute units included. */
  lemma SubtractDenotation(a: Quantity, b: Quantity)
    requires Subtract(a, b).Compiles?
    ensures Denotes(Subtract(a, b).value) == Denotes(a) - Denotes(b)
  {
    var m := SMagnitude(a.unit);
    assert (a.value - b.value) * m == a.value * m - b.value * m;
  }

  /** `operator*`: the product of the values in the unit `multiply<Unit1, Unit2>`. */
  function Times(a: Quantity, b: Quantity): Quantity
  {
    Quantity(a.value * b.value, Multiply(a.unit, b.unit))
  }

  /**
   * `operator/`: the quotient of the values in the unit `divide<Unit1, Unit2>`
   * (a zero divisor is left to floating point and not modelled).
   */
  function Quotient(a: Quantity, b: Quantity): Quantity
    requires b.value != 0.0
  {
    Quantity(a.value / b.value, Divide(a.unit, b.unit))
  }

  /**
   * A product has the product dimension, and its value scaled by its
   * magnitude is the product of the operands' scaled values.
   */
  lemma TimesScale(a: Quantity, b: Quantity)
    ensures SDimension(Times(a, b).unit) == Mul(SDimension(a.unit), SDimension(b.unit))
    ensures Times(a, b).value * SMagnitude(Times(a, b).unit)
         == (a.value * SMagnitude(a.unit)) * (b.value * SMagnitude(b.unit))
  {
    var ma, mb := SMagnitude(a.unit), SMagnitude(b.unit);
    var t := SMagnitude(Multiply(a.unit, b.unit));
    MultiplyDimension(a.unit, b.unit);
    MultiplyMagnitude(a.unit, b.unit, t, ma, mb);
    assert (a.value * b.value) * (ma * mb) == (a.value * ma) * (b.value * mb);
  }

  /** A quotient has the quotient dimension, and scaled values divide likewise. */
  lemma QuotientScale(a: Quantity, b: Quantity)
    requires b.value != 0.0
    ensures SDimension(Quotient(a, b).unit) == Dimensions.Div(SDimension(a.unit), SDimension(b.unit))
    ensures Quotient(a, b).value * SMagnitude(Quotient(a, b).unit) * (b.value * SMagnitude(b.unit))
         == a.value * SMagnitude(a.unit)
  {
    var ma, mb := SMagnitude(a.unit), SMagnitude(b.unit);
    var t := SMagnitude(Divide(a.unit, b.unit));
    DivideDimension(a.unit, b.unit);
    DivideMagnitude(a.unit, b.unit, t, ma, mb);
    var q := a.value / b.value;
    assert q * b.value == a.value;
    assert t * mb == ma;
    assert q * t * (b.value * mb) == (q * b.value) * (t * mb);
  }

  /**
   * `fma(a, b, c)`: `a * b + c` in c's unit, which must equal the unit of
   * `a * b`.
   */
  function Fma(a: Quantity, b: Quantity, c: Quantity): (r: QResult<Quantity>)
    ensures r.Compiles? <==> AreEqual(c.unit, Multiply(a.unit, b.unit))
    ensures r.Compiles? ==> r.value.unit == c.unit
  {
    if AreEqual(c.unit, Multiply(a.unit, b.unit)) then Compiles(Quantity(a.value * b.value + c.value, c.unit))
    else Rejected(UnitMismatch)
  }

  /** A fused multiply-add scales like the product plus the addend. */
  lemma FmaScale(a: Quantity, b: Quantity, c: Quantity)
    requires Fma(a, b, c).Compiles?
    ensures Fma(a, b, c).value.value * SMagnitude(c.unit)
         == Times(a, b).value * SMagnitude(Times(a, b).unit) + c.value * SMagnitude(c.unit)
  {
    var m := SMagnitude(c.unit);
    assert (a.value * b.value + c.value) * m == (a.value * b.value) * m + c.value * m;
  }

  // ---------------------------------------------------------------------
  // Roots: the unit typing of `sqrt` and `cbrt`

  /** The unit of `sqrt(q)`: `static_sqrt<Unit>`, rejected when it does not exist. */
  function SqrtUnit(q: Quantity): (r: QResult<SUnit>)
    ensures r.Compiles? ==> Pow(SDimension(r.value), 2) == SDimension(q.unit)
    ensures r.Compiles? ==> RealPow(SMagnitude(r.value), 2) == SMagnitude(q.unit)
    ensures r.Rejected? <==> StaticSqrt(q.unit).Err?
  {
    match StaticSqrt(q.unit)
    case Err(e) => Rejected(RootFailed(e))
    case Ok(u) =>
      StaticRootDimension(q.unit, 2);
      StaticRootMagnitude(q.unit, 2);
      Compiles(u)
  }

  /** The unit of `cbrt(q)`: `static_cbrt<Unit>`, rejected when it does not exist. */
  function CbrtUnit(q: Quantity): (r: QResult<SUnit>)
    ensures r.Compiles? ==> Pow(SDimension(r.value), 3) == SDimension(q.unit)
    ensures r.Compiles? ==> RealPow(SMagnitude(r.value), 3) == SMagnitude(q.unit)
    ensures r.Rejected? <==> StaticCbrt(q.unit).Err?
  {
    match StaticCbrt(q.unit)
    case Err(e) => Rejected(RootFailed(e))
    case Ok(u) =>
      StaticRootDimension(q.unit, 3);
      StaticRootMagnitude(q.unit, 3);
      Compiles(u)
  }

  // ---------------------------------------------------------------------
  // Examples

  /**
   * With the intended constructor one `milli<inch>` converts to 25.4
   * micrometres; a metre does not convert to seconds.
   */
  lemma ConversionExamples()
    ensures Convert(Quantity(1.0, SNamed(Units.Milli(Units.Inch))), SNamed(Units.Milli(Units.Milli(Units.Meter))))
         == Compiles(Quantity(25.4, SNamed(Units.Milli(Units.Milli(Units.Meter)))))
    ensures Convert(Quantity(1.0, SNamed(Units.Meter)), SNamed(Units.Second)) == Rejected(DimensionMismatch)
  {
    MilliInchToMicrometre();
  }

  /**
   * A metre and a relative metre are different unit types, so they do not
   * add; two readings on an absolute scale do not add either, but their
   * difference is a relative quantity.
   */
  lemma ArithmeticExamples(c: Units.NamedUnit, x: real, y: real)
    requires c.origin.HasValue()
    ensures Add(Quantity(x, SNamed(Units.Meter)), Quantity(y, MakeRelative(SNamed(Units.Meter)))) == Rejected(UnitMismatch)
    ensures Add(Quantity(x, SNamed(c)), Quantity(y, SNamed(c))) == Rejected(AbsoluteSum)
    ensures Subtract(Quantity(x, SNamed(c)), Quantity(y, SNamed(c))) == Compiles(Quantity(x - y, SRelative(SNamed(c))))
  {
  }
}
