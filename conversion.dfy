/**
 * The conversion engine: converting a value between two units of the same
 * dimension multiplies it by the ratio of the magnitudes and adds the
 * difference of the origins, both measured in the new unit. The library
 * computes both coefficients exactly as rationals before rounding them to
 * the value type; here they stay exact.
 */
module Conversions {
  import opened Optionals
  import opened Units
  import opened DynamicUnits
  import opened StaticUnits

  /** `conversion<T>`: the affine map `v * multiplier + offset`. */
  datatype Conversion = Conversion(multiplier: real, offset: real)

  /**
   * `conversion(old_magnitude, old_origin, new_magnitude, new_origin)`:
   * the multiplier is the old magnitude over the new one; the offset
   * starts at zero, gains the old origin over the new magnitude when there
   * is one, and loses the new origin over the new magnitude when there is
   * one.
   */
  function MakeConversion(oldMagnitude: Magnitude, oldOrigin: Optional<real>,
                          newMagnitude: Magnitude, newOrigin: Optional<real>): (c: Conversion)
    ensures c.multiplier * newMagnitude == oldMagnitude
    ensures c.offset * newMagnitude == ValueOr(oldOrigin, 0.0) - ValueOr(newOrigin, 0.0)
  {
    var offset := 0.0;
    var offset := if oldOrigin.HasValue() then offset + oldOrigin.value / newMagnitude else offset;
    var offset := if newOrigin.HasValue() then offset - newOrigin.value / newMagnitude else offset;
    Conversion(oldMagnitude / newMagnitude, offset)
  }

  /** `operator()`: the converted value. */
  function Apply(c: Conversion, v: real): real
  {
    v * c.multiplier + c.offset
  }

  /**
   * The quantity a value denotes in coherent SI units: the value times the
   * magnitude, shifted by the origin when the unit has one.
   */
  function SIValue(v: real, magnitude: Magnitude, origin: Optional<real>): real
  {
    v * magnitude + ValueOr(origin, 0.0)
  }

  /** Distinct values in one unit denote distinct quantities. */
  lemma SIValueInjective(v: real, w: real, magnitude: Magnitude, origin: Optional<real>)
    ensures SIValue(v, magnitude, origin) == SIValue(w, magnitude, origin) <==> v == w
  {
    if v != w {
      assert (v - w) * magnitude != 0.0;
      assert v * magnitude - w * magnitude == (v - w) * magnitude;
    }
  }

  /** A converted value denotes the same quantity as the original. */
  lemma ConversionPreservesSIValue(m1: Magnitude, o1: Optional<real>, m2: Magnitude, o2: Optional<real>, v: real)
    ensures SIValue(Apply(MakeConversion(m1, o1, m2, o2), v), m2, o2) == SIValue(v, m1, o1)
  {
    var c := MakeConversion(m1, o1, m2, o2);
    var w := Apply(c, v);
    assert w * m2 == v * (c.multiplier * m2) + c.offset * m2;
  }

  /** Converting A to B and back gives the original value. */
  lemma {:induction false} RoundTrip(m1: Magnitude, o1: Optional<real>, m2: Magnitude, o2: Optional<real>, v: real)
    ensures Apply(MakeConversion(m2, o2, m1, o1), Apply(MakeConversion(m1, o1, m2, o2), v)) == v
  {
    var w := Apply(MakeConversion(m1, o1, m2, o2), v);
    var u := Apply(MakeConversion(m2, o2, m1, o1), w);
    ConversionPreservesSIValue(m1, o1, m2, o2, v);
    ConversionPreservesSIValue(m2, o2, m1, o1, w);
    SIValueInjective(u, v, m1, o1);
  }

  /** Converting A to B and then B to C is converting A to C. */
  lemma {:induction false} Compose(m1: Magnitude, o1: Optional<real>, m2: Magnitude, o2: Optional<real>,
                                   m3: Magnitude, o3: Optional<real>, v: real)
    ensures Apply(MakeConversion(m2, o2, m3, o3), Apply(MakeConversion(m1, o1, m2, o2), v))
         == Apply(MakeConversion(m1, o1, m3, o3), v)
  {
    var w := Apply(MakeConversion(m1, o1, m2, o2), v);
    var u := Apply(MakeConversion(m2, o2, m3, o3), w);
    var x := Apply(MakeConversion(m1, o1, m3, o3), v);
    ConversionPreservesSIValue(m1, o1, m2, o2, v);
    ConversionPreservesSIValue(m2, o2, m3, o3, w);
    ConversionPreservesSIValue(m1, o1, m3, o3, v);
    SIValueInjective(u, x, m3, o3);
  }

  /**
   * The conversion is the identity exactly when the magnitudes agree and
   * the origins agree once an absent origin counts as zero.
   */
  lemma IdentityConversion(m1: Magnitude, o1: Optional<real>, m2: Magnitude, o2: Optional<real>)
    ensures MakeConversion(m1, o1, m2, o2) == Conversion(1.0, 0.0)
        <==> m1 == m2 && ValueOr(o1, 0.0) == ValueOr(o2, 0.0)
  {
    var c := MakeConversion(m1, o1, m2, o2);
    if m1 == m2 && ValueOr(o1, 0.0) == ValueOr(o2, 0.0) {
      CancelFactor(c.multiplier, 1.0, m2);
      CancelFactor(c.offset, 0.0, m2);
    }
  }

  /** A nonzero factor cancels. */
  lemma CancelFactor(x: real, y: real, m: real)
    requires m != 0.0 && x * m == y * m
    ensures x == y
  {
    assert x == (x * m) / m;
    assert y == (y * m) / m;
  }

  // ---------------------------------------------------------------------
  // Conversions between units

  /** `conversion(unit const& from, unit const& to)`: the conversion between two run-time units. */
  function DynamicConversion(from: DynUnit, to: DynUnit): Conversion
  {
    MakeConversion(MagnitudeOf(from), OriginOf(from), MagnitudeOf(to), OriginOf(to))
  }

  /** `static_conversion<T, From, To>`: the conversion between two unit types. */
  function StaticConversion(from: SUnit, to: SUnit): Conversion
  {
    MakeConversion(SMagnitude(from), SOrigin(from), SMagnitude(to), SOrigin(to))
  }

  /** Equal run-time units convert by the identity. */
  lemma DynamicConversionOfEqualUnits(a: DynUnit, b: DynUnit)
    requires UnitEqual(a, b)
    ensures DynamicConversion(a, b) == Conversion(1.0, 0.0)
  {
    IdentityConversion(MagnitudeOf(a), OriginOf(a), MagnitudeOf(b), OriginOf(b));
  }

  /**
   * Unit types convert by the identity exactly when they have the same
   * magnitude and their origins, an absent one counting as zero, agree;
   * in particular equal unit types do. The converse of the latter fails
   * only between a unit with origin zero and the same unit without one,
   * which `are_equal` tells apart.
   */
  lemma StaticConversionIdentity(a: SUnit, b: SUnit)
    ensures StaticConversion(a, b) == Conversion(1.0, 0.0)
        <==> SMagnitude(a) == SMagnitude(b) && ValueOr(SOrigin(a), 0.0) == ValueOr(SOrigin(b), 0.0)
    ensures AreEqual(a, b) ==> StaticConversion(a, b) == Conversion(1.0, 0.0)
  {
    IdentityConversion(SMagnitude(a), SOrigin(a), SMagnitude(b), SOrigin(b));
  }

  /**
   * One thousandth of an inch is 25.4 micrometres: the multiplier from
   * `milli<inch>` (magnitude 254/10,000,000) to micrometres (magnitude
   * 1/1,000,000) is 127/5.
   */
  lemma MilliInchToMicrometre()
    ensures StaticConversion(SNamed(Milli(Inch)), SNamed(Milli(Milli(Meter)))) == Conversion(127.0 / 5.0, 0.0)
    ensures Apply(StaticConversion(SNamed(Milli(Inch)), SNamed(Milli(Milli(Meter)))), 1.0) == 25.4
  {
  }
}
