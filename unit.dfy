/**
 * The unit contract: every unit exposes a name, a dimension, a magnitude
 * (its size relative to the coherent SI unit of that dimension) and an
 * optional origin (the offset of its zero point, for absolute scales such
 * as temperatures). Magnitudes and origins are exact rationals in the
 * library; here they are carried as their exact `real` values, which the
 * `Rationals` module shows to be equivalent (`EqualIffSameValue`).
 */
module Units {
  import opened Dimensions
  import opened Optionals

  /** Magnitudes are never zero: every unit is a nonzero multiple of a coherent SI unit. */
  type Magnitude = x: real | x != 0.0 witness 1.0

  /** A named unit: the data a `crtp` unit class reports through its static members. */
  datatype NamedUnit = NamedUnit(
    name: string,
    dimension: Dimension,
    magnitude: Magnitude,
    origin: Optional<real>)

  /** The unit `1`: dimensionless, magnitude one, no origin. */
  const Unitless := NamedUnit("1", Dimensionless, 1.0, Nullopt)

  /**
   * Unit equality compares dimension, magnitude and origin and nothing
   * else: two units are equal exactly when they agree once the name of one
   * is given to the other.
   */
  predicate SameUnit(a: NamedUnit, b: NamedUnit)
    ensures SameUnit(a, b) <==> a.(name := b.name) == b
  {
    a.dimension == b.dimension && a.magnitude == b.magnitude && Optionals.Equal(a.origin, b.origin)
  }

  lemma SameUnitEquivalence(a: NamedUnit, b: NamedUnit, c: NamedUnit)
    ensures SameUnit(a, a)
    ensures SameUnit(a, b) ==> SameUnit(b, a)
    ensures SameUnit(a, b) && SameUnit(b, c) ==> SameUnit(a, c)
  {
  }

  /** Renaming a unit never changes what it is equal to. */
  lemma SameUnitIgnoresName(a: NamedUnit, s: string)
    ensures SameUnit(a, a.(name := s))
  {
  }

  /** A unit with no origin is never equal to one with an origin. */
  lemma AbsoluteNeverRelative(a: NamedUnit, b: NamedUnit)
    requires a.origin.HasValue() && !b.origin.HasValue()
    ensures !SameUnit(a, b)
  {
  }

  // ---------------------------------------------------------------------
  // Metric prefixes and the named units of the library

  /** `kilo<T>`: named "k" + T's name, T's dimension, a thousand times T's magnitude, no origin. */
  function Kilo(t: NamedUnit): NamedUnit
  {
    NamedUnit("k" + t.name, t.dimension, 1000.0 * t.magnitude, Nullopt)
  }

  /** `milli<T>`: named "m" + T's name, T's dimension, a thousandth of T's magnitude, no origin. */
  function Milli(t: NamedUnit): NamedUnit
  {
    NamedUnit("m" + t.name, t.dimension, (1.0 / 1000.0) * t.magnitude, Nullopt)
  }

  const Second := NamedUnit("s", Time, 1.0, Nullopt)
  const Meter := NamedUnit("m", Length, 1.0, Nullopt)
  const Inch := NamedUnit("in", Length, 254.0 / 10000.0, Nullopt)
  const Gram := NamedUnit("g", Mass, 1.0 / 1000.0, Nullopt)
  const Radian := NamedUnit("rad", Dimensionless, 1.0, Nullopt)

  /** The prefixes cancel exactly when the prefixed unit has no origin (a prefix always drops it). */
  lemma KiloOfMilli(t: NamedUnit)
    ensures SameUnit(Kilo(Milli(t)), t) <==> !t.origin.HasValue()
    ensures SameUnit(Milli(Kilo(t)), t) <==> !t.origin.HasValue()
  {
  }

  /** The kilogram is the coherent SI unit of mass. */
  lemma KilogramIsCoherent()
    ensures SameUnit(Kilo(Gram), NamedUnit("kg", Mass, 1.0, Nullopt))
  {
  }

  /** The radian is dimensionless with magnitude one, so it equals `unitless`. */
  lemma RadianIsUnitless()
    ensures SameUnit(Radian, Unitless) && Radian != Unitless
  {
  }
}
