/**
 * SI dimensions: a vector of seven integer exponents, one per SI base
 * quantity (time, length, mass, electric current, thermodynamic
 * temperature, amount of substance, luminous intensity; section 2.3 of the
 * SI Brochure, 9th edition). Multiplication adds exponents, division
 * subtracts them and raising to an integer power scales them, so the
 * dimensions form an abelian group with `Dimensionless` as identity.
 */
module Dimensions {

  datatype Dimension = Dimension(
    time: int,
    length: int,
    mass: int,
    current: int,
    temperature: int,
    amount: int,
    luminous: int)

  // The factory functions of the dimension class.
  const Dimensionless := Dimension(0, 0, 0, 0, 0, 0, 0)
  const Time := Dimension(1, 0, 0, 0, 0, 0, 0)
  const Length := Dimension(0, 1, 0, 0, 0, 0, 0)
  const Mass := Dimension(0, 0, 1, 0, 0, 0, 0)
  const ElectricCurrent := Dimension(0, 0, 0, 1, 0, 0, 0)
  const Temperature := Dimension(0, 0, 0, 0, 1, 0, 0)
  const AmountOfSubstance := Dimension(0, 0, 0, 0, 0, 1, 0)
  const LuminousIntensity := Dimension(0, 0, 0, 0, 0, 0, 1)

  /** Product of two dimensions: every exponent of `r` is the sum of the operands' exponents. */
  function Mul(a: Dimension, b: Dimension): (r: Dimension)
    ensures r.time == a.time + b.time && r.length == a.length + b.length
    ensures r.mass == a.mass + b.mass && r.current == a.current + b.current
    ensures r.temperature == a.temperature + b.temperature
    ensures r.amount == a.amount + b.amount && r.luminous == a.luminous + b.luminous
  {
    Dimension(a.time + b.time, a.length + b.length, a.mass + b.mass,
              a.current + b.current, a.temperature + b.temperature,
              a.amount + b.amount, a.luminous + b.luminous)
  }

  /** Quotient of two dimensions: the exponent-wise difference, so `Mul(r, b) == a`. */
  function Div(a: Dimension, b: Dimension): (r: Dimension)
    ensures Mul(r, b) == a
  {
    Dimension(a.time - b.time, a.length - b.length, a.mass - b.mass,
              a.current - b.current, a.temperature - b.temperature,
              a.amount - b.amount, a.luminous - b.luminous)
  }

  /** `d` raised to the integer power `e`: every exponent scaled by `e`. */
  function Pow(d: Dimension, e: int): (r: Dimension)
  {
    Dimension(d.time * e, d.length * e, d.mass * e, d.current * e,
              d.temperature * e, d.amount * e, d.luminous * e)
  }

  /** Componentwise comparison of the seven exponents; it coincides with value equality. */
  predicate Equal(a: Dimension, b: Dimension)
    ensures Equal(a, b) <==> a == b
  {
    a.time == b.time && a.length == b.length && a.mass == b.mass &&
    a.current == b.current && a.temperature == b.temperature &&
    a.amount == b.amount && a.luminous == b.luminous
  }

  // ---------------------------------------------------------------------
  // Group laws

  lemma MulCommutative(a: Dimension, b: Dimension)
    ensures Mul(a, b) == Mul(b, a)
  {
  }

  lemma MulAssociative(a: Dimension, b: Dimension, c: Dimension)
    ensures Mul(Mul(a, b), c) == Mul(a, Mul(b, c))
  {
  }

  lemma MulIdentity(a: Dimension)
    ensures Mul(Dimensionless, a) == a && Mul(a, Dimensionless) == a
  {
  }

  /** Every dimension has the inverse `Pow(d, -1)`. */
  lemma MulInverse(d: Dimension)
    ensures Mul(d, Pow(d, -1)) == Dimensionless
    ensures Mul(Pow(d, -1), d) == Dimensionless
  {
  }

  /** Division is multiplication by the inverse. */
  lemma DivIsMulInverse(a: Dimension, b: Dimension)
    ensures Div(a, b) == Mul(a, Pow(b, -1))
  {
  }

  lemma DivSelf(d: Dimension)
    ensures Div(d, d) == Dimensionless
  {
  }

  // ---------------------------------------------------------------------
  // Power laws

  lemma PowZero(d: Dimension)
    ensures Pow(d, 0) == Dimensionless
  {
  }

  lemma PowOne(d: Dimension)
    ensures Pow(d, 1) == d
  {
  }

  lemma PowDimensionless(e: int)
    ensures Pow(Dimensionless, e) == Dimensionless
  {
  }

  lemma PowAdd(d: Dimension, a: int, b: int)
    ensures Pow(d, a + b) == Mul(Pow(d, a), Pow(d, b))
  {
    assert d.time * (a + b) == d.time * a + d.time * b;
    assert d.length * (a + b) == d.length * a + d.length * b;
    assert d.mass * (a + b) == d.mass * a + d.mass * b;
    assert d.current * (a + b) == d.current * a + d.current * b;
    assert d.temperature * (a + b) == d.temperature * a + d.temperature * b;
    assert d.amount * (a + b) == d.amount * a + d.amount * b;
    assert d.luminous * (a + b) == d.luminous * a + d.luminous * b;
  }

  lemma PowSub(d: Dimension, a: int, b: int)
    ensures Pow(d, a - b) == Div(Pow(d, a), Pow(d, b))
  {
    PowAdd(d, a - b, b);
  }

  /** Dividing twice is dividing by the product. */
  lemma DivDiv(a: Dimension, b: Dimension, c: Dimension)
    ensures Div(Div(a, b), c) == Div(a, Mul(b, c))
  {
  }

  /** Multiplying by a negative power divides by the power. */
  lemma PowNegIsDiv(f: Dimension, d: Dimension, e: int)
    ensures Mul(f, Pow(d, -e)) == Div(f, Pow(d, e))
  {
    assert d.time * -e == -(d.time * e);
    assert d.length * -e == -(d.length * e);
    assert d.mass * -e == -(d.mass * e);
    assert d.current * -e == -(d.current * e);
    assert d.temperature * -e == -(d.temperature * e);
    assert d.amount * -e == -(d.amount * e);
    assert d.luminous * -e == -(d.luminous * e);
  }

  lemma PowMul(d: Dimension, a: int, b: int)
    ensures Pow(d, a * b) == Pow(Pow(d, a), b)
  {
    assert d.time * (a * b) == (d.time * a) * b;
    assert d.length * (a * b) == (d.length * a) * b;
    assert d.mass * (a * b) == (d.mass * a) * b;
    assert d.current * (a * b) == (d.current * a) * b;
    assert d.temperature * (a * b) == (d.temperature * a) * b;
    assert d.amount * (a * b) == (d.amount * a) * b;
    assert d.luminous * (a * b) == (d.luminous * a) * b;
  }

  lemma PowOfMul(a: Dimension, b: Dimension, e: int)
    ensures Pow(Mul(a, b), e) == Mul(Pow(a, e), Pow(b, e))
  {
    assert (a.time + b.time) * e == a.time * e + b.time * e;
    assert (a.length + b.length) * e == a.length * e + b.length * e;
    assert (a.mass + b.mass) * e == a.mass * e + b.mass * e;
    assert (a.current + b.current) * e == a.current * e + b.current * e;
    assert (a.temperature + b.temperature) * e == a.temperature * e + b.temperature * e;
    assert (a.amount + b.amount) * e == a.amount * e + b.amount * e;
    assert (a.luminous + b.luminous) * e == a.luminous * e + b.luminous * e;
  }

  /** Every dimension is the product of the base dimensions raised to its exponents. */
  lemma Decomposition(d: Dimension)
    ensures d == Mul(Mul(Mul(Mul(Mul(Mul(Pow(Time, d.time), Pow(Length, d.length)),
                     Pow(Mass, d.mass)), Pow(ElectricCurrent, d.current)),
                     Pow(Temperature, d.temperature)), Pow(AmountOfSubstance, d.amount)),
                     Pow(LuminousIntensity, d.luminous))
  {
  }

  /** `Pow(d, n)` determines `d` when `n != 0`: the n-th root of a dimension is unique. */
  lemma PowInjective(a: Dimension, b: Dimension, n: int)
    requires n != 0
    ensures Pow(a, n) == Pow(b, n) <==> a == b
  {
    if Pow(a, n) == Pow(b, n) {
      ScaleInjective(a.time, b.time, n);
      ScaleInjective(a.length, b.length, n);
      ScaleInjective(a.mass, b.mass, n);
      ScaleInjective(a.current, b.current, n);
      ScaleInjective(a.temperature, b.temperature, n);
      ScaleInjective(a.amount, b.amount, n);
      ScaleInjective(a.luminous, b.luminous, n);
    }
  }

  lemma ScaleInjective(x: int, y: int, n: int)
    requires n != 0 && x * n == y * n
    ensures x == y
  {
    assert (x - y) * n == 0;
  }
}
