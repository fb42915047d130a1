/**
 * Run-time (dynamic) units: a unit is a named unit, a power of a unit, or
 * a product of units. This module gives their dimension, magnitude and
 * origin, unit equality, `simplify`, and the term-merging rule that
 * `dynamic_product::multiply_with` applies to its term list, all as pure
 * functions; the in-place product object and the `*`, `/` and `root`
 * operations built on it are in module `DynamicProducts`.
 */
module DynamicUnits {
  import opened Dimensions
  import opened Optionals
  import opened Units
  import opened RealPowers

  datatype DynUnit =
    | Named(info: NamedUnit)
    | Power(base: DynUnit, exponent: int)
    | Product(terms: seq<DynUnit>)

  /** The dynamic unit holding the `unitless` class. */
  const UnitlessUnit := Named(Unitless)

  /** The `unitless` type test: true only for the `unitless` named unit itself. */
  predicate IsUnitless(u: DynUnit)
  {
    u == UnitlessUnit
  }

  /** Every term is a power node: what the cast in `multiply_with` relies on. */
  predicate AllPowers(ts: seq<DynUnit>)
  {
    forall i | 0 <= i < |ts| :: ts[i].Power?
  }

  // ---------------------------------------------------------------------
  // Dimension, magnitude and origin

  function DimensionOf(u: DynUnit): Dimension
    decreases u
  {
    match u
    case Named(info) => info.dimension
    case Power(b, e) => Pow(DimensionOf(b), e)
    case Product(ts) => DimensionFold(ts)
  }

  /**
   * The product of the terms' dimensions, folded from the left. The
   * library starts the fold at the first term and leaves an empty product
   * undefined; starting at `Dimensionless` gives the same value on every
   * non-empty list.
   */
  function DimensionFold(ts: seq<DynUnit>): Dimension
    decreases ts
  {
    if |ts| == 0 then Dimensionless
    else Mul(DimensionFold(ts[..|ts| - 1]), DimensionOf(ts[|ts| - 1]))
  }

  function MagnitudeOf(u: DynUnit): (r: real)
    ensures r != 0.0
    decreases u
  {
    match u
    case Named(info) => info.magnitude
    case Power(b, e) =>
      RealPowNonzero(MagnitudeOf(b), e);
      RealPow(MagnitudeOf(b), e)
    case Product(ts) => MagnitudeFold(ts)
  }

  /** The product of the terms' magnitudes, folded from the left (see `DimensionFold`). */
  function MagnitudeFold(ts: seq<DynUnit>): (r: real)
    ensures r != 0.0
    decreases ts
  {
    if |ts| == 0 then 1.0
    else MagnitudeFold(ts[..|ts| - 1]) * MagnitudeOf(ts[|ts| - 1])
  }

  /** Only a named unit can carry an origin; powers and products never do. */
  function OriginOf(u: DynUnit): Optional<real>
  {
    match u
    case Named(info) => info.origin
    case _ => Nullopt
  }

  /** Unit equality: same dimension, same magnitude, same origin. */
  predicate UnitEqual(a: DynUnit, b: DynUnit)
  {
    DimensionOf(a) == DimensionOf(b) && MagnitudeOf(a) == MagnitudeOf(b)
    && Optionals.Equal(OriginOf(a), OriginOf(b))
  }

  /** On named units, dynamic unit equality is the unit equality of their descriptors. */
  lemma UnitEqualNamed(x: NamedUnit, y: NamedUnit)
    ensures UnitEqual(Named(x), Named(y)) <==> SameUnit(x, y)
  {
  }

  // ---------------------------------------------------------------------
  // simplify

  /**
   * `simplify`: a power with exponent 0 becomes `unitless`, a power with
   * exponent 1 becomes its base (not itself simplified), a product
   * simplifies each term, drops the `unitless` ones and collapses an empty
   * or single-term result; everything else is copied unchanged.
   */
  function Simplify(u: DynUnit): (r: DynUnit)
    decreases u
  {
    match u
    case Named(_) => u
    case Power(b, e) => if e == 0 then UnitlessUnit else if e == 1 then b else u
    case Product(ts) => Collapse(SimplifyTerms(ts))
  }

  /** The loop of `dynamic_product::simplify`: push every simplified term unless it is `unitless`. */
  function SimplifyTerms(ts: seq<DynUnit>): (r: seq<DynUnit>)
    ensures |r| <= |ts|
    ensures forall j | 0 <= j < |r| :: !IsUnitless(r[j])
    decreases ts
  {
    if |ts| == 0 then []
    else PushUnlessUnitless(SimplifyTerms(ts[..|ts| - 1]), Simplify(ts[|ts| - 1]))
  }

  function PushUnlessUnitless(ts: seq<DynUnit>, u: DynUnit): seq<DynUnit>
  {
    if IsUnitless(u) then ts else ts + [u]
  }

  /** What `simplify` returns for the simplified term list of a product. */
  function Collapse(ts: seq<DynUnit>): DynUnit
  {
    if |ts| == 0 then UnitlessUnit
    else if |ts| == 1 then ts[0]
    else Product(ts)
  }

  // ---------------------------------------------------------------------
  // multiply_with / divide_by on a product's term list

  /** `t` is a power whose base is unit-equal to `b`. */
  predicate SameBase(t: DynUnit, b: DynUnit)
  {
    t.Power? && UnitEqual(t.base, b)
  }

  /**
   * Index of the first term whose base is unit-equal to `b`, or `|ts|`
   * when there is none.
   */
  function FirstMatch(ts: seq<DynUnit>, b: DynUnit): (k: nat)
    requires AllPowers(ts)
    ensures k <= |ts|
    ensures forall j | 0 <= j < k :: !SameBase(ts[j], b)
    ensures k < |ts| ==> SameBase(ts[k], b)
  {
    FirstMatchFrom(ts, b, 0)
  }

  /** The search loop of `multiply_with`, from index `i` on. */
  function FirstMatchFrom(ts: seq<DynUnit>, b: DynUnit, i: nat): (k: nat)
    requires AllPowers(ts) && i <= |ts|
    requires forall j | 0 <= j < i :: !SameBase(ts[j], b)
    ensures i <= k <= |ts|
    ensures forall j | 0 <= j < k :: !SameBase(ts[j], b)
    ensures k < |ts| ==> SameBase(ts[k], b)
    decreases |ts| - i
  {
    if i == |ts| then i
    else if SameBase(ts[i], b) then i
    else FirstMatchFrom(ts, b, i + 1)
  }

  /**
   * `multiply_with` of the power `b^e`: the first term with a unit-equal
   * base is replaced by `b` raised to the sum of the exponents (carrying
   * the new base), every other term is kept in place; without such a term
   * `b^e` is appended.
   */
  function MergePower(ts: seq<DynUnit>, b: DynUnit, e: int): (r: seq<DynUnit>)
    requires AllPowers(ts)
    ensures AllPowers(r)
    ensures |r| == |ts| || |r| == |ts| + 1
  {
    var k := FirstMatch(ts, b);
    if k < |ts| then ts[k := Power(b, ts[k].exponent + e)] else ts + [Power(b, e)]
  }

  /** `multiply_with(dynamic_unit)`: a product is merged term by term, a named unit as its first power. */
  function MulInto(ts: seq<DynUnit>, u: DynUnit): (r: seq<DynUnit>)
    requires AllPowers(ts)
    ensures AllPowers(r)
    decreases u
  {
    match u
    case Product(us) => MulIntoAll(ts, us)
    case Power(b, e) => MergePower(ts, b, e)
    case Named(_) => MergePower(ts, u, 1)
  }

  function MulIntoAll(ts: seq<DynUnit>, us: seq<DynUnit>): (r: seq<DynUnit>)
    requires AllPowers(ts)
    ensures AllPowers(r)
    decreases us
  {
    if |us| == 0 then ts
    else MulInto(MulIntoAll(ts, us[..|us| - 1]), us[|us| - 1])
  }

  /** `divide_by(dynamic_unit)`: as `MulInto`, with every exponent negated. */
  function DivInto(ts: seq<DynUnit>, u: DynUnit): (r: seq<DynUnit>)
    requires AllPowers(ts)
    ensures AllPowers(r)
    decreases u
  {
    match u
    case Product(us) => DivIntoAll(ts, us)
    case Power(b, e) => MergePower(ts, b, -e)
    case Named(_) => MergePower(ts, u, -1)
  }

  function DivIntoAll(ts: seq<DynUnit>, us: seq<DynUnit>): (r: seq<DynUnit>)
    requires AllPowers(ts)
    ensures AllPowers(r)
    decreases us
  {
    if |us| == 0 then ts
    else DivInto(DivIntoAll(ts, us[..|us| - 1]), us[|us| - 1])
  }

  // ---------------------------------------------------------------------
  // operator*, operator/, root

  /** `a * b`: merge both into an empty product, then simplify. */
  function Times(a: DynUnit, b: DynUnit): DynUnit
  {
    Simplify(Product(MulInto(MulInto([], a), b)))
  }

  /** `a / b`: merge `a`, divide by `b`, then simplify. */
  function Over(a: DynUnit, b: DynUnit): DynUnit
  {
    Simplify(Product(DivInto(MulInto([], a), b)))
  }

  datatype RootError = NamedUnitRoot | NonDivisiblePower(exponent: int, root: int)

  datatype Result<T> = Ok(value: T) | Err(error: RootError)

  /**
   * `root(u, n)`: a named unit has no root; a power `b^e` has the root
   * `b^(e/n)`, simplified, when `n` divides `e` and fails otherwise; a
   * product multiplies the roots of its terms into a fresh product, in
   * order, failing at the first term that fails, and simplifies it.
   */
  function RootOf(u: DynUnit, n: int): (r: Result<DynUnit>)
    requires n != 0
    decreases u
  {
    match u
    case Named(_) => Err(NamedUnitRoot)
    case Power(b, e) =>
      if e % n != 0 then Err(NonDivisiblePower(e, n)) else Ok(Simplify(Power(b, e / n)))
    case Product(ts) =>
      match RootTerms(ts, n)
      case Err(err) => Err(err)
      case Ok(acc) => Ok(Simplify(Product(acc)))
  }

  /** The term loop of `root` on a product: the merged roots of `ts`, or the first failure. */
  function RootTerms(ts: seq<DynUnit>, n: int): (r: Result<seq<DynUnit>>)
    requires n != 0
    ensures r.Ok? ==> AllPowers(r.value)
    decreases ts
  {
    if |ts| == 0 then Ok([])
    else
      match RootTerms(ts[..|ts| - 1], n)
      case Err(err) => Err(err)
      case Ok(acc) =>
        match RootOf(ts[|ts| - 1], n)
        case Err(err) => Err(err)
        case Ok(x) => Ok(MulInto(acc, x))
  }
}
