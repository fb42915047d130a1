/**
 * The compile-time (static) unit algebra. A unit type is a named unit
 * class, `make_relative<T>`, `static_pow<Base, Exponent>` or
 * `static_product<Units...>`; two unit types are the same type exactly
 * when their descriptions here are equal. The template metafunctions
 * `multiply_with`, `divide_by`, `simplify`, `canonicalize`, `multiply`,
 * `divide` and `static_root` recurse over the head and tail of a product's
 * list of units, and so do the functions that model them.
 */
module StaticUnits {
  import opened Dimensions
  import opened Optionals
  import opened Units
  import opened RealPowers

  datatype SUnit =
    | SNamed(info: NamedUnit)
    | SRelative(of: SUnit)
    | SPow(base: SUnit, exponent: int)
    | SProduct(terms: seq<SUnit>)

  /** The `unitless` class. */
  const SUnitless := SNamed(Unitless)

  /** Every unit of the list is a `static_pow`: the lists `canonicalize` produces. */
  predicate AllPows(ts: seq<SUnit>)
  {
    forall i | 0 <= i < |ts| :: ts[i].SPow?
  }

  // ---------------------------------------------------------------------
  // static_name

  /**
   * `static_name`: a named class's own name, `make_relative<T>` keeps T's,
   * a power is `base^exponent`, a product joins its units with ` * `, and
   * the empty product is `1`.
   */
  function SName(u: SUnit): string
    decreases u, 1
  {
    match u
    case SNamed(info) => info.name
    case SRelative(t) => SName(t)
    case SPow(b, e) => SName(b) + "^" + IntToString(e)
    case SProduct(ts) => SNameFold(ts)
  }

  function SNameFold(ts: seq<SUnit>): string
    decreases ts, 0
  {
    if |ts| == 0 then "1"
    else if |ts| == 1 then SName(ts[0])
    else SName(ts[0]) + " * " + SNameFold(ts[1..])
  }

  /** A decimal digit character. */
  predicate IsDigit(ch: char)
  {
    '0' <= ch <= '9'
  }

  /** The number a string of decimal digits spells, most significant digit first. */
  function DecimalValue(s: string): nat
    requires forall i | 0 <= i < |s| :: IsDigit(s[i])
  {
    if |s| == 0 then 0
    else
      assert IsDigit(s[|s| - 1]);
      DecimalValue(s[..|s| - 1]) * 10 + (s[|s| - 1] as int - '0' as int)
  }

  /**
   * `std::to_string` on a non-negative `int`: decimal digits, no leading
   * zero unless the number is zero, spelling the number.
   */
  function NatToString(n: nat): (r: string)
    ensures |r| > 0 && forall i | 0 <= i < |r| :: IsDigit(r[i])
    ensures r[0] == '0' ==> |r| == 1
    ensures DecimalValue(r) == n
    decreases n
  {
    var d := "0123456789"[n % 10];
    assert d as int - '0' as int == n % 10;
    if n < 10 then [d]
    else
      var r := NatToString(n / 10) + [d];
      assert r[..|r| - 1] == NatToString(n / 10);
      r
  }

  /** `std::to_string` on an `int`: a minus sign for a negative number, then the digits of its magnitude. */
  function IntToString(i: int): (r: string)
    ensures |r| > 0
    ensures i >= 0 ==> (forall k | 0 <= k < |r| :: IsDigit(r[k])) && DecimalValue(r) == i
    ensures i < 0 ==> r[0] == '-' && |r| > 1 && (forall k | 1 <= k < |r| :: IsDigit(r[k]))
                      && r[1] != '0' && DecimalValue(r[1..]) == -i
    ensures r[0] == '0' ==> r == "0"
  {
    if i < 0 then "-" + NatToString(-i) else NatToString(i)
  }

  /** Different exponents are spelled differently: `std::to_string` loses nothing. */
  lemma IntToStringInjective(i: int, j: int)
    ensures IntToString(i) == IntToString(j) <==> i == j
  {
    if IntToString(i) == IntToString(j) {
      var r := IntToString(i);
      if i < 0 {
        assert DecimalValue(r[1..]) == -i;
      }
      if j < 0 {
        assert DecimalValue(r[1..]) == -j;
      }
    }
  }

  // ---------------------------------------------------------------------
  // static_dimension, static_magnitude, static_origin

  function SDimension(u: SUnit): Dimension
    decreases u
  {
    match u
    case SNamed(info) => info.dimension
    case SRelative(t) => SDimension(t)
    case SPow(b, e) => Pow(SDimension(b), e)
    case SProduct(ts) => SDimensionFold(ts)
  }

  /** `static_product<>` is dimensionless, `static_product<U>` has U's dimension, longer products multiply head by tail. */
  function SDimensionFold(ts: seq<SUnit>): Dimension
    decreases ts
  {
    if |ts| == 0 then Dimensionless
    else if |ts| == 1 then SDimension(ts[0])
    else Mul(SDimension(ts[0]), SDimensionFold(ts[1..]))
  }

  function SMagnitude(u: SUnit): (r: real)
    ensures r != 0.0
    decreases u
  {
    match u
    case SNamed(info) => info.magnitude
    case SRelative(t) => SMagnitude(t)
    case SPow(b, e) =>
      RealPowNonzero(SMagnitude(b), e);
      RealPow(SMagnitude(b), e)
    case SProduct(ts) => SMagnitudeFold(ts)
  }

  /** As `SDimensionFold`, for magnitudes: the empty product has magnitude one. */
  function SMagnitudeFold(ts: seq<SUnit>): (r: real)
    ensures r != 0.0
    decreases ts
  {
    if |ts| == 0 then 1.0
    else if |ts| == 1 then SMagnitude(ts[0])
    else SMagnitude(ts[0]) * SMagnitudeFold(ts[1..])
  }

  /** Only a named unit class carries an origin; `make_relative`, powers and products never do. */
  function SOrigin(u: SUnit): Optional<real>
  {
    match u
    case SNamed(info) => info.origin
    case _ => Nullopt
  }

  /** `are_equal<A, B>`: same dimension, same magnitude, same origin. */
  predicate AreEqual(a: SUnit, b: SUnit)
  {
    SDimension(a) == SDimension(b) && SMagnitude(a) == SMagnitude(b)
    && Optionals.Equal(SOrigin(a), SOrigin(b))
  }

  /** `make_relative<T>`: T's dimension and magnitude, without an origin. */
  function MakeRelative(t: SUnit): (r: SUnit)
    ensures SDimension(r) == SDimension(t) && SMagnitude(r) == SMagnitude(t)
    ensures !SOrigin(r).HasValue()
  {
    SRelative(t)
  }

  /** `is_absolute<T>`: T has an origin. */
  predicate IsAbsolute(t: SUnit)
  {
    SOrigin(t).HasValue()
  }

  /** `is_relative<T>`: T has no origin. */
  predicate IsRelative(t: SUnit)
  {
    !IsAbsolute(t)
  }

  // ---------------------------------------------------------------------
  // multiply_with and divide_by

  /**
   * `multiply_with<static_product<...>, static_pow<B, E>>`: walk the list
   * from its head; the first unit that is a power of the same type `B`
   * gets the exponents added, and when the walk reaches the end `B^E` is
   * appended there.
   */
  function MulPow(ts: seq<SUnit>, b: SUnit, e: int): (r: seq<SUnit>)
    ensures |r| == |ts| || |r| == |ts| + 1
    decreases ts
  {
    if |ts| == 0 then [SPow(b, e)]
    else if ts[0].SPow? && ts[0].base == b then [SPow(b, ts[0].exponent + e)] + ts[1..]
    else [ts[0]] + MulPow(ts[1..], b, e)
  }

  /** `divide_by<static_product<...>, static_pow<B, E>>`: as `MulPow`, subtracting exponents. */
  function DivPow(ts: seq<SUnit>, b: SUnit, e: int): (r: seq<SUnit>)
    decreases ts
  {
    if |ts| == 0 then [SPow(b, -e)]
    else if ts[0].SPow? && ts[0].base == b then [SPow(b, ts[0].exponent - e)] + ts[1..]
    else [ts[0]] + DivPow(ts[1..], b, e)
  }

  /**
   * `multiply_with<LHS, U>`: a product is multiplied in unit by unit from
   * its head, a power directly, any other unit as its first power.
   */
  function MulWith(ts: seq<SUnit>, u: SUnit): seq<SUnit>
    decreases u
  {
    match u
    case SProduct(us) => MulWithAll(ts, us)
    case SPow(b, e) => MulPow(ts, b, e)
    case _ => MulPow(ts, u, 1)
  }

  function MulWithAll(ts: seq<SUnit>, us: seq<SUnit>): seq<SUnit>
    decreases us
  {
    if |us| == 0 then ts else MulWithAll(MulWith(ts, us[0]), us[1..])
  }

  /** `divide_by<LHS, U>`: as `MulWith`, dividing instead. */
  function DivWith(ts: seq<SUnit>, u: SUnit): seq<SUnit>
    decreases u
  {
    match u
    case SProduct(us) => DivWithAll(ts, us)
    case SPow(b, e) => DivPow(ts, b, e)
    case _ => DivPow(ts, u, 1)
  }

  function DivWithAll(ts: seq<SUnit>, us: seq<SUnit>): seq<SUnit>
    decreases us
  {
    if |us| == 0 then ts else DivWithAll(DivWith(ts, us[0]), us[1..])
  }

  /** `canonicalize_t<T>`: T multiplied into the empty product. */
  function Canonicalize(u: SUnit): seq<SUnit>
  {
    MulWith([], u)
  }

  // ---------------------------------------------------------------------
  // simplify

  /**
   * `simplify<T>`: a power with exponent 0 is `unitless`, one with
   * exponent 1 is its base, a product keeps the simplified units that are
   * not `unitless` and collapses an empty or one-unit result; any other
   * type is its own simplification.
   */
  function SSimplify(u: SUnit): SUnit
    decreases u
  {
    match u
    case SPow(b, e) => if e == 0 then SUnitless else if e == 1 then b else u
    case SProduct(ts) => SimplifyProduct(SSimplifyTerms(ts))
    case _ => u
  }

  /** `simplify_terms`: the simplified head is prepended to the simplified tail unless it is `unitless`. */
  function SSimplifyTerms(ts: seq<SUnit>): (r: seq<SUnit>)
    ensures |r| <= |ts|
    decreases ts
  {
    if |ts| == 0 then []
    else PrependUnlessUnitless(SSimplify(ts[0]), SSimplifyTerms(ts[1..]))
  }

  function PrependUnlessUnitless(a: SUnit, ts: seq<SUnit>): seq<SUnit>
  {
    if a == SUnitless then ts else [a] + ts
  }

  /** `simplify_product`: the empty product is `unitless`, a one-unit product is that unit. */
  function SimplifyProduct(ts: seq<SUnit>): SUnit
  {
    if |ts| == 0 then SUnitless
    else if |ts| == 1 then ts[0]
    else SProduct(ts)
  }

  // ---------------------------------------------------------------------
  // multiply, divide, static_root

  /** `multiply<A, B>`: B multiplied into the canonical form of A, simplified. */
  function Multiply(a: SUnit, b: SUnit): SUnit
  {
    SSimplify(SProduct(MulWith(Canonicalize(a), b)))
  }

  /** `divide<A, B>`: the canonical form of A divided by B, simplified. */
  function Divide(a: SUnit, b: SUnit): SUnit
  {
    SSimplify(SProduct(DivWith(Canonicalize(a), b)))
  }

  /** Why a `static_root` does not compile. */
  datatype RootError = ZeroRootExponent | NonDivisiblePower(exponent: int, root: int)

  datatype Result<T> = Ok(value: T) | Err(error: RootError)

  /**
   * `static_root_helper<static_pow<A, E>, N>`: `A^(E/N)`, rejected when N
   * does not divide E (a zero N rejects every power).
   */
  function RootPow(t: SUnit, n: int): Result<SUnit>
    requires t.SPow?
  {
    if n == 0 then Err(ZeroRootExponent)
    else if t.exponent % n != 0 then Err(NonDivisiblePower(t.exponent, n))
    else Ok(SPow(t.base, t.exponent / n))
  }

  /** `static_root_helper` on a product of powers: the root of every power, in order. */
  function RootPows(ts: seq<SUnit>, n: int): (r: Result<seq<SUnit>>)
    requires AllPows(ts)
    ensures r.Ok? ==> |r.value| == |ts| && AllPows(r.value)
    decreases ts
  {
    if |ts| == 0 then Ok([])
    else
      match RootPow(ts[0], n)
      case Err(err) => Err(err)
      case Ok(x) =>
        match RootPows(ts[1..], n)
        case Err(err) => Err(err)
        case Ok(rest) => Ok([x] + rest)
  }

  /** `static_root<Base, N>`: the roots of the powers of Base's canonical form, simplified. */
  function StaticRoot(a: SUnit, n: int): Result<SUnit>
  {
    CanonicalAllPows(a);
    match RootPows(Canonicalize(a), n)
    case Err(err) => Err(err)
    case Ok(ts) => Ok(SSimplify(SProduct(ts)))
  }

  function StaticSqrt(a: SUnit): Result<SUnit>
  {
    StaticRoot(a, 2)
  }

  function StaticCbrt(a: SUnit): Result<SUnit>
  {
    StaticRoot(a, 3)
  }

  // ---------------------------------------------------------------------
  // Canonical forms hold powers only

  lemma {:induction false} MulPowAllPows(ts: seq<SUnit>, b: SUnit, e: int)
    requires AllPows(ts)
    ensures AllPows(MulPow(ts, b, e))
    decreases ts
  {
    if |ts| > 0 && !(ts[0].base == b) {
      MulPowAllPows(ts[1..], b, e);
    }
  }

  lemma {:induction false} MulWithAllPows(ts: seq<SUnit>, u: SUnit)
    requires AllPows(ts)
    ensures AllPows(MulWith(ts, u))
    decreases u, 1
  {
    match u
    case SProduct(us) => MulWithAllAllPows(ts, us);
    case SPow(b, e) => MulPowAllPows(ts, b, e);
    case _ => MulPowAllPows(ts, u, 1);
  }

  lemma {:induction false} MulWithAllAllPows(ts: seq<SUnit>, us: seq<SUnit>)
    requires AllPows(ts)
    ensures AllPows(MulWithAll(ts, us))
    decreases us, 0
  {
    if |us| > 0 {
      MulWithAllPows(ts, us[0]);
      MulWithAllAllPows(MulWith(ts, us[0]), us[1..]);
    }
  }

  /** `canonicalize` yields a product of powers, which is what `static_root_helper` accepts. */
  lemma CanonicalAllPows(u: SUnit)
    ensures AllPows(Canonicalize(u))
  {
    MulWithAllPows([], u);
  }
}
