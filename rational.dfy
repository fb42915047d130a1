/** Exact rational numbers kept in lowest terms: the `rational` class of
    kul.hpp with its constructor, inverse, product, quotient, equality and
    integer power. The source stores 64-bit integers; here numerators and
    denominators are unbounded, so overflow is not modelled. */
module Rationals {
  import opened RealPowers

  /** kul::abs */
  function Abs(a: int): (r: nat)
    ensures r == a || r == -a
    ensures a >= 0 ==> r == a
  {
    if a < 0 then -a else a
  }

  /** Euclid's algorithm: the value the loop of kul::gcd computes. */
  function Gcd(a: nat, b: nat): nat
    decreases b
  {
    if b == 0 then a else Gcd(b, a % b)
  }

  /** kul::gcd, the while loop of the source. The constructor only passes
      absolute values, and on nonnegative operands the C++ remainder and
      Dafny's agree. */
  method GcdLoop(a0: int, b0: int) returns (g: int)
    requires a0 >= 0 && b0 >= 0
    ensures g == Gcd(a0, b0)
    ensures g == 0 <==> a0 == 0 && b0 == 0
    ensures g > 0 ==> a0 % g == 0 && b0 % g == 0
  {
    var a, b := a0, b0;
    while b != 0
      invariant a >= 0 && b >= 0
      invariant Gcd(a, b) == Gcd(a0, b0)
      decreases b
    {
      var t := b;
      b := a % b;
      a := t;
    }
    g := a;
    GcdZero(a0, b0);
    if g > 0 {
      var p, q := GcdDivides(a0, b0);
      MulMod(g, p);
      MulMod(g, q);
    }
  }

  /** A rational as the source stores it: numerator and denominator. */
  datatype Rational = Rational(num: int, den: int)

  /** What the constructor establishes whenever the denominator it is given
      is nonzero: a positive denominator, coprime to the numerator. */
  predicate Normalized(r: Rational) {
    r.den > 0 && Gcd(Abs(r.num), r.den) == 1
  }

  /** The number a rational stands for (convert_to<double> without rounding). */
  function Value(r: Rational): real
    requires r.den != 0
  {
    r.num as real / r.den as real
  }

  /** rational{1} */
  const One := Rational(1, 1)

  /** The constructor rational(n, d): divide both absolute values by their
      gcd and give the sign to the numerator. Only n == d == 0 divides by a
      zero gcd; a zero denominator alone yields the pair (±1, 0), which
      stands for no number (see MakeZeroDen). */
  function Make(n: int, d: int): (r: Rational)
    requires n != 0 || d != 0
    ensures d != 0 ==> r.den > 0
  {
    var an := Abs(n);
    var ad := Abs(d);
    GcdBounds(an, ad);
    var g := Gcd(an, ad);
    var isNegative := (!(n < 0)) != (!(d < 0));
    Rational(if isNegative then -(an / g) else an / g, ad / g)
  }

  /** The one-argument constructor rational(n) == rational(n, 1). */
  function FromInt(n: int): (r: Rational)
    ensures r == Rational(n, 1)
    ensures Normalized(r) && Value(r) == n as real
  {
    assert Gcd(Abs(n), 1) == 1 by { assert Abs(n) % 1 == 0; }
    Make(n, 1)
  }

  /** kul::inverse: rational(denominator, numerator). */
  function Inverse(a: Rational): (r: Rational)
    requires a.den > 0
    ensures a.num != 0 ==> r.den > 0
  {
    Make(a.den, a.num)
  }

  /** operator*(rational, rational) */
  function Mul(a: Rational, b: Rational): (r: Rational)
    requires a.den > 0 && b.den > 0
    ensures r.den > 0
  {
    Make(a.num * b.num, a.den * b.den)
  }

  /** operator/(rational, rational) == a * inverse(b) */
  function Div(a: Rational, b: Rational): (r: Rational)
    requires a.den > 0 && b.den > 0 && b.num != 0
    ensures r.den > 0
  {
    Mul(a, Inverse(b))
  }

  /** kul::pow(rational, int) as a function: e products with b when e > 0,
      -e quotients by b when e < 0. */
  function Pow(b: Rational, e: int): (r: Rational)
    requires b.den > 0 && (e < 0 ==> b.num != 0)
    ensures r.den > 0
    decreases if e < 0 then -e else e
  {
    if e > 0 then Mul(Pow(b, e - 1), b)
    else if e < 0 then Div(Pow(b, e + 1), b)
    else One
  }

  /** kul::pow(rational, int): the two counting loops of the source. */
  method PowLoop(b: Rational, e: int) returns (result: Rational)
    requires b.den > 0 && (e < 0 ==> b.num != 0)
    ensures result == Pow(b, e)
    ensures Value(result) == RealPow(Value(b), e)
  {
    result := FromInt(1);
    var i := 0;
    while i < e
      invariant 0 <= i && (e >= 0 ==> i <= e) && (e < 0 ==> i == 0)
      invariant result == Pow(b, i)
    {
      result := Mul(result, b);
      i := i + 1;
    }
    var j := 0;
    while j < -e
      invariant 0 <= j && (e <= 0 ==> j <= -e)
      invariant result == Pow(b, if e > 0 then e else -j)
    {
      result := Div(result, b);
      j := j + 1;
    }
    PowValue(b, e);
  }

  // ---------------------------------------------------------------------
  // What the constructor computes

  /** With a nonzero denominator the constructor yields lowest terms. */
  lemma MakeNormalized(n: int, d: int)
    requires d != 0
    ensures Normalized(Make(n, d))
  {
    var p, q := MakeParts(n, d);
    assert Abs(Make(n, d).num) == p;
  }

  /** With a nonzero denominator the constructor keeps the value n / d. */
  lemma MakeValue(n: int, d: int)
    requires d != 0
    ensures Value(Make(n, d)) == n as real / d as real
  {
    var p, q := MakeParts(n, d);
    SignedCross(n, d, Gcd(Abs(n), Abs(d)), p, q);
    CrossValue(Make(n, d).num, q, n, d);
  }

  /** A zero denominator with a nonzero numerator gives (±1, 0). */
  lemma MakeZeroDen(n: int)
    requires n != 0
    ensures Make(n, 0) == Rational(if n < 0 then -1 else 1, 0)
  {
    var p, q := GcdPositive(Abs(n), 0);
    assert Gcd(Abs(n), 0) == Abs(n);
    MulMod(Abs(n), 1);
  }

  /** Scaling numerator and denominator by the same positive factor does not
      change the constructed rational. */
  lemma MakeScale(n: int, d: int, k: int)
    requires d != 0 && k > 0
    ensures Make(n * k, d * k) == Make(n, d)
  {
    var an, ad := Abs(n), Abs(d);
    AbsScale(n, k);
    AbsScale(d, k);
    var p, q := GcdPositive(an, ad);
    var g := Gcd(an, ad);
    GcdScale(an, ad, k);
    ScaledQuotient(an, g, p, k);
    ScaledQuotient(ad, g, q, k);
  }

  /** Rebuilding a rational that is already in lowest terms changes nothing. */
  lemma MakeOfNormalized(r: Rational)
    requires Normalized(r)
    ensures Make(r.num, r.den) == r
  {
    var p, q := GcdPositive(Abs(r.num), r.den);
  }

  /** Lowest terms are unique: two normalized rationals with one value are
      one pair. */
  lemma {:induction false} ValueInjective(r1: Rational, r2: Rational)
    requires Normalized(r1) && Normalized(r2)
    requires Value(r1) == Value(r2)
    ensures r1 == r2
  {
    ValueCross(r1.num, r1.den, r2.num, r2.den);
    MakeScale(r1.num, r1.den, r2.den);
    MakeScale(r2.num, r2.den, r1.den);
    MakeOfNormalized(r1);
    MakeOfNormalized(r2);
    assert r1.den * r2.den == r2.den * r1.den;
  }

  /** operator== compares numerators and denominators; on normalized
      rationals that is exactly equality of the numbers. */
  lemma EqualIffSameValue(a: Rational, b: Rational)
    requires Normalized(a) && Normalized(b)
    ensures a == b <==> Value(a) == Value(b)
  {
    if Value(a) == Value(b) {
      ValueInjective(a, b);
    }
  }

  // ---------------------------------------------------------------------
  // Values of the operations

  lemma MulValue(a: Rational, b: Rational)
    requires a.den > 0 && b.den > 0
    ensures Value(Mul(a, b)) == Value(a) * Value(b)
  {
    MakeValue(a.num * b.num, a.den * b.den);
    var x1, y1, x2, y2 := a.num as real, a.den as real, b.num as real, b.den as real;
    assert (a.num * b.num) as real == x1 * x2;
    assert (a.den * b.den) as real == y1 * y2;
  }

  lemma InverseValue(a: Rational)
    requires a.den > 0 && a.num != 0
    ensures Value(a) != 0.0
    ensures Value(Inverse(a)) == 1.0 / Value(a)
  {
    MakeValue(a.den, a.num);
  }

  lemma DivValue(a: Rational, b: Rational)
    requires a.den > 0 && b.den > 0 && b.num != 0
    ensures Value(b) != 0.0
    ensures Value(Div(a, b)) == Value(a) / Value(b)
  {
    InverseValue(b);
    MulValue(a, Inverse(b));
  }

  /** pow(b, e) is b raised to the integer e. */
  lemma {:induction false} PowValue(b: Rational, e: int)
    requires b.den > 0 && (e < 0 ==> b.num != 0)
    ensures e < 0 ==> Value(b) != 0.0
    ensures Value(Pow(b, e)) == RealPow(Value(b), e)
    decreases if e < 0 then -e else e
  {
    if e > 0 {
      PowValue(b, e - 1);
      MulValueOf(Pow(b, e - 1), b, Pow(b, e), RealPow(Value(b), e - 1));
    } else if e < 0 {
      PowValue(b, e + 1);
      DivValueOf(Pow(b, e + 1), b, Pow(b, e), RealPow(Value(b), e + 1));
    }
  }

  /** MulValue for a product whose first factor's value is known as v. */
  lemma MulValueOf(p: Rational, b: Rational, r: Rational, v: real)
    requires p.den > 0 && b.den > 0 && r == Mul(p, b) && Value(p) == v
    ensures Value(r) == v * Value(b)
  {
    MulValue(p, b);
  }

  /** DivValue for a quotient whose dividend's value is known as v. */
  lemma DivValueOf(p: Rational, b: Rational, r: Rational, v: real)
    requires p.den > 0 && b.den > 0 && b.num != 0 && r == Div(p, b) && Value(p) == v
    ensures Value(b) != 0.0
    ensures Value(r) == v / Value(b)
  {
    DivValue(p, b);
  }

  lemma MulNormalized(a: Rational, b: Rational)
    requires a.den > 0 && b.den > 0
    ensures Normalized(Mul(a, b))
  {
    MakeNormalized(a.num * b.num, a.den * b.den);
  }

  lemma PowNormalized(b: Rational, e: int)
    requires b.den > 0 && (e < 0 ==> b.num != 0)
    ensures Normalized(Pow(b, e))
  {
    if e > 0 {
      MulNormalized(Pow(b, e - 1), b);
    } else if e < 0 {
      MulNormalized(Pow(b, e + 1), Inverse(b));
    } else {
      assert Gcd(1, 1) == 1;
    }
  }

  /** A nonzero rational has nonzero powers. */
  lemma PowNonzero(b: Rational, e: int)
    requires b.den > 0 && b.num != 0
    ensures Pow(b, e).num != 0
  {
    PowValue(b, e);
    InverseValue(b);
    RealPowNonzero(Value(b), e);
  }

  // ---------------------------------------------------------------------
  // Algebra of the operations on normalized rationals

  lemma MulComm(a: Rational, b: Rational)
    requires a.den > 0 && b.den > 0
    ensures Mul(a, b) == Mul(b, a)
  {
    assert a.num * b.num == b.num * a.num;
    assert a.den * b.den == b.den * a.den;
  }

  lemma MulAssoc(a: Rational, b: Rational, c: Rational)
    requires a.den > 0 && b.den > 0 && c.den > 0
    ensures Mul(Mul(a, b), c) == Mul(a, Mul(b, c))
  {
    MulValue(a, b);
    MulValue(Mul(a, b), c);
    MulValue(b, c);
    MulValue(a, Mul(b, c));
    Assoc(Value(a), Value(b), Value(c));
    MulNormalized(Mul(a, b), c);
    MulNormalized(a, Mul(b, c));
    ValueInjective(Mul(Mul(a, b), c), Mul(a, Mul(b, c)));
  }

  /** rational{1} is the unit of the product. */
  lemma MulOne(a: Rational)
    requires Normalized(a)
    ensures Mul(One, a) == a && Mul(a, One) == a
  {
    MakeOfNormalized(a);
  }

  lemma PowOne(b: Rational)
    requires Normalized(b)
    ensures Pow(b, 1) == b
  {
    MulOne(b);
  }

  /** pow(pow(b, a), c) == pow(b, a * c) */
  lemma PowMul(b: Rational, a: int, c: int)
    requires b.den > 0 && b.num != 0
    ensures Pow(b, a).num != 0
    ensures Pow(Pow(b, a), c) == Pow(b, a * c)
  {
    PowNonzero(b, a);
    InverseValue(b);
    PowValue(b, a);
    PowValue(Pow(b, a), c);
    PowValue(b, a * c);
    RealPowMul(Value(b), a, c);
    PowNormalized(Pow(b, a), c);
    PowNormalized(b, a * c);
    ValueInjective(Pow(Pow(b, a), c), Pow(b, a * c));
  }

  /** pow(b, a + c) == pow(b, a) * pow(b, c), for every sign of the exponents */
  lemma PowAdd(b: Rational, a: int, c: int)
    requires b.den > 0 && b.num != 0
    ensures Pow(b, a + c) == Mul(Pow(b, a), Pow(b, c))
  {
    var s, p, q := Value(Pow(b, a + c)), Value(Pow(b, a)), Value(Pow(b, c));
    PowAddValue(b, a, c, s, p, q);
    PowNormalized(b, a + c);
    ProductByValue(Pow(b, a + c), Pow(b, a), Pow(b, c), s, p, q);
  }

  lemma PowAddValue(b: Rational, a: int, c: int, s: real, p: real, q: real)
    requires b.den > 0 && b.num != 0
    requires s == Value(Pow(b, a + c)) && p == Value(Pow(b, a)) && q == Value(Pow(b, c))
    ensures s == p * q
  {
    InverseValue(b);
    PowValue(b, a);
    PowValue(b, c);
    PowValue(b, a + c);
    RealPowAddOf(Value(b), a, c, s, p, q);
  }

  /** A normalized rational whose value is the product of two values is their product. */
  lemma ProductByValue(r: Rational, p: Rational, q: Rational, vr: real, vp: real, vq: real)
    requires p.den > 0 && q.den > 0 && Normalized(r)
    requires vr == Value(r) && vp == Value(p) && vq == Value(q) && vr == vp * vq
    ensures r == Mul(p, q)
  {
    MulValueOf(p, q, Mul(p, q), vp);
    MulNormalized(p, q);
    ValueInjective(r, Mul(p, q));
  }

  /** a / b == a * pow(b, -1) */
  lemma DivIsMulPowNeg(a: Rational, b: Rational)
    requires a.den > 0 && b.den > 0 && b.num != 0
    ensures Div(a, b) == Mul(a, Pow(b, -1))
  {
    assert Pow(b, -1) == Div(One, b);
    MulOne(Inverse(b)) by { MakeNormalized(b.den, b.num); }
  }

  // ---------------------------------------------------------------------
  // Number theory behind the constructor

  lemma GcdZero(a: nat, b: nat)
    ensures Gcd(a, b) == 0 <==> a == 0 && b == 0
    decreases b
  {
    if b != 0 {
      GcdZero(b, a % b);
    }
  }

  /** gcd(a, b) divides both arguments. */
  lemma {:induction false} GcdDivides(a: nat, b: nat) returns (p: nat, q: nat)
    ensures a == Gcd(a, b) * p && b == Gcd(a, b) * q
    decreases b
  {
    if b == 0 {
      p, q := 1, 0;
    } else {
      var p1, q1 := GcdDivides(b, a % b);
      var g := Gcd(b, a % b);
      assert Gcd(a, b) == g;
      CombineQuotient(a, b, g, p1, q1);
      GcdZero(a, b);
      NonnegFactor(a, g, (a / b) * p1 + q1);
      p, q := (a / b) * p1 + q1, p1;
    }
  }

  /** gcd(a·k, b·k) == gcd(a, b)·k */
  lemma {:induction false} GcdScale(a: nat, b: nat, k: nat)
    requires k > 0
    ensures Gcd(a * k, b * k) == Gcd(a, b) * k
    decreases b
  {
    if b != 0 {
      assert b * k > 0;
      ModScale(a, b, k);
      GcdScale(b, a % b, k);
    }
  }

  /** Dividing two numbers by their gcd leaves coprime quotients. */
  lemma ReducedCoprime(a: nat, b: nat, g: nat, p: nat, q: nat)
    requires g == Gcd(a, b) && g > 0 && a == g * p && b == g * q
    ensures Gcd(p, q) == 1
  {
    GcdScale(p, q, g);
    assert p * g == a && q * g == b;
    UnitFactor(Gcd(p, q), g);
  }

  lemma GcdPositive(a: nat, b: nat) returns (p: nat, q: nat)
    requires a != 0 || b != 0
    ensures Gcd(a, b) > 0
    ensures a == Gcd(a, b) * p && b == Gcd(a, b) * q
    ensures a / Gcd(a, b) == p && b / Gcd(a, b) == q
    ensures b > 0 ==> q > 0
  {
    GcdZero(a, b);
    p, q := GcdDivides(a, b);
    MulMod(Gcd(a, b), p);
    MulMod(Gcd(a, b), q);
  }

  lemma GcdBounds(a: nat, b: nat)
    requires a != 0 || b != 0
    ensures Gcd(a, b) > 0 && (b > 0 ==> b / Gcd(a, b) > 0)
  {
    var p, q := GcdPositive(a, b);
  }

  lemma MakeParts(n: int, d: int) returns (p: nat, q: nat)
    requires d != 0
    ensures q > 0 && Gcd(p, q) == 1
    ensures Make(n, d) == Rational(if (!(n < 0)) != (!(d < 0)) then -(p as int) else p as int, q)
    ensures Abs(n) == Gcd(Abs(n), Abs(d)) * p
    ensures Abs(d) == Gcd(Abs(n), Abs(d)) * q
  {
    var an, ad := Abs(n), Abs(d);
    p, q := GcdPositive(an, ad);
    ReducedCoprime(an, ad, Gcd(an, ad), p, q);
  }

  // ---------------------------------------------------------------------
  // Integer and real arithmetic steps

  lemma MulAtLeast(a: int, d: int)
    requires a >= 1 && d > 0
    ensures a * d >= d
  {
    assert a * d == (a - 1) * d + d;
    assert (a - 1) * d >= 0;
  }

  lemma DivModUnique(x: int, d: int, q: int, r: int)
    requires d > 0 && x == q * d + r && 0 <= r < d
    ensures x / d == q && x % d == r
  {
    var q0, r0 := x / d, x % d;
    assert x == q0 * d + r0 && 0 <= r0 < d;
    if q0 > q {
      assert (q0 - q) * d == q0 * d - q * d;
      MulAtLeast(q0 - q, d);
    } else if q0 < q {
      assert (q - q0) * d == q * d - q0 * d;
      MulAtLeast(q - q0, d);
    }
  }

  lemma MulMod(g: int, p: int)
    requires g > 0
    ensures (g * p) % g == 0 && (g * p) / g == p
  {
    DivModUnique(g * p, g, p, 0);
  }

  lemma CombineQuotient(a: int, b: int, g: int, p1: int, q1: int)
    requires b > 0 && b == g * p1 && a % b == g * q1
    ensures a == g * ((a / b) * p1 + q1)
  {
    var k := a / b;
    assert a == k * b + a % b;
    assert k * b == g * (k * p1);
  }

  lemma NonnegFactor(a: int, g: int, p: int)
    requires g > 0 && a >= 0 && a == g * p
    ensures p >= 0
  {
    if p < 0 {
      MulAtLeast(-p, g);
    }
  }

  lemma ModScale(a: nat, b: nat, k: nat)
    requires b > 0 && k > 0
    ensures (a * k) % (b * k) == (a % b) * k
  {
    var q, r := a / b, a % b;
    assert a == q * b + r;
    assert a * k == q * (b * k) + r * k;
    assert r * k < b * k;
    DivModUnique(a * k, b * k, q, r * k);
  }

  lemma UnitFactor(x: int, g: int)
    requires g > 0 && x * g == g
    ensures x == 1
  {
    if x >= 2 {
      MulAtLeast(x - 1, g);
    }
  }

  lemma AbsScale(n: int, k: int)
    requires k > 0
    ensures Abs(n * k) == Abs(n) * k
    ensures (n * k < 0) == (n < 0)
  {
    if n < 0 {
      assert n * k == -((-n) * k);
      MulAtLeast(-n, k);
    } else if n > 0 {
      MulAtLeast(n, k);
    }
  }

  lemma ScaledQuotient(a: int, g: int, p: int, k: int)
    requires g > 0 && k > 0 && a == g * p
    ensures g * k > 0 && (a * k) / (g * k) == p
  {
    MulAtLeast(g, k);
    assert a * k == (g * k) * p;
    MulMod(g * k, p);
  }

  lemma SignedCross(n: int, d: int, g: int, p: int, q: int)
    requires Abs(n) == g * p && Abs(d) == g * q
    ensures (if (!(n < 0)) != (!(d < 0)) then -p else p) * d == n * q
  {
    if n < 0 && d < 0 {
      assert -p * d == p * (g * q);
    } else if n < 0 {
      assert -p * d == -p * (g * q);
    } else if d < 0 {
      assert -p * d == p * (g * q);
    } else {
      assert p * d == p * (g * q);
    }
  }

  lemma CrossValue(n1: int, d1: int, n2: int, d2: int)
    requires d1 != 0 && d2 != 0 && n1 * d2 == n2 * d1
    ensures n1 as real / d1 as real == n2 as real / d2 as real
  {
    var x1, y1, x2, y2 := n1 as real, d1 as real, n2 as real, d2 as real;
    assert x1 * y2 == (n1 * d2) as real;
    assert x2 * y1 == (n2 * d1) as real;
  }

  lemma ValueCross(n1: int, d1: int, n2: int, d2: int)
    requires d1 > 0 && d2 > 0
    requires n1 as real / d1 as real == n2 as real / d2 as real
    ensures n1 * d2 == n2 * d1
  {
    var x1, y1, x2, y2 := n1 as real, d1 as real, n2 as real, d2 as real;
    assert x1 == (x1 / y1) * y1;
    assert x2 == (x2 / y2) * y2;
    assert x1 * y2 == (x1 / y1) * y1 * y2;
    assert x2 * y1 == (x2 / y2) * y2 * y1;
    assert (n1 * d2) as real == x1 * y2;
    assert (n2 * d1) as real == x2 * y1;
  }
}
