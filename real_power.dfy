/** Integer powers of real numbers: the meaning given to kul::pow on
    rationals and to the magnitude of a unit raised to a power. */
module RealPowers {

  /**
   * x^e for an integer exponent: one more factor x for each step above
   * zero, one more division by x for each step below. Negative exponents
   * need x != 0.
   */
  function RealPow(x: real, e: int): real
    requires e < 0 ==> x != 0.0
    decreases if e < 0 then -e else e
  {
    if e == 0 then 1.0
    else if e > 0 then RealPow(x, e - 1) * x
    else RealPow(x, e + 1) / x
  }

  /** x^n for a natural n, by repeated multiplication only; the power laws are proved on it first. */
  function NatPow(x: real, n: nat): real
  {
    if n == 0 then 1.0 else NatPow(x, n - 1) * x
  }

  // Single steps of field arithmetic, kept apart so that each proof
  // obligation stays small.

  lemma Assoc(u: real, v: real, w: real)
    ensures (u * v) * w == u * (v * w)
  {
  }

  lemma Interchange(p: real, q: real, x: real, y: real)
    ensures (p * q) * (x * y) == (p * x) * (q * y)
  {
  }

  lemma RecipStep(u: real, x: real)
    requires u != 0.0 && x != 0.0
    ensures (1.0 / u) / x == 1.0 / (u * x)
  {
  }

  lemma RecipOfProduct(u: real, v: real)
    requires u != 0.0 && v != 0.0
    ensures 1.0 / (u * v) == (1.0 / u) * (1.0 / v)
  {
  }

  /** t = s*n gives s = t * (1/n). */
  lemma DivideOut(t: real, s: real, n: real)
    requires n != 0.0 && t == s * n
    ensures s == t * (1.0 / n)
  {
  }

  /** Dividing s*n by n again gives s. */
  lemma DivideBack(t: real, p: real, s: real, n: real)
    requires n != 0.0 && p == s * n && t == p / n
    ensures t == s
  {
  }

  /** n = s*t gives 1/s = t * (1/n). */
  lemma RecipDivideOut(n: real, s: real, t: real)
    requires s != 0.0 && t != 0.0 && n == s * t
    ensures 1.0 / s == t * (1.0 / n)
  {
  }

  /** Equals for equals in t' = p' * q'. */
  lemma ProductOfEquals(t: real, p: real, q: real, t': real, p': real, q': real)
    requires t == t' && p == p' && q == q' && t' == p' * q'
    ensures t == p * q
  {
  }

  /** Equals for equals in t' = p' / q. */
  lemma QuotientOfEquals(t: real, p: real, q: real, t': real, p': real)
    requires q != 0.0 && t == t' && p == p' && t' == p' / q
    ensures t == p / q
  {
  }

  lemma RecipRecip(u: real)
    requires u != 0.0
    ensures 1.0 / (1.0 / u) == u
  {
  }

  // ---------------------------------------------------------------------
  // Natural powers

  lemma {:induction false} NatPowNonzero(x: real, n: nat)
    requires x != 0.0
    ensures NatPow(x, n) != 0.0
  {
    if n > 0 {
      NatPowNonzero(x, n - 1);
    }
  }

  lemma {:induction false} NatPowAdd(x: real, a: nat, c: nat)
    ensures NatPow(x, a + c) == NatPow(x, a) * NatPow(x, c)
  {
    if c > 0 {
      NatPowAdd(x, a, c - 1);
      Assoc(NatPow(x, a), NatPow(x, c - 1), x);
    }
  }

  lemma {:induction false} NatPowProduct(x: real, y: real, n: nat)
    ensures NatPow(x * y, n) == NatPow(x, n) * NatPow(y, n)
  {
    if n > 0 {
      NatPowProduct(x, y, n - 1);
      Interchange(NatPow(x, n - 1), NatPow(y, n - 1), x, y);
    }
  }

  /** `NatPowAdd` with the sum named, so that callers need no exponent arithmetic. */
  lemma NatPowAddAt(x: real, a: nat, c: nat, n: nat)
    requires n == a + c
    ensures NatPow(x, n) == NatPow(x, a) * NatPow(x, c)
  {
    NatPowAdd(x, a, c);
  }

  lemma {:induction false} NatPowMul(x: real, a: nat, c: nat)
    ensures NatPow(x, a * c) == NatPow(NatPow(x, a), c)
  {
    if c > 0 {
      var k := a * (c - 1);
      NatPowMul(x, a, c - 1);
      NatPowAddAt(x, k, a, a * c);
    }
  }

  lemma {:induction false} NatPowOfOne(n: nat)
    ensures NatPow(1.0, n) == 1.0
  {
    if n > 0 {
      NatPowOfOne(n - 1);
    }
  }

  /** (1/x)^n == 1 / x^n */
  lemma {:induction false} NatPowRecip(x: real, n: nat)
    requires x != 0.0
    ensures NatPow(x, n) != 0.0
    ensures NatPow(1.0 / x, n) == 1.0 / NatPow(x, n)
  {
    NatPowNonzero(x, n);
    if n > 0 {
      NatPowRecip(x, n - 1);
      RecipOfProduct(NatPow(x, n - 1), x);
    }
  }

  // ---------------------------------------------------------------------
  // From natural to integer powers

  /** A non-negative exponent gives the natural power. */
  lemma {:induction false} RealPowOfNat(x: real, n: nat)
    ensures RealPow(x, n) == NatPow(x, n)
  {
    if n > 0 {
      RealPowOfNat(x, n - 1);
    }
  }

  /** A negative exponent gives the reciprocal of the natural power. */
  lemma {:induction false} RealPowOfNegNat(x: real, n: nat)
    requires x != 0.0
    ensures NatPow(x, n) != 0.0
    ensures RealPow(x, -(n as int)) == 1.0 / NatPow(x, n)
  {
    NatPowNonzero(x, n);
    if n > 0 {
      RealPowOfNegNat(x, n - 1);
      NatPowNonzero(x, n - 1);
      var e: int := -(n as int);
      assert e + 1 == -((n - 1) as int);
      RecipStep(NatPow(x, n - 1), x);
    }
  }

  /** Both sides of zero at once: x^e is x^|e| or its reciprocal. */
  lemma RealPowCases(x: real, e: int)
    requires e < 0 ==> x != 0.0
    ensures e >= 0 ==> RealPow(x, e) == NatPow(x, e)
    ensures e < 0 ==> NatPow(x, -e) != 0.0 && RealPow(x, e) == 1.0 / NatPow(x, -e)
  {
    if e >= 0 {
      RealPowOfNat(x, e);
    } else {
      RealPowOfNegNat(x, -e);
    }
  }

  // ---------------------------------------------------------------------
  // The power laws on integer exponents

  /** A nonzero base has nonzero powers. */
  lemma RealPowNonzero(x: real, e: int)
    requires x != 0.0
    ensures RealPow(x, e) != 0.0
  {
    RealPowCases(x, e);
    if e >= 0 {
      NatPowNonzero(x, e);
    }
  }

  lemma RealPowOne(x: real)
    ensures RealPow(x, 1) == x
  {
  }

  /** x^(a+c) == x^a * x^c, for natural a and c. */
  lemma AddNat(x: real, a: nat, c: nat)
    ensures RealPow(x, a + c) == RealPow(x, a) * RealPow(x, c)
  {
    RealPowOfNat(x, a);
    RealPowOfNat(x, c);
    RealPowOfNat(x, a + c);
    NatPowAdd(x, a, c);
    ProductOfEquals(RealPow(x, a + c), RealPow(x, a), RealPow(x, c),
                    NatPow(x, a + c), NatPow(x, a), NatPow(x, c));
  }

  /** x^(a+c) == x^a * x^c, for a natural a and a negative c. */
  lemma AddNatNeg(x: real, a: nat, c: int)
    requires x != 0.0 && c < 0
    ensures RealPow(x, a + c) == RealPow(x, a) * RealPow(x, c)
  {
    var n := -c;
    RealPowCases(x, a);
    RealPowCases(x, c);
    RealPowCases(x, a + c);
    NatPowNonzero(x, n);
    if a + c >= 0 {
      var s := a + c;
      NatPowAdd(x, s, n);
      assert s + n == a;
      DivideOut(NatPow(x, a), NatPow(x, s), NatPow(x, n));
    } else {
      var m := -(a + c);
      NatPowAdd(x, m, a);
      assert m + a == n;
      NatPowNonzero(x, m);
      NatPowNonzero(x, a);
      RecipDivideOut(NatPow(x, n), NatPow(x, m), NatPow(x, a));
    }
  }

  /** x^(a+c) == x^a * x^c */
  lemma RealPowAdd(x: real, a: int, c: int)
    requires x != 0.0
    ensures RealPow(x, a + c) == RealPow(x, a) * RealPow(x, c)
  {
    if a >= 0 && c >= 0 {
      AddNat(x, a, c);
    } else if a >= 0 {
      AddNatNeg(x, a, c);
    } else if c >= 0 {
      AddNatNeg(x, c, a);
    } else {
      RealPowOfNegNat(x, -a);
      RealPowOfNegNat(x, -c);
      RealPowOfNegNat(x, -(a + c));
      NatPowAdd(x, -a, -c);
      RecipOfProduct(NatPow(x, -a), NatPow(x, -c));
    }
  }

  /** The one-step law that holds on both sides of zero: x^(e+1) == x^e * x. */
  lemma RealPowStep(x: real, e: int)
    requires x != 0.0
    ensures RealPow(x, e + 1) == RealPow(x, e) * x
  {
    RealPowAdd(x, e, 1);
  }

  /** One step down: x^e == x^(e+1) / x. */
  lemma RealPowDown(x: real, e: int)
    requires x != 0.0
    ensures RealPow(x, e) == RealPow(x, e + 1) / x
  {
    RealPowStep(x, e);
  }

  /** (x*y)^n == x^n * y^n */
  lemma RealPowProduct(x: real, y: real, n: int)
    requires x != 0.0 && y != 0.0
    ensures RealPow(x * y, n) == RealPow(x, n) * RealPow(y, n)
  {
    RealPowCases(x * y, n);
    RealPowCases(x, n);
    RealPowCases(y, n);
    if n >= 0 {
      NatPowProduct(x, y, n);
    } else {
      NatPowProduct(x, y, -n);
      RecipOfProduct(NatPow(x, -n), NatPow(y, -n));
    }
  }

  /** (x^a)^c == x^(a*c), for natural a and c. */
  lemma MulNatNat(x: real, a: nat, c: nat)
    ensures RealPow(x, a * c) == RealPow(RealPow(x, a), c)
  {
    RealPowOfNat(x, a);
    RealPowOfNat(x, a * c);
    RealPowOfNat(NatPow(x, a), c);
    NatPowMul(x, a, c);
  }

  /** (x^a)^c == x^(a*c), for a natural a and a negative c. */
  lemma MulNatNeg(x: real, a: nat, c: int)
    requires x != 0.0 && c < 0
    ensures RealPow(x, a) != 0.0
    ensures RealPow(x, a * c) == RealPow(RealPow(x, a), c)
  {
    var n := -c;
    var y := NatPow(x, a);
    RealPowOfNat(x, a);
    NatPowNonzero(x, a);
    RealPowOfNegNat(y, n);
    NatPowMul(x, a, n);
    assert a * c == -(a * n);
    RealPowCases(x, a * c);
  }

  /** (x^a)^c == x^(a*c), for a negative a and a natural c. */
  lemma MulNegNat(x: real, a: int, c: nat)
    requires x != 0.0 && a < 0
    ensures RealPow(x, a) != 0.0
    ensures RealPow(x, a * c) == RealPow(RealPow(x, a), c)
  {
    var m := -a;
    var p := NatPow(x, m);
    RealPowOfNegNat(x, m);
    NatPowRecip(p, c);
    RealPowOfNat(1.0 / p, c);
    RealPowCases(x, a * c);
    NatPowMul(x, m, c);
    assert a * c == -(m * c);
    if m * c == 0 {
      NatPowOfOne(c);
    }
  }

  /** (x^a)^c == x^(a*c), for negative a and c. */
  lemma MulNegNeg(x: real, a: int, c: int)
    requires x != 0.0 && a < 0 && c < 0
    ensures RealPow(x, a) != 0.0
    ensures RealPow(x, a * c) == RealPow(RealPow(x, a), c)
  {
    var m, n := -a, -c;
    var p := NatPow(x, m);
    RealPowOfNegNat(x, m);
    NatPowNonzero(p, n);
    RealPowOfNegNat(1.0 / p, n);
    NatPowRecip(p, n);
    assert a * c == m * n;
    RealPowOfNat(x, m * n);
    NatPowMul(x, m, n);
    RecipRecip(NatPow(p, n));
  }

  /** (x^a)^c == x^(a*c) */
  lemma RealPowMul(x: real, a: int, c: int)
    requires x != 0.0
    ensures RealPow(x, a) != 0.0
    ensures RealPow(x, a * c) == RealPow(RealPow(x, a), c)
  {
    RealPowNonzero(x, a);
    if a >= 0 && c >= 0 {
      MulNatNat(x, a, c);
    } else if a >= 0 {
      MulNatNeg(x, a, c);
    } else if c >= 0 {
      MulNegNat(x, a, c);
    } else {
      MulNegNeg(x, a, c);
    }
  }

  /** 1^e == 1 */
  lemma RealPowOfOne(e: int)
    ensures RealPow(1.0, e) == 1.0
  {
    RealPowCases(1.0, e);
    NatPowOfOne(if e >= 0 then e else -e);
  }

  /** x^(-e) == 1 / x^e */
  lemma RealPowNeg(x: real, e: int)
    requires x != 0.0
    ensures RealPow(x, e) != 0.0
    ensures RealPow(x, -e) == 1.0 / RealPow(x, e)
  {
    RealPowNonzero(x, e);
    RealPowCases(x, e);
    RealPowCases(x, -e);
    if e < 0 {
      RecipRecip(NatPow(x, -e));
    }
  }

  // ---------------------------------------------------------------------
  // The laws above with every power named by a variable, for callers whose
  // proofs should only multiply plain values

  lemma RealPowAddOf(x: real, a: int, c: int, s: real, p: real, q: real)
    requires x != 0.0
    requires s == RealPow(x, a + c) && p == RealPow(x, a) && q == RealPow(x, c)
    ensures s == p * q
  {
    RealPowAdd(x, a, c);
  }

  lemma RealPowNegOf(x: real, e: int, z: real, y: real)
    requires x != 0.0
    requires z == RealPow(x, -e) && y == RealPow(x, e)
    ensures y != 0.0 && z == 1.0 / y
  {
    RealPowNeg(x, e);
  }

  lemma RealPowProductOf(x: real, y: real, z: real, n: int, px: real, py: real, pz: real)
    requires x != 0.0 && y != 0.0 && z == x * y
    requires px == RealPow(x, n) && py == RealPow(y, n) && pz == RealPow(z, n)
    ensures pz == px * py
  {
    RealPowProduct(x, y, n);
    ProductOfEquals(pz, px, py, RealPow(x * y, n), RealPow(x, n), RealPow(y, n));
  }

  // ---------------------------------------------------------------------
  // Field steps between named values, for proofs that keep every
  // product between plain variables

  /** r = v * x, v = f * a and p = a * x give r = f * p. */
  lemma FoldStep(r: real, v: real, x: real, f: real, a: real, p: real)
    requires r == v * x && v == f * a && p == a * x
    ensures r == f * p
  {
    Assoc(f, a, x);
  }

  /** p = p1 * y, p1 = f1 * c and f = f1 * y give p = f * c. */
  lemma SwapStep(p: real, p1: real, y: real, f1: real, c: real, f: real)
    requires p == p1 * y && p1 == f1 * c && f == f1 * y
    ensures p == f * c
  {
    Assoc(f1, c, y);
    Assoc(f1, y, c);
  }

  /** p = g * x, f = g * k and x = k * c give p = f * c. */
  lemma Regroup(p: real, g: real, x: real, f: real, k: real, c: real)
    requires p == g * x && f == g * k && x == k * c
    ensures p == f * c
  {
    Assoc(g, k, c);
  }

  /** r = f * z with z = 1/y gives r = f / y. */
  lemma TimesReciprocal(r: real, f: real, y: real, z: real)
    requires y != 0.0 && z == 1.0 / y && r == f * z
    ensures r == f / y
  {
  }

  /** r = v / x, v = f / a and p = a * x give r = f / p. */
  lemma DivideTwice(r: real, v: real, x: real, f: real, a: real, p: real)
    requires a != 0.0 && x != 0.0 && r == v / x && v == f / a && p == a * x
    ensures p != 0.0 && r == f / p
  {
  }

  /** p = f * x with x = 1 gives p = f. */
  lemma TimesOne(p: real, f: real, x: real)
    requires p == f * x && x == 1.0
    ensures p == f
  {
  }
}
