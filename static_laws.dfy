/**
 * What the static unit metafunctions do: where `multiply_with` puts a
 * power, how dimensions combine under `multiply`, `divide`, `simplify`
 * and `static_root`, when `static_root` is rejected, and the laws of
 * `are_equal`, `make_relative` and `is_absolute`.
 */
module StaticLaws {
  import opened Dimensions
  import opened Optionals
  import opened Units
  import opened StaticUnits

  /** `t` is a power of the very type `b`. */
  predicate PowOf(t: SUnit, b: SUnit)
  {
    t.SPow? && t.base == b
  }

  // ---------------------------------------------------------------------
  // multiply_with and divide_by on a power

  /**
   * `multiply_with<P, static_pow<B, E>>` when unit `k` is the first power
   * of `B` in P: that unit's exponent grows by `E` and every other unit
   * stays where it was.
   */
  lemma {:induction false} MulPowReplaces(ts: seq<SUnit>, b: SUnit, e: int, k: nat)
    requires k < |ts| && PowOf(ts[k], b)
    requires forall j | 0 <= j < k :: !PowOf(ts[j], b)
    ensures MulPow(ts, b, e) == ts[k := SPow(b, ts[k].exponent + e)]
    decreases k
  {
    if k > 0 {
      var rest := ts[1..];
      assert !PowOf(ts[0], b);
      forall j | 0 <= j < k - 1 ensures !PowOf(rest[j], b) {
        assert rest[j] == ts[j + 1];
      }
      MulPowReplaces(rest, b, e, k - 1);
      assert [ts[0]] + rest[k - 1 := SPow(b, rest[k - 1].exponent + e)]
        == ts[k := SPow(b, ts[k].exponent + e)];
    }
  }

  /** `multiply_with<P, static_pow<B, E>>` when no unit of P is a power of `B`: `B^E` is appended. */
  lemma {:induction false} MulPowAppends(ts: seq<SUnit>, b: SUnit, e: int)
    requires forall j | 0 <= j < |ts| :: !PowOf(ts[j], b)
    ensures MulPow(ts, b, e) == ts + [SPow(b, e)]
    decreases ts
  {
    if |ts| > 0 {
      var rest := ts[1..];
      assert !PowOf(ts[0], b);
      forall j | 0 <= j < |rest| ensures !PowOf(rest[j], b) {
        assert rest[j] == ts[j + 1];
      }
      MulPowAppends(rest, b, e);
      assert [ts[0]] + (rest + [SPow(b, e)]) == ts + [SPow(b, e)];
    }
  }

  /** Dividing by `B^E` is multiplying by `B^-E`. */
  lemma {:induction false} DivPowIsMulPowNeg(ts: seq<SUnit>, b: SUnit, e: int)
    ensures DivPow(ts, b, e) == MulPow(ts, b, -e)
    decreases ts
  {
    if |ts| > 0 && !PowOf(ts[0], b) {
      DivPowIsMulPowNeg(ts[1..], b, e);
    }
  }

  // ---------------------------------------------------------------------
  // Dimensions

  /** A non-empty product's dimension is its head's times its tail's. */
  lemma SDimensionFoldCons(ts: seq<SUnit>)
    requires |ts| > 0
    ensures SDimensionFold(ts) == Mul(SDimension(ts[0]), SDimensionFold(ts[1..]))
  {
    if |ts| == 1 {
      MulIdentity(SDimension(ts[0]));
    }
  }

  lemma SDimensionFoldPrepend(x: SUnit, ts: seq<SUnit>)
    ensures SDimensionFold([x] + ts) == Mul(SDimension(x), SDimensionFold(ts))
  {
    SDimensionFoldCons([x] + ts);
    assert ([x] + ts)[1..] == ts;
  }

  lemma {:induction false} MulPowDimension(ts: seq<SUnit>, b: SUnit, e: int)
    ensures SDimensionFold(MulPow(ts, b, e)) == Mul(SDimensionFold(ts), Pow(SDimension(b), e))
    decreases ts
  {
    var d := Pow(SDimension(b), e);
    if |ts| == 0 {
      MulIdentity(d);
    } else {
      var rest := ts[1..];
      SDimensionFoldCons(ts);
      if PowOf(ts[0], b) {
        var x := SPow(b, ts[0].exponent + e);
        SDimensionFoldPrepend(x, rest);
        PowAdd(SDimension(b), ts[0].exponent, e);
        MulAssociative(Pow(SDimension(b), ts[0].exponent), d, SDimensionFold(rest));
        MulCommutative(d, SDimensionFold(rest));
        MulAssociative(Pow(SDimension(b), ts[0].exponent), SDimensionFold(rest), d);
      } else {
        MulPowDimension(rest, b, e);
        SDimensionFoldPrepend(ts[0], MulPow(rest, b, e));
        MulAssociative(SDimension(ts[0]), SDimensionFold(rest), d);
      }
    }
  }

  /** Multiplying a unit into a product multiplies the product's dimension by the unit's. */
  lemma {:induction false} MulWithDimension(ts: seq<SUnit>, u: SUnit)
    ensures SDimensionFold(MulWith(ts, u)) == Mul(SDimensionFold(ts), SDimension(u))
    decreases u, 1
  {
    match u
    case SProduct(us) => MulWithAllDimension(ts, us);
    case SPow(b, e) => MulPowDimension(ts, b, e);
    case _ =>
      MulPowDimension(ts, u, 1);
      PowOne(SDimension(u));
  }

  lemma {:induction false} MulWithAllDimension(ts: seq<SUnit>, us: seq<SUnit>)
    ensures SDimensionFold(MulWithAll(ts, us)) == Mul(SDimensionFold(ts), SDimensionFold(us))
    decreases us, 0
  {
    if |us| == 0 {
      MulIdentity(SDimensionFold(ts));
    } else {
      MulWithDimension(ts, us[0]);
      MulWithAllDimension(MulWith(ts, us[0]), us[1..]);
      SDimensionFoldCons(us);
      MulAssociative(SDimensionFold(ts), SDimension(us[0]), SDimensionFold(us[1..]));
    }
  }

  /** Dividing a product by a unit divides the product's dimension by the unit's. */
  lemma {:induction false} DivWithDimension(ts: seq<SUnit>, u: SUnit)
    ensures SDimensionFold(DivWith(ts, u)) == Div(SDimensionFold(ts), SDimension(u))
    decreases u, 1
  {
    match u
    case SProduct(us) => DivWithAllDimension(ts, us);
    case SPow(b, e) =>
      DivPowIsMulPowNeg(ts, b, e);
      MulPowDimension(ts, b, -e);
      PowNegIsDiv(SDimensionFold(ts), SDimension(b), e);
    case _ =>
      DivPowIsMulPowNeg(ts, u, 1);
      MulPowDimension(ts, u, -1);
      PowNegIsDiv(SDimensionFold(ts), SDimension(u), 1);
      PowOne(SDimension(u));
  }

  lemma {:induction false} DivWithAllDimension(ts: seq<SUnit>, us: seq<SUnit>)
    ensures SDimensionFold(DivWithAll(ts, us)) == Div(SDimensionFold(ts), SDimensionFold(us))
    decreases us, 0
  {
    var f := SDimensionFold(ts);
    if |us| == 0 {
      assert Div(f, Dimensionless) == f;
    } else {
      var x := SDimension(us[0]);
      var g := SDimensionFold(us[1..]);
      DivWithDimension(ts, us[0]);
      DivWithAllDimension(DivWith(ts, us[0]), us[1..]);
      SDimensionFoldCons(us);
      DivDiv(f, x, g);
    }
  }

  /** `canonicalize` keeps the dimension. */
  lemma CanonicalizeDimension(u: SUnit)
    ensures SDimensionFold(Canonicalize(u)) == SDimension(u)
  {
    MulWithDimension([], u);
    MulIdentity(SDimension(u));
  }

  /** `simplify` keeps the dimension. */
  lemma {:induction false} SSimplifyDimension(u: SUnit)
    ensures SDimension(SSimplify(u)) == SDimension(u)
    decreases u, 1
  {
    match u
    case SPow(b, e) =>
      if e == 0 { PowZero(SDimension(b)); } else if e == 1 { PowOne(SDimension(b)); }
    case SProduct(ts) => SSimplifyTermsDimension(ts);
    case _ =>
  }

  lemma {:induction false} SSimplifyTermsDimension(ts: seq<SUnit>)
    ensures SDimensionFold(SSimplifyTerms(ts)) == SDimensionFold(ts)
    decreases ts, 0
  {
    if |ts| > 0 {
      var x := SSimplify(ts[0]);
      var rest := SSimplifyTerms(ts[1..]);
      SSimplifyDimension(ts[0]);
      SSimplifyTermsDimension(ts[1..]);
      SDimensionFoldCons(ts);
      if x == SUnitless {
        MulIdentity(SDimensionFold(rest));
      } else {
        SDimensionFoldPrepend(x, rest);
      }
    }
  }

  /** `multiply<A, B>` has the product of the dimensions. */
  lemma MultiplyDimension(a: SUnit, b: SUnit)
    ensures SDimension(Multiply(a, b)) == Mul(SDimension(a), SDimension(b))
  {
    var p := MulWith(Canonicalize(a), b);
    MulWithDimension(Canonicalize(a), b);
    CanonicalizeDimension(a);
    SSimplifyDimension(SProduct(p));
  }

  /** `divide<A, B>` has the quotient of the dimensions. */
  lemma DivideDimension(a: SUnit, b: SUnit)
    ensures SDimension(Divide(a, b)) == Div(SDimension(a), SDimension(b))
  {
    var p := DivWith(Canonicalize(a), b);
    DivWithDimension(Canonicalize(a), b);
    CanonicalizeDimension(a);
    SSimplifyDimension(SProduct(p));
  }

  /** Rooting a product of powers and raising the result back gives the original dimension. */
  lemma {:induction false} RootPowsDimension(ts: seq<SUnit>, n: int)
    requires AllPows(ts) && RootPows(ts, n).Ok?
    ensures Pow(SDimensionFold(RootPows(ts, n).value), n) == SDimensionFold(ts)
    decreases ts
  {
    if |ts| == 0 {
      PowDimensionless(n);
    } else {
      var x := RootPow(ts[0], n).value;
      var rest := RootPows(ts[1..], n).value;
      RootPowsDimension(ts[1..], n);
      SDimensionFoldPrepend(x, rest);
      SDimensionFoldCons(ts);
      PowOfMul(SDimension(x), SDimensionFold(rest), n);
      PowMul(SDimension(ts[0].base), ts[0].exponent / n, n);
      assert ts[0].exponent / n * n == ts[0].exponent;
    }
  }

  /** A successful `static_root<A, N>`, raised to the N-th power, has the dimension of A. */
  lemma StaticRootDimension(a: SUnit, n: int)
    requires StaticRoot(a, n).Ok?
    ensures Pow(SDimension(StaticRoot(a, n).value), n) == SDimension(a)
  {
    CanonicalAllPows(a);
    var ts := RootPows(Canonicalize(a), n).value;
    RootPowsDimension(Canonicalize(a), n);
    CanonicalizeDimension(a);
    SSimplifyDimension(SProduct(ts));
  }

  // ---------------------------------------------------------------------
  // When static_root is rejected

  /** `static_root_helper` fails exactly when one of the powers fails. */
  lemma {:induction false} RootPowsFails(ts: seq<SUnit>, n: int)
    requires AllPows(ts)
    ensures RootPows(ts, n).Err? <==> exists i | 0 <= i < |ts| :: RootPow(ts[i], n).Err?
    decreases ts
  {
    if |ts| > 0 {
      RootPowsFails(ts[1..], n);
      assert forall i | 1 <= i < |ts| :: ts[i] == ts[1..][i - 1];
      if RootPow(ts[0], n).Ok? && RootPows(ts[1..], n).Ok? {
        forall i | 0 <= i < |ts| ensures RootPow(ts[i], n).Ok? {
          if i > 0 {
            assert ts[i] == ts[1..][i - 1];
          }
        }
      }
    }
  }

  /**
   * `static_root<A, N>` is rejected exactly when some power of A's
   * canonical form has an exponent that N does not divide, N = 0 dividing
   * none: the zeroth root of a unit whose canonical form is empty (such as
   * `static_product<static_product<>>`) is `unitless`.
   */
  lemma StaticRootFails(a: SUnit, n: int)
    ensures AllPows(Canonicalize(a))
    ensures StaticRoot(a, n).Err? <==>
      exists i | 0 <= i < |Canonicalize(a)| ::
        n == 0 || Canonicalize(a)[i].exponent % n != 0
  {
    CanonicalAllPows(a);
    RootPowsFails(Canonicalize(a), n);
  }

  // ---------------------------------------------------------------------
  // are_equal, make_relative, is_absolute

  lemma AreEqualEquivalence(a: SUnit, b: SUnit, c: SUnit)
    ensures AreEqual(a, a)
    ensures AreEqual(a, b) ==> AreEqual(b, a)
    ensures AreEqual(a, b) && AreEqual(b, c) ==> AreEqual(a, c)
  {
  }

  /**
   * `make_relative<T>` is always relative, and is equal to T exactly when
   * T is already relative; making a unit relative twice changes nothing
   * further.
   */
  lemma MakeRelativeLaws(t: SUnit)
    ensures IsRelative(MakeRelative(t))
    ensures AreEqual(MakeRelative(t), t) <==> IsRelative(t)
    ensures AreEqual(MakeRelative(MakeRelative(t)), MakeRelative(t))
  {
  }

  /** `is_relative` is the negation of `is_absolute`, and equal units agree on it. */
  lemma AbsoluteAgreesWithEquality(a: SUnit, b: SUnit)
    requires AreEqual(a, b)
    ensures IsAbsolute(a) <==> IsAbsolute(b)
  {
  }

  // ---------------------------------------------------------------------
  // Worked examples

  /** `multiply<meter, meter>` is `static_pow<meter, 2>`. */
  lemma MeterTimesMeter()
    ensures Multiply(SNamed(Meter), SNamed(Meter)) == SPow(SNamed(Meter), 2)
  {
    var m := SNamed(Meter);
    assert Canonicalize(m) == [SPow(m, 1)];
    assert MulWith([SPow(m, 1)], m) == [SPow(m, 2)];
  }

  /**
   * Unlike the run-time `root`, `static_root` accepts a named unit when the
   * root exponent is 1, and rejects it for 2.
   */
  lemma StaticRootOfMeter()
    ensures StaticRoot(SNamed(Meter), 1) == Ok(SNamed(Meter))
    ensures StaticRoot(SNamed(Meter), 2) == Err(NonDivisiblePower(1, 2))
    ensures StaticRoot(SNamed(Meter), 0) == Err(ZeroRootExponent)
    ensures StaticRoot(SProduct([]), 0) == Ok(SUnitless)
  {
    var m := SNamed(Meter);
    assert Canonicalize(m) == [SPow(m, 1)];
    assert [SPow(m, 1)][1..] == [];
    assert RootPow(SPow(m, 1), 1) == Ok(SPow(m, 1));
    assert RootPows([], 1) == Ok([]);
    assert [SPow(m, 1)] + [] == [SPow(m, 1)];
    assert RootPows([SPow(m, 1)], 1) == Ok([SPow(m, 1)]);
    assert SSimplifyTerms([SPow(m, 1)]) == [m];
  }

  /**
   * A metre and a relative metre are different types, so `multiply` keeps
   * them as two units of a product.
   */
  lemma MeterTimesRelativeMeter()
    ensures Multiply(SNamed(Meter), MakeRelative(SNamed(Meter)))
      == SProduct([SNamed(Meter), SRelative(SNamed(Meter))])
  {
    var m := SNamed(Meter);
    var r := SRelative(m);
    assert Canonicalize(m) == [SPow(m, 1)];
    assert MulWith([SPow(m, 1)], r) == [SPow(m, 1), SPow(r, 1)];
    assert [SPow(m, 1), SPow(r, 1)][1..] == [SPow(r, 1)];
    assert [SPow(r, 1)][1..] == [];
    assert SSimplifyTerms([SPow(r, 1)]) == [r];
    assert SSimplifyTerms([SPow(m, 1), SPow(r, 1)]) == [m, r];
  }

  // ---------------------------------------------------------------------
  // Cancellation and the root of a power

  /** `divide<multiply<A, B>, B>` has the dimension of A. */
  lemma CancelDimension(a: SUnit, b: SUnit)
    ensures SDimension(Divide(Multiply(a, b), b)) == SDimension(a)
  {
    MultiplyDimension(a, b);
    DivideDimension(Multiply(a, b), b);
  }

  /** `static_root<static_pow<U, E>, E>` is U for every unit type U and nonzero E. */
  lemma RootOfPower(u: SUnit, e: int)
    requires e != 0
    ensures StaticRoot(SPow(u, e), e) == Ok(u)
  {
    assert Canonicalize(SPow(u, e)) == [SPow(u, e)];
    assert [SPow(u, e)][1..] == [];
    assert e % e == 0 && e / e == 1 by {
      assert 1 * e == e;
    }
    assert RootPow(SPow(u, e), e) == Ok(SPow(u, 1));
    assert RootPows([SPow(u, e)][1..], e) == Ok([]);
    assert [SPow(u, 1)] + [] == [SPow(u, 1)];
    assert RootPows([SPow(u, e)], e) == Ok([SPow(u, 1)]);
    assert [SPow(u, 1)][1..] == [];
    assert SSimplifyTerms([SPow(u, 1)]) == PrependUnlessUnitless(u, []);
  }

  /**
   * Cancellation is not an identity of unit types: for an absolute c, the
   * product c^2 * c^-1 times a second, divided by the second, is the
   * absolute c, while the simplified product is a relative product of
   * two powers, so the two are not `are_equal`.
   */
  lemma CancelNotEqual(c: NamedUnit)
    requires c.origin.HasValue()
    ensures var a := SProduct([SPow(SNamed(c), 2), SPow(SNamed(c), -1)]);
      var s := SNamed(Second);
      Divide(Multiply(a, s), s) == SNamed(c) && !AreEqual(Divide(Multiply(a, s), s), SSimplify(a))
  {
    var x, s := SNamed(c), SNamed(Second);
    var a := SProduct([SPow(x, 2), SPow(x, -1)]);
    assert x != s && x != SUnitless;
    assert MulWith([], SPow(x, 2)) == [SPow(x, 2)];
    assert [SPow(x, 2)][1..] == [];
    assert MulPow([SPow(x, 2)], x, -1) == [SPow(x, 1)];
    assert MulWith([SPow(x, 2)], SPow(x, -1)) == [SPow(x, 1)];
    assert [SPow(x, 2), SPow(x, -1)][1..] == [SPow(x, -1)];
    assert [SPow(x, -1)][1..] == [];
    assert MulWithAll([SPow(x, 2)], [SPow(x, -1)]) == MulWithAll([SPow(x, 1)], []);
    assert MulWithAll([], [SPow(x, 2), SPow(x, -1)]) == MulWithAll([SPow(x, 2)], [SPow(x, -1)]);
    assert Canonicalize(a) == [SPow(x, 1)];
    assert [SPow(x, 1)][1..] == [];
    assert MulPow([], s, 1) == [SPow(s, 1)];
    assert MulPow([SPow(x, 1)], s, 1) == [SPow(x, 1)] + MulPow([], s, 1);
    assert MulWith([SPow(x, 1)], s) == [SPow(x, 1), SPow(s, 1)];
    assert [SPow(x, 1), SPow(s, 1)][1..] == [SPow(s, 1)];
    assert [SPow(s, 1)][1..] == [];
    assert SSimplifyTerms([SPow(s, 1)]) == [s];
    assert SSimplifyTerms([SPow(x, 1), SPow(s, 1)]) == [x, s];
    assert Multiply(a, s) == SProduct([x, s]);
    assert [x, s][1..] == [s];
    assert MulWith([], x) == [SPow(x, 1)];
    assert MulWithAll([SPow(x, 1)], [s]) == MulWithAll([SPow(x, 1), SPow(s, 1)], []);
    assert MulWithAll([], [x, s]) == MulWithAll([SPow(x, 1)], [s]);
    assert Canonicalize(SProduct([x, s])) == [SPow(x, 1), SPow(s, 1)];
    assert DivPow([SPow(s, 1)], s, 1) == [SPow(s, 0)];
    assert DivPow([SPow(x, 1), SPow(s, 1)], s, 1) == [SPow(x, 1)] + DivPow([SPow(s, 1)], s, 1);
    assert DivWith([SPow(x, 1), SPow(s, 1)], s) == [SPow(x, 1), SPow(s, 0)];
    assert SSimplifyTerms([SPow(s, 0)]) == [];
    assert SSimplifyTerms([SPow(x, 1), SPow(s, 0)]) == [x];
    assert SSimplifyTerms([SPow(x, -1)]) == [SPow(x, -1)];
    assert SSimplifyTerms([SPow(x, 2), SPow(x, -1)]) == [SPow(x, 2), SPow(x, -1)];
  }
}
