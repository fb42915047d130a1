/**
 * What the static unit metafunctions do to magnitudes: multiplying a unit
 * into a product multiplies the magnitudes, dividing divides them,
 * `canonicalize` and `simplify` keep them, and the N-th power of a
 * successful `static_root` has the magnitude of the unit it was taken
 * from.
 *
 * As in `DynamicMagnitudes`, each lemma names the magnitudes it relates
 * as real parameters tied to the units by its `requires` clause, and its
 * `ensures` clause relates those values.
 */
module StaticMagnitudes {
  import opened Units
  import opened RealPowers
  import opened StaticUnits
  import opened StaticLaws

  /** A non-empty product's magnitude is its head's times its tail's. */
  lemma SMagnitudeFoldCons(ts: seq<SUnit>, p: real, h: real, r: real)
    requires |ts| > 0
    requires p == SMagnitudeFold(ts) && h == SMagnitude(ts[0]) && r == SMagnitudeFold(ts[1..])
    ensures p == h * r
  {
    if |ts| == 1 {
      assert ts[1..] == [];
    }
  }

  lemma SMagnitudeFoldPrepend(x: SUnit, ts: seq<SUnit>, p: real, h: real, r: real)
    requires p == SMagnitudeFold([x] + ts) && h == SMagnitude(x) && r == SMagnitudeFold(ts)
    ensures p == h * r
  {
    assert ([x] + ts)[1..] == ts;
    SMagnitudeFoldCons([x] + ts, p, h, r);
  }

  /** For r, f the magnitudes of `multiply_with<P, B^E>` and of P, and c that of `B^E`: r = f * c. */
  lemma {:induction false} MulPowMagnitude(ts: seq<SUnit>, b: SUnit, e: int, r: real, f: real, c: real)
    requires r == SMagnitudeFold(MulPow(ts, b, e)) && f == SMagnitudeFold(ts)
    requires c == RealPow(SMagnitude(b), e)
    ensures r == f * c
    decreases ts
  {
    if |ts| > 0 {
      var rest := ts[1..];
      var g := SMagnitudeFold(rest);
      if PowOf(ts[0], b) {
        var x := SPow(b, ts[0].exponent + e);
        var s := SMagnitude(x);
        var p0 := SMagnitude(ts[0]);
        SMagnitudeFoldPrepend(x, rest, r, s, g);
        SMagnitudeFoldCons(ts, f, p0, g);
        RealPowAddOf(SMagnitude(b), ts[0].exponent, e, s, p0, c);
        SwapStep(r, s, g, p0, c, f);
      } else {
        var h := SMagnitude(ts[0]);
        var r1 := SMagnitudeFold(MulPow(rest, b, e));
        MulPowMagnitude(rest, b, e, r1, g, c);
        SMagnitudeFoldPrepend(ts[0], MulPow(rest, b, e), r, h, r1);
        SMagnitudeFoldCons(ts, f, h, g);
        Regroup(r, h, r1, f, g, c);
      }
    }
  }

  /** For r, f, m the magnitudes of `multiply_with<P, U>`, of P and of U: r = f * m. */
  lemma {:induction false} MulWithMagnitude(ts: seq<SUnit>, u: SUnit, r: real, f: real, m: real)
    requires r == SMagnitudeFold(MulWith(ts, u)) && f == SMagnitudeFold(ts) && m == SMagnitude(u)
    ensures r == f * m
    decreases u, 1
  {
    match u
    case SProduct(us) => MulWithAllMagnitude(ts, us, r, f, m);
    case SPow(b, e) => MulPowMagnitude(ts, b, e, r, f, m);
    case _ =>
      RealPowOne(SMagnitude(u));
      MulPowMagnitude(ts, u, 1, r, f, m);
  }

  lemma {:induction false} MulWithAllMagnitude(ts: seq<SUnit>, us: seq<SUnit>, r: real, f: real, m: real)
    requires r == SMagnitudeFold(MulWithAll(ts, us)) && f == SMagnitudeFold(ts)
    requires m == SMagnitudeFold(us)
    ensures r == f * m
    decreases us, 0
  {
    if |us| > 0 {
      var v := SMagnitudeFold(MulWith(ts, us[0]));
      var x := SMagnitude(us[0]);
      var g := SMagnitudeFold(us[1..]);
      MulWithMagnitude(ts, us[0], v, f, x);
      MulWithAllMagnitude(MulWith(ts, us[0]), us[1..], r, v, g);
      SMagnitudeFoldCons(us, m, x, g);
      FoldStep(r, v, g, f, x, m);
    }
  }

  /** For r, f the magnitudes of `divide_by<P, B^E>` and of P, and c that of `B^E`: r = f / c. */
  lemma DivPowMagnitude(ts: seq<SUnit>, b: SUnit, e: int, r: real, f: real, c: real)
    requires r == SMagnitudeFold(DivPow(ts, b, e)) && f == SMagnitudeFold(ts)
    requires c == RealPow(SMagnitude(b), e)
    ensures c != 0.0 && r == f / c
  {
    var z := RealPow(SMagnitude(b), -e);
    DivPowIsMulPowNeg(ts, b, e);
    MulPowMagnitude(ts, b, -e, r, f, z);
    RealPowNegOf(SMagnitude(b), e, z, c);
    TimesReciprocal(r, f, c, z);
  }

  /** For r, f, m the magnitudes of `divide_by<P, U>`, of P and of U: r = f / m. */
  lemma {:induction false} DivWithMagnitude(ts: seq<SUnit>, u: SUnit, r: real, f: real, m: real)
    requires r == SMagnitudeFold(DivWith(ts, u)) && f == SMagnitudeFold(ts) && m == SMagnitude(u)
    ensures m != 0.0 && r == f / m
    decreases u, 1
  {
    match u
    case SProduct(us) => DivWithAllMagnitude(ts, us, r, f, m);
    case SPow(b, e) => DivPowMagnitude(ts, b, e, r, f, m);
    case _ =>
      RealPowOne(SMagnitude(u));
      DivPowMagnitude(ts, u, 1, r, f, m);
  }

  lemma {:induction false} DivWithAllMagnitude(ts: seq<SUnit>, us: seq<SUnit>, r: real, f: real, m: real)
    requires r == SMagnitudeFold(DivWithAll(ts, us)) && f == SMagnitudeFold(ts)
    requires m == SMagnitudeFold(us)
    ensures m != 0.0 && r == f / m
    decreases us, 0
  {
    if |us| > 0 {
      var v := SMagnitudeFold(DivWith(ts, us[0]));
      var x := SMagnitude(us[0]);
      var g := SMagnitudeFold(us[1..]);
      DivWithMagnitude(ts, us[0], v, f, x);
      DivWithAllMagnitude(DivWith(ts, us[0]), us[1..], r, v, g);
      SMagnitudeFoldCons(us, m, x, g);
      DivideTwice(r, v, g, f, x, m);
    }
  }

  /** `canonicalize` keeps the magnitude: for c, m the magnitudes of `canonicalize_t<U>` and of U, c = m. */
  lemma CanonicalizeMagnitude(u: SUnit, c: real, m: real)
    requires c == SMagnitudeFold(Canonicalize(u)) && m == SMagnitude(u)
    ensures c == m
  {
    MulWithMagnitude([], u, c, 1.0, m);
  }

  /** `simplify` keeps the magnitude. */
  lemma {:induction false} SSimplifyMagnitude(u: SUnit)
    ensures SMagnitude(SSimplify(u)) == SMagnitude(u)
    decreases u, 1
  {
    match u
    case SPow(b, e) =>
      if e == 1 { RealPowOne(SMagnitude(b)); }
    case SProduct(ts) => SSimplifyTermsMagnitude(ts, SMagnitudeFold(SSimplifyTerms(ts)), SMagnitudeFold(ts));
    case _ =>
  }

  lemma {:induction false} SSimplifyTermsMagnitude(ts: seq<SUnit>, p: real, f: real)
    requires p == SMagnitudeFold(SSimplifyTerms(ts)) && f == SMagnitudeFold(ts)
    ensures p == f
    decreases ts, 0
  {
    if |ts| > 0 {
      var x := SSimplify(ts[0]);
      var rest := SSimplifyTerms(ts[1..]);
      var q := SMagnitudeFold(rest);
      var g := SMagnitudeFold(ts[1..]);
      var h := SMagnitude(ts[0]);
      SSimplifyMagnitude(ts[0]);
      SSimplifyTermsMagnitude(ts[1..], q, g);
      SMagnitudeFoldCons(ts, f, h, g);
      if x == SUnitless {
        TimesOne(f, g, h);
      } else {
        SMagnitudeFoldPrepend(x, rest, p, SMagnitude(x), q);
        ProductOfEquals(p, h, g, p, SMagnitude(x), q);
      }
    }
  }

  /** For t, ma, mb the magnitudes of `multiply<A, B>`, A and B: t = ma * mb. */
  lemma MultiplyMagnitude(a: SUnit, b: SUnit, t: real, ma: real, mb: real)
    requires t == SMagnitude(Multiply(a, b)) && ma == SMagnitude(a) && mb == SMagnitude(b)
    ensures t == ma * mb
  {
    var ca := Canonicalize(a);
    var c := SMagnitudeFold(ca);
    var q := SMagnitudeFold(MulWith(ca, b));
    CanonicalizeMagnitude(a, c, ma);
    MulWithMagnitude(ca, b, q, c, mb);
    SSimplifyMagnitude(SProduct(MulWith(ca, b)));
    ProductOfEquals(t, ma, mb, q, c, mb);
  }

  /** For t, ma, mb the magnitudes of `divide<A, B>`, A and B: t = ma / mb. */
  lemma DivideMagnitude(a: SUnit, b: SUnit, t: real, ma: real, mb: real)
    requires t == SMagnitude(Divide(a, b)) && ma == SMagnitude(a) && mb == SMagnitude(b)
    ensures mb != 0.0 && t == ma / mb
  {
    var ca := Canonicalize(a);
    var c := SMagnitudeFold(ca);
    var q := SMagnitudeFold(DivWith(ca, b));
    CanonicalizeMagnitude(a, c, ma);
    DivWithMagnitude(ca, b, q, c, mb);
    SSimplifyMagnitude(SProduct(DivWith(ca, b)));
    QuotientOfEquals(t, ma, mb, q, c);
  }

  /** Rooting a product of powers and raising the result back gives the original magnitude. */
  lemma {:induction false} RootPowsMagnitude(ts: seq<SUnit>, n: int)
    requires AllPows(ts) && RootPows(ts, n).Ok?
    ensures RealPow(SMagnitudeFold(RootPows(ts, n).value), n) == SMagnitudeFold(ts)
    decreases ts
  {
    if |ts| == 0 {
      RealPowOfOne(n);
    } else {
      var x := RootPow(ts[0], n).value;
      var rest := RootPows(ts[1..], n).value;
      assert RootPows(ts, n).value == [x] + rest;
      var p := SMagnitudeFold([x] + rest);
      var hx := SMagnitude(x);
      var rr := SMagnitudeFold(rest);
      var f := SMagnitudeFold(ts);
      var h0 := SMagnitude(ts[0]);
      var g := SMagnitudeFold(ts[1..]);
      var pp, px, pr := RealPow(p, n), RealPow(hx, n), RealPow(rr, n);
      RootPowsMagnitude(ts[1..], n);
      SMagnitudeFoldPrepend(x, rest, p, hx, rr);
      RealPowProductOf(hx, rr, p, n, px, pr, pp);
      assert ts[0].exponent / n * n == ts[0].exponent;
      RealPowMul(SMagnitude(ts[0].base), ts[0].exponent / n, n);
      SMagnitudeFoldCons(ts, f, h0, g);
      ProductOfEquals(pp, h0, g, pp, px, pr);
    }
  }

  /** A successful `static_root<A, N>`, raised to the N-th power, has the magnitude of A. */
  lemma StaticRootMagnitude(a: SUnit, n: int)
    requires StaticRoot(a, n).Ok?
    ensures RealPow(SMagnitude(StaticRoot(a, n).value), n) == SMagnitude(a)
  {
    CanonicalAllPows(a);
    var ca := Canonicalize(a);
    var ts := RootPows(ca, n).value;
    RootPowsMagnitude(ca, n);
    CanonicalizeMagnitude(a, SMagnitudeFold(ca), SMagnitude(a));
    SSimplifyMagnitude(SProduct(ts));
  }

  // ---------------------------------------------------------------------
  // Cancellation

  /** `divide<multiply<A, B>, B>` has the magnitude of A. */
  lemma CancelMagnitude(a: SUnit, b: SUnit)
    ensures SMagnitude(Divide(Multiply(a, b), b)) == SMagnitude(a)
  {
    var p := Multiply(a, b);
    var ma, mb, mp, t := SMagnitude(a), SMagnitude(b), SMagnitude(p), SMagnitude(Divide(p, b));
    MultiplyMagnitude(a, b, mp, ma, mb);
    DivideMagnitude(p, b, t, mp, mb);
    DivideBack(t, mp, ma, mb);
  }

  /**
   * `divide<multiply<A, B>, B>` and A agree in dimension and magnitude, so
   * they are `are_equal` exactly when their origins agree.
   */
  lemma CancelUpToOrigin(a: SUnit, b: SUnit)
    ensures var r := Divide(Multiply(a, b), b);
      AreEqual(r, a) <==> Optionals.Equal(SOrigin(r), SOrigin(a))
  {
    CancelDimension(a, b);
    CancelMagnitude(a, b);
  }
}
