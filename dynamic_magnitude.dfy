/**
 * What the dynamic unit operations do to magnitudes: merging a unit into
 * a product's term list multiplies (or divides) its magnitude by the
 * unit's, `simplify` keeps the magnitude, `*` and `/` multiply and divide
 * magnitudes, and the n-th power of a successful `root` has the magnitude
 * of the unit it was taken from.
 *
 * Each lemma names the magnitudes it relates as real parameters, tied to
 * the units by its `requires` clause (`r == MagnitudeFold(...)`), and
 * states the relation between those values in its `ensures` clause.
 * Every arithmetic step in the proofs is then between plain values.
 */
module DynamicMagnitudes {
  import opened Units
  import opened RealPowers
  import opened DynamicUnits

  // ---------------------------------------------------------------------
  // Folds over term lists

  /** The magnitude fold, one term at a time. */
  lemma MagnitudeFoldSnoc(ts: seq<DynUnit>, p: real, a: real, x: real)
    requires |ts| > 0
    requires p == MagnitudeFold(ts) && a == MagnitudeFold(ts[..|ts| - 1])
    requires x == MagnitudeOf(ts[|ts| - 1])
    ensures p == a * x
  {
  }

  /** Appending a term multiplies the magnitude of a term list by the term's. */
  lemma MagnitudeFoldAppend(ts: seq<DynUnit>, x: DynUnit, p: real, f: real, m: real)
    requires p == MagnitudeFold(ts + [x]) && f == MagnitudeFold(ts) && m == MagnitudeOf(x)
    ensures p == f * m
  {
    assert (ts + [x])[..|ts|] == ts;
    MagnitudeFoldSnoc(ts + [x], p, f, m);
  }

  /**
   * Replacing the term at `k` by a term `c` times larger (in magnitude)
   * makes the magnitude of the whole list `c` times larger.
   */
  lemma {:induction false} MagnitudeFoldReplace(ts: seq<DynUnit>, k: nat, x: DynUnit,
                                                mx: real, mk: real, c: real, p: real, f: real)
    requires k < |ts|
    requires mx == MagnitudeOf(x) && mk == MagnitudeOf(ts[k]) && mx == mk * c
    requires p == MagnitudeFold(ts[k := x]) && f == MagnitudeFold(ts)
    ensures p == f * c
  {
    var n := |ts| - 1;
    var r := ts[k := x];
    if k < n {
      assert r[..n] == ts[..n][k := x];
      var p1, f1, y := MagnitudeFold(r[..n]), MagnitudeFold(ts[..n]), MagnitudeOf(ts[n]);
      MagnitudeFoldReplace(ts[..n], k, x, mx, mk, c, p1, f1);
      MagnitudeFoldSnoc(r, p, p1, y);
      MagnitudeFoldSnoc(ts, f, f1, y);
      SwapStep(p, p1, y, f1, c, f);
    } else {
      assert r[..n] == ts[..n];
      var g := MagnitudeFold(ts[..n]);
      MagnitudeFoldSnoc(r, p, g, mx);
      MagnitudeFoldSnoc(ts, f, g, mk);
      Regroup(p, g, mx, f, mk, c);
    }
  }

  // ---------------------------------------------------------------------
  // multiply_with / divide_by

  /** Raising the exponent of a power by `e` multiplies its magnitude by `mag(b)^e`. */
  lemma PowerMagnitudeShift(t: DynUnit, b: DynUnit, e: int, s: real, mt: real, c: real)
    requires t.Power? && MagnitudeOf(t.base) == MagnitudeOf(b)
    requires s == MagnitudeOf(Power(b, t.exponent + e)) && mt == MagnitudeOf(t)
    requires c == RealPow(MagnitudeOf(b), e)
    ensures s == mt * c
  {
    RealPowAddOf(MagnitudeOf(b), t.exponent, e, s, mt, c);
  }

  /** Merging `b^e` into the matching term at index `k`. */
  lemma MergeAtMagnitude(ts: seq<DynUnit>, k: nat, b: DynUnit, e: int, r: real, f: real, c: real)
    requires k < |ts| && ts[k].Power? && MagnitudeOf(ts[k].base) == MagnitudeOf(b)
    requires r == MagnitudeFold(ts[k := Power(b, ts[k].exponent + e)]) && f == MagnitudeFold(ts)
    requires c == RealPow(MagnitudeOf(b), e)
    ensures r == f * c
  {
    var x := Power(b, ts[k].exponent + e);
    var mx, mk := MagnitudeOf(x), MagnitudeOf(ts[k]);
    PowerMagnitudeShift(ts[k], b, e, mx, mk, c);
    MagnitudeFoldReplace(ts, k, x, mx, mk, c, r, f);
  }

  /** The two outcomes of `MergePower`. */
  lemma MergePowerCases(ts: seq<DynUnit>, b: DynUnit, e: int)
    requires AllPowers(ts)
    ensures FirstMatch(ts, b) < |ts| ==>
      var k := FirstMatch(ts, b);
      MagnitudeOf(ts[k].base) == MagnitudeOf(b) &&
      MergePower(ts, b, e) == ts[k := Power(b, ts[k].exponent + e)]
    ensures FirstMatch(ts, b) == |ts| ==> MergePower(ts, b, e) == ts + [Power(b, e)]
  {
  }

  /** Merging `b^e` multiplies the magnitude of the term list by `mag(b)^e`. */
  lemma MergePowerMagnitude(ts: seq<DynUnit>, b: DynUnit, e: int, r: real, f: real, c: real)
    requires AllPowers(ts)
    requires r == MagnitudeFold(MergePower(ts, b, e)) && f == MagnitudeFold(ts)
    requires c == RealPow(MagnitudeOf(b), e)
    ensures r == f * c
  {
    var k := FirstMatch(ts, b);
    MergePowerCases(ts, b, e);
    if k < |ts| {
      MergeAtMagnitude(ts, k, b, e, r, f, c);
    } else {
      MagnitudeFoldAppend(ts, Power(b, e), r, f, c);
    }
  }

  /** `multiply_with(u)` multiplies the magnitude of the term list by that of `u`. */
  lemma {:induction false} MulIntoMagnitude(ts: seq<DynUnit>, u: DynUnit, r: real, f: real, m: real)
    requires AllPowers(ts)
    requires r == MagnitudeFold(MulInto(ts, u)) && f == MagnitudeFold(ts) && m == MagnitudeOf(u)
    ensures r == f * m
    decreases u, 1
  {
    match u
    case Product(us) => MulIntoAllMagnitude(ts, us, r, f, m);
    case Power(b, e) => MergePowerMagnitude(ts, b, e, r, f, m);
    case Named(info) =>
      RealPowOne(info.magnitude);
      MergePowerMagnitude(ts, u, 1, r, f, m);
  }

  /** The last step of `MulIntoAll`. */
  lemma MulIntoAllSnoc(ts: seq<DynUnit>, us: seq<DynUnit>)
    requires AllPowers(ts) && |us| > 0
    ensures MulIntoAll(ts, us) == MulInto(MulIntoAll(ts, us[..|us| - 1]), us[|us| - 1])
  {
  }

  /** Merging the terms of `us` one by one multiplies the magnitude by that of their product. */
  lemma {:induction false} MulIntoAllMagnitude(ts: seq<DynUnit>, us: seq<DynUnit>, r: real, f: real, m: real)
    requires AllPowers(ts)
    requires r == MagnitudeFold(MulIntoAll(ts, us)) && f == MagnitudeFold(ts) && m == MagnitudeFold(us)
    ensures r == f * m
    decreases us, 0
  {
    if |us| > 0 {
      var n := |us| - 1;
      var vs := MulIntoAll(ts, us[..n]);
      var v, a, x := MagnitudeFold(vs), MagnitudeFold(us[..n]), MagnitudeOf(us[n]);
      MulIntoAllMagnitude(ts, us[..n], v, f, a);
      MulIntoAllSnoc(ts, us);
      MulIntoMagnitude(vs, us[n], r, v, x);
      MagnitudeFoldSnoc(us, m, a, x);
      FoldStep(r, v, x, f, a, m);
    }
  }

  /** `divide_by(u)` divides the magnitude of the term list by that of `u`. */
  lemma {:induction false} DivIntoMagnitude(ts: seq<DynUnit>, u: DynUnit, r: real, f: real, m: real)
    requires AllPowers(ts)
    requires r == MagnitudeFold(DivInto(ts, u)) && f == MagnitudeFold(ts) && m == MagnitudeOf(u)
    ensures r == f / m
    decreases u, 1
  {
    match u
    case Product(us) => DivIntoAllMagnitude(ts, us, r, f, m);
    case Power(b, e) =>
      var z := RealPow(MagnitudeOf(b), -e);
      MergePowerMagnitude(ts, b, -e, r, f, z);
      RealPowNegOf(MagnitudeOf(b), e, z, m);
      TimesReciprocal(r, f, m, z);
    case Named(info) =>
      var z := RealPow(info.magnitude, -1);
      MergePowerMagnitude(ts, u, -1, r, f, z);
      RealPowOne(info.magnitude);
      RealPowNegOf(info.magnitude, 1, z, m);
      TimesReciprocal(r, f, m, z);
  }

  /** The last step of `DivIntoAll`. */
  lemma DivIntoAllSnoc(ts: seq<DynUnit>, us: seq<DynUnit>)
    requires AllPowers(ts) && |us| > 0
    ensures DivIntoAll(ts, us) == DivInto(DivIntoAll(ts, us[..|us| - 1]), us[|us| - 1])
  {
  }

  /** Dividing by the terms of `us` one by one divides the magnitude by that of their product. */
  lemma {:induction false} DivIntoAllMagnitude(ts: seq<DynUnit>, us: seq<DynUnit>, r: real, f: real, m: real)
    requires AllPowers(ts)
    requires r == MagnitudeFold(DivIntoAll(ts, us)) && f == MagnitudeFold(ts) && m == MagnitudeFold(us)
    ensures r == f / m
    decreases us, 0
  {
    if |us| > 0 {
      var n := |us| - 1;
      var vs := DivIntoAll(ts, us[..n]);
      var v, a, x := MagnitudeFold(vs), MagnitudeFold(us[..n]), MagnitudeOf(us[n]);
      DivIntoAllMagnitude(ts, us[..n], v, f, a);
      DivIntoAllSnoc(ts, us);
      DivIntoMagnitude(vs, us[n], r, v, x);
      MagnitudeFoldSnoc(us, m, a, x);
      DivideTwice(r, v, x, f, a, m);
    }
  }

  // ---------------------------------------------------------------------
  // simplify

  lemma CollapseMagnitude(ts: seq<DynUnit>)
    ensures MagnitudeOf(Collapse(ts)) == MagnitudeFold(ts)
  {
    if |ts| == 1 {
      assert ts[..0] == [];
    }
  }

  /** `simplify` never changes a unit's magnitude. */
  lemma {:induction false} SimplifyMagnitude(u: DynUnit)
    ensures MagnitudeOf(Simplify(u)) == MagnitudeOf(u)
    decreases u
  {
    match u
    case Named(_) =>
    case Power(b, e) =>
      if e == 0 {
        assert RealPow(MagnitudeOf(b), 0) == 1.0;
      } else if e == 1 {
        RealPowOne(MagnitudeOf(b));
      }
    case Product(ts) =>
      SimplifyTermsMagnitude(ts);
      CollapseMagnitude(SimplifyTerms(ts));
  }

  lemma {:induction false} SimplifyTermsMagnitude(ts: seq<DynUnit>)
    ensures MagnitudeFold(SimplifyTerms(ts)) == MagnitudeFold(ts)
    decreases ts
  {
    if |ts| > 0 {
      var n := |ts| - 1;
      var pre := SimplifyTerms(ts[..n]);
      var s := Simplify(ts[n]);
      SimplifyTermsMagnitude(ts[..n]);
      SimplifyMagnitude(ts[n]);
      var f, x := MagnitudeFold(ts[..n]), MagnitudeOf(ts[n]);
      MagnitudeFoldSnoc(ts, MagnitudeFold(ts), f, x);
      if IsUnitless(s) {
        TimesOne(MagnitudeFold(ts), f, x);
      } else {
        var q, g, y := MagnitudeFold(pre + [s]), MagnitudeFold(pre), MagnitudeOf(s);
        MagnitudeFoldAppend(pre, s, q, g, y);
        ProductOfEquals(q, f, x, q, g, y);
      }
    }
  }

  // ---------------------------------------------------------------------
  // operator* and operator/

  /** `a * b` has the product of the magnitudes. */
  lemma TimesMagnitude(a: DynUnit, b: DynUnit, t: real, ma: real, mb: real)
    requires t == MagnitudeOf(Times(a, b)) && ma == MagnitudeOf(a) && mb == MagnitudeOf(b)
    ensures t == ma * mb
  {
    var p := MulInto([], a);
    var q := MulInto(p, b);
    var fp, fq := MagnitudeFold(p), MagnitudeFold(q);
    MulIntoMagnitude([], a, fp, 1.0, ma);
    MulIntoMagnitude(p, b, fq, fp, mb);
    SimplifyMagnitude(Product(q));
    ProductOfEquals(t, ma, mb, fq, fp, mb);
  }

  /** `a / b` has the quotient of the magnitudes. */
  lemma OverMagnitude(a: DynUnit, b: DynUnit, t: real, ma: real, mb: real)
    requires t == MagnitudeOf(Over(a, b)) && ma == MagnitudeOf(a) && mb == MagnitudeOf(b)
    ensures mb != 0.0 && t == ma / mb
  {
    var p := MulInto([], a);
    var q := DivInto(p, b);
    var fp, fq := MagnitudeFold(p), MagnitudeFold(q);
    MulIntoMagnitude([], a, fp, 1.0, ma);
    DivIntoMagnitude(p, b, fq, fp, mb);
    SimplifyMagnitude(Product(q));
    QuotientOfEquals(t, ma, mb, fq, fp);
  }

  // ---------------------------------------------------------------------
  // root

  /** A successful `root(u, n)` is a unit whose n-th power has the magnitude of `u`. */
  lemma {:induction false} RootMagnitude(u: DynUnit, n: int)
    requires n != 0 && RootOf(u, n).Ok?
    ensures RealPow(MagnitudeOf(RootOf(u, n).value), n) == MagnitudeOf(u)
    decreases u
  {
    match u
    case Power(b, e) =>
      var q := e / n;
      assert q * n == e;
      SimplifyMagnitude(Power(b, q));
      RealPowMul(MagnitudeOf(b), q, n);
    case Product(ts) =>
      RootTermsMagnitude(ts, n);
      SimplifyMagnitude(Product(RootTerms(ts, n).value));
  }

  lemma {:induction false} RootTermsMagnitude(ts: seq<DynUnit>, n: int)
    requires n != 0 && RootTerms(ts, n).Ok?
    ensures RealPow(MagnitudeFold(RootTerms(ts, n).value), n) == MagnitudeFold(ts)
    decreases ts
  {
    if |ts| == 0 {
      RealPowOfOne(n);
    } else {
      var k := |ts| - 1;
      var acc := RootTerms(ts[..k], n).value;
      var x := RootOf(ts[k], n).value;
      RootTermsMagnitude(ts[..k], n);
      RootMagnitude(ts[k], n);
      var a, mx, p := MagnitudeFold(acc), MagnitudeOf(x), MagnitudeFold(MulInto(acc, x));
      MulIntoMagnitude(acc, x, p, a, mx);
      var pa, px, pp := RealPow(a, n), RealPow(mx, n), RealPow(p, n);
      RealPowProductOf(a, mx, p, n, pa, px, pp);
      var m, mp, mk := MagnitudeFold(ts), MagnitudeFold(ts[..k]), MagnitudeOf(ts[k]);
      MagnitudeFoldSnoc(ts, m, mp, mk);
      ProductOfEquals(pp, mp, mk, pp, pa, px);
    }
  }

  // ---------------------------------------------------------------------
  // Cancellation

  /** `(a * b) / b` has the magnitude of `a`. */
  lemma CancelMagnitude(a: DynUnit, b: DynUnit)
    ensures MagnitudeOf(Over(Times(a, b), b)) == MagnitudeOf(a)
  {
    var p := Times(a, b);
    var ma, mb, mp, t := MagnitudeOf(a), MagnitudeOf(b), MagnitudeOf(p), MagnitudeOf(Over(p, b));
    TimesMagnitude(a, b, mp, ma, mb);
    OverMagnitude(p, b, t, mp, mb);
    DivideBack(t, mp, ma, mb);
  }
}
