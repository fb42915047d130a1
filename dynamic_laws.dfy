/**
 * What the dynamic unit operations do to dimensions, and when `root`
 * fails: merging a unit into a product's term list multiplies (or
 * divides) its dimension, `simplify` keeps it, `*` and `/` compute the
 * product and quotient of dimensions, and a successful `root` undoes the
 * corresponding power. Magnitudes are in module `DynamicMagnitudes`.
 */
module DynamicLaws {
  import opened Dimensions
  import opened Units
  import opened DynamicUnits

  // ---------------------------------------------------------------------
  // Folds over term lists

  lemma DimensionFoldAppend(ts: seq<DynUnit>, x: DynUnit)
    ensures DimensionFold(ts + [x]) == Mul(DimensionFold(ts), DimensionOf(x))
  {
    assert (ts + [x])[..|ts|] == ts;
  }

  /** Replacing one term by a term `d` times larger makes the whole product `d` times larger. */
  lemma {:induction false} DimensionFoldReplace(ts: seq<DynUnit>, k: nat, x: DynUnit, d: Dimension)
    requires k < |ts| && DimensionOf(x) == Mul(DimensionOf(ts[k]), d)
    ensures DimensionFold(ts[k := x]) == Mul(DimensionFold(ts), d)
  {
    var n := |ts| - 1;
    if k < n {
      assert ts[k := x][..n] == ts[..n][k := x];
      DimensionFoldReplace(ts[..n], k, x, d);
    } else {
      assert ts[k := x][..n] == ts[..n];
    }
  }

  // ---------------------------------------------------------------------
  // multiply_with / divide_by

  /** Merging into the matching term at index `k`, in dimensions. */
  lemma MergeAtDimension(ts: seq<DynUnit>, k: nat, b: DynUnit, e: int)
    requires k < |ts| && ts[k].Power? && DimensionOf(ts[k].base) == DimensionOf(b)
    ensures DimensionFold(ts[k := Power(b, ts[k].exponent + e)])
         == Mul(DimensionFold(ts), Pow(DimensionOf(b), e))
  {
    PowAdd(DimensionOf(b), ts[k].exponent, e);
    DimensionFoldReplace(ts, k, Power(b, ts[k].exponent + e), Pow(DimensionOf(b), e));
  }

  /** Merging `b^e` multiplies the product's dimension by `dim(b)^e`. */
  lemma MergePowerDimension(ts: seq<DynUnit>, b: DynUnit, e: int)
    requires AllPowers(ts)
    ensures DimensionFold(MergePower(ts, b, e)) == Mul(DimensionFold(ts), Pow(DimensionOf(b), e))
  {
    var k := FirstMatch(ts, b);
    if k < |ts| {
      assert SameBase(ts[k], b);
      MergeAtDimension(ts, k, b, e);
    } else {
      DimensionFoldAppend(ts, Power(b, e));
    }
  }

  lemma {:induction false} MulIntoDimension(ts: seq<DynUnit>, u: DynUnit)
    requires AllPowers(ts)
    ensures DimensionFold(MulInto(ts, u)) == Mul(DimensionFold(ts), DimensionOf(u))
    decreases u
  {
    match u
    case Product(us) => MulIntoAllDimension(ts, us);
    case Power(b, e) => MergePowerDimension(ts, b, e);
    case Named(_) =>
      MergePowerDimension(ts, u, 1);
      PowOne(DimensionOf(u));
  }

  lemma {:induction false} MulIntoAllDimension(ts: seq<DynUnit>, us: seq<DynUnit>)
    requires AllPowers(ts)
    ensures DimensionFold(MulIntoAll(ts, us)) == Mul(DimensionFold(ts), DimensionFold(us))
    decreases us
  {
    if |us| > 0 {
      var n := |us| - 1;
      MulIntoAllDimension(ts, us[..n]);
      MulIntoDimension(MulIntoAll(ts, us[..n]), us[n]);
    }
  }

  lemma {:induction false} DivIntoDimension(ts: seq<DynUnit>, u: DynUnit)
    requires AllPowers(ts)
    ensures DimensionFold(DivInto(ts, u)) == Div(DimensionFold(ts), DimensionOf(u))
    decreases u
  {
    match u
    case Product(us) => DivIntoAllDimension(ts, us);
    case Power(b, e) =>
      MergePowerDimension(ts, b, -e);
      PowNegIsDiv(DimensionFold(ts), DimensionOf(b), e);
    case Named(_) =>
      MergePowerDimension(ts, u, -1);
      PowNegIsDiv(DimensionFold(ts), DimensionOf(u), 1);
      PowOne(DimensionOf(u));
  }

  lemma {:induction false} DivIntoAllDimension(ts: seq<DynUnit>, us: seq<DynUnit>)
    requires AllPowers(ts)
    ensures DimensionFold(DivIntoAll(ts, us)) == Div(DimensionFold(ts), DimensionFold(us))
    decreases us
  {
    if |us| > 0 {
      var n := |us| - 1;
      DivIntoAllDimension(ts, us[..n]);
      DivIntoDimension(DivIntoAll(ts, us[..n]), us[n]);
    }
  }

  // ---------------------------------------------------------------------
  // simplify

  lemma CollapseDimension(ts: seq<DynUnit>)
    ensures DimensionOf(Collapse(ts)) == DimensionFold(ts)
  {
    if |ts| == 1 {
      assert ts[..0] == [];
    }
  }

  /** `simplify` never changes a unit's dimension. */
  lemma {:induction false} SimplifyDimension(u: DynUnit)
    ensures DimensionOf(Simplify(u)) == DimensionOf(u)
    decreases u
  {
    match u
    case Named(_) =>
    case Power(b, e) =>
      if e == 0 {
        PowZero(DimensionOf(b));
      } else if e == 1 {
        PowOne(DimensionOf(b));
      }
    case Product(ts) =>
      SimplifyTermsDimension(ts);
      CollapseDimension(SimplifyTerms(ts));
  }

  lemma {:induction false} SimplifyTermsDimension(ts: seq<DynUnit>)
    ensures DimensionFold(SimplifyTerms(ts)) == DimensionFold(ts)
    decreases ts
  {
    if |ts| > 0 {
      var n := |ts| - 1;
      SimplifyTermsDimension(ts[..n]);
      SimplifyDimension(ts[n]);
      var s := Simplify(ts[n]);
      if !IsUnitless(s) {
        DimensionFoldAppend(SimplifyTerms(ts[..n]), s);
      }
    }
  }

  // ---------------------------------------------------------------------
  // operator* and operator/

  /** `a * b` has the product of the dimensions. */
  lemma TimesDimension(a: DynUnit, b: DynUnit)
    ensures DimensionOf(Times(a, b)) == Mul(DimensionOf(a), DimensionOf(b))
  {
    var p := MulInto([], a);
    MulIntoDimension([], a);
    MulIntoDimension(p, b);
    SimplifyDimension(Product(MulInto(p, b)));
  }

  /** `a / b` has the quotient of the dimensions. */
  lemma OverDimension(a: DynUnit, b: DynUnit)
    ensures DimensionOf(Over(a, b)) == Div(DimensionOf(a), DimensionOf(b))
  {
    var p := MulInto([], a);
    var q := DivInto(p, b);
    MulIntoDimension([], a);
    MulIdentity(DimensionOf(a));
    assert DimensionFold(p) == DimensionOf(a);
    DivIntoDimension(p, b);
    SimplifyDimension(Product(q));
    assert DimensionOf(Over(a, b)) == DimensionFold(q);
  }

  // ---------------------------------------------------------------------
  // root

  /** A successful `root(u, n)` is a unit whose n-th power has the dimension of `u`. */
  lemma {:induction false} RootDimension(u: DynUnit, n: int)
    requires n != 0 && RootOf(u, n).Ok?
    ensures Pow(DimensionOf(RootOf(u, n).value), n) == DimensionOf(u)
    decreases u
  {
    match u
    case Power(b, e) =>
      var q := e / n;
      assert q * n == e;
      SimplifyDimension(Power(b, q));
      PowMul(DimensionOf(b), q, n);
    case Product(ts) =>
      RootTermsDimension(ts, n);
      SimplifyDimension(Product(RootTerms(ts, n).value));
  }

  lemma {:induction false} RootTermsDimension(ts: seq<DynUnit>, n: int)
    requires n != 0 && RootTerms(ts, n).Ok?
    ensures Pow(DimensionFold(RootTerms(ts, n).value), n) == DimensionFold(ts)
    decreases ts
  {
    if |ts| == 0 {
      PowDimensionless(n);
    } else {
      var k := |ts| - 1;
      var acc := RootTerms(ts[..k], n).value;
      var x := RootOf(ts[k], n).value;
      RootTermsDimension(ts[..k], n);
      RootDimension(ts[k], n);
      MulIntoDimension(acc, x);
      PowOfMul(DimensionFold(acc), DimensionOf(x), n);
    }
  }

  /** `root` of a product fails exactly when the root of one of its terms fails. */
  lemma {:induction false} RootTermsFails(ts: seq<DynUnit>, n: int)
    requires n != 0
    ensures RootTerms(ts, n).Err? <==> exists i | 0 <= i < |ts| :: RootOf(ts[i], n).Err?
    decreases ts
  {
    if |ts| > 0 {
      var k := |ts| - 1;
      RootTermsFails(ts[..k], n);
      if RootTerms(ts[..k], n).Err? {
        var i :| 0 <= i < k && RootOf(ts[..k][i], n).Err?;
        assert RootOf(ts[i], n).Err?;
      } else if !RootOf(ts[k], n).Err? {
        forall i | 0 <= i < |ts| ensures !RootOf(ts[i], n).Err? {
          if i < k {
            assert ts[i] == ts[..k][i];
          }
        }
      }
    }
  }

  /** The error cases of `root` on a named unit and on a power. */
  lemma RootErrors(info: NamedUnit, b: DynUnit, e: int, n: int)
    requires n != 0
    ensures RootOf(Named(info), n) == Err(NamedUnitRoot)
    ensures RootOf(Power(b, e), n).Err? <==> e % n != 0
    ensures e % n == 0 ==> RootOf(Power(b, e), n) == Ok(Simplify(Power(b, e / n)))
  {
  }

  // ---------------------------------------------------------------------
  // Cancellation and the root of a power

  /** `(a * b) / b` has the dimension of `a`. */
  lemma CancelDimension(a: DynUnit, b: DynUnit)
    ensures DimensionOf(Over(Times(a, b), b)) == DimensionOf(a)
  {
    TimesDimension(a, b);
    OverDimension(Times(a, b), b);
  }

  /** `root(u^e, e)` is `u` for every unit `u` and nonzero `e`. */
  lemma RootOfPower(u: DynUnit, e: int)
    requires e != 0
    ensures RootOf(Power(u, e), e) == Ok(u)
  {
    assert e % e == 0 && e / e == 1 by {
      assert 1 * e == e;
    }
  }
}
