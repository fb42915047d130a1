/**
 * The shape of what the dynamic operations build: where `multiply_with`
 * puts a power, which terms `simplify` keeps, when simplifying twice is
 * the same as once, and a few worked products and roots.
 */
module DynamicStructure {
  import opened Dimensions
  import opened Optionals
  import opened Units
  import opened DynamicUnits
  import opened DynamicLaws
  import opened DynamicMagnitudes

  // ---------------------------------------------------------------------
  // multiply_with on a power

  /**
   * `multiply_with(b^e)` changes exactly one term when some term has a
   * base unit-equal to `b`: the first such term, which becomes `b` raised
   * to the summed exponent, every other term staying where it was; when
   * no term matches it appends `b^e`.
   */
  lemma MergePowerSpec(ts: seq<DynUnit>, b: DynUnit, e: int)
    requires AllPowers(ts)
    ensures (exists j | 0 <= j < |ts| :: SameBase(ts[j], b)) ==>
      exists k | 0 <= k < |ts| ::
        SameBase(ts[k], b) && (forall j | 0 <= j < k :: !SameBase(ts[j], b))
        && MergePower(ts, b, e) == ts[k := Power(b, ts[k].exponent + e)]
    ensures (forall j | 0 <= j < |ts| :: !SameBase(ts[j], b)) ==>
      MergePower(ts, b, e) == ts + [Power(b, e)]
  {
    var k := FirstMatch(ts, b);
    if k < |ts| {
      assert SameBase(ts[k], b);
    }
  }

  // ---------------------------------------------------------------------
  // simplify

  /**
   * The terms kept by the loop of `simplify` are exactly the simplified
   * terms of the product that are not `unitless`.
   */
  lemma {:induction false} SimplifyTermsMembers(ts: seq<DynUnit>)
    ensures forall j | 0 <= j < |SimplifyTerms(ts)| ::
      exists i | 0 <= i < |ts| :: SimplifyTerms(ts)[j] == Simplify(ts[i])
    ensures forall i | 0 <= i < |ts| ::
      IsUnitless(Simplify(ts[i])) || Simplify(ts[i]) in SimplifyTerms(ts)
    decreases ts
  {
    if |ts| > 0 {
      var n := |ts| - 1;
      SimplifyTermsMembers(ts[..n]);
      var s := SimplifyTerms(ts[..n]);
      assert SimplifyTerms(ts) == PushUnlessUnitless(s, Simplify(ts[n]));
      forall j | 0 <= j < |SimplifyTerms(ts)|
        ensures exists i | 0 <= i < |ts| :: SimplifyTerms(ts)[j] == Simplify(ts[i])
      {
        if j < |s| {
          var i :| 0 <= i < n && s[j] == Simplify(ts[..n][i]);
          assert SimplifyTerms(ts)[j] == Simplify(ts[i]);
        } else {
          assert SimplifyTerms(ts)[j] == Simplify(ts[n]);
        }
      }
      forall i | 0 <= i < |ts|
        ensures IsUnitless(Simplify(ts[i])) || Simplify(ts[i]) in SimplifyTerms(ts)
      {
        if i < n {
          assert ts[..n][i] == ts[i];
        }
      }
    } else {
      assert |SimplifyTerms(ts)| == 0;
    }
  }

  /** When every term simplifies to `unitless`, the loop of `simplify` keeps nothing. */
  lemma {:induction false} AllUnitlessDropped(ts: seq<DynUnit>)
    requires forall i | 0 <= i < |ts| :: IsUnitless(Simplify(ts[i]))
    ensures SimplifyTerms(ts) == []
    decreases ts
  {
    if |ts| > 0 {
      AllUnitlessDropped(ts[..|ts| - 1]);
    }
  }

  /**
   * `simplify` of a product returns `unitless` exactly when every term
   * simplifies to `unitless`; otherwise it returns one simplified term on
   * its own, or a product of at least two terms none of which is
   * `unitless`.
   */
  lemma SimplifyProductShape(ts: seq<DynUnit>)
    ensures Simplify(Product(ts)) == UnitlessUnit <==>
      forall i | 0 <= i < |ts| :: IsUnitless(Simplify(ts[i]))
    ensures var r := Simplify(Product(ts));
      r == UnitlessUnit
      || (exists i | 0 <= i < |ts| :: r == Simplify(ts[i]))
      || (r.Product? && |r.terms| >= 2 && forall j | 0 <= j < |r.terms| :: !IsUnitless(r.terms[j]))
  {
    var s := SimplifyTerms(ts);
    SimplifyTermsMembers(ts);
    if |s| == 1 {
      var i :| 0 <= i < |ts| && s[0] == Simplify(ts[i]);
      assert Simplify(Product(ts)) == Simplify(ts[i]);
    }
    if forall i | 0 <= i < |ts| :: IsUnitless(Simplify(ts[i])) {
      AllUnitlessDropped(ts);
    } else {
      var i :| 0 <= i < |ts| && !IsUnitless(Simplify(ts[i]));
      assert Simplify(ts[i]) in s;
    }
  }

  /** Every power in `u`, however deeply inside products, has a named base. */
  predicate NamedBases(u: DynUnit)
    decreases u
  {
    match u
    case Named(_) => true
    case Power(b, _) => b.Named?
    case Product(ts) => forall i | 0 <= i < |ts| :: NamedBases(ts[i])
  }

  /** A list of terms that `simplify` neither changes nor drops passes through its loop unchanged. */
  lemma {:induction false} SimplifyTermsFixed(s: seq<DynUnit>)
    requires forall j | 0 <= j < |s| :: Simplify(s[j]) == s[j] && !IsUnitless(s[j])
    ensures SimplifyTerms(s) == s
    decreases s
  {
    if |s| > 0 {
      SimplifyTermsFixed(s[..|s| - 1]);
    }
  }

  /** When every power has a named base, simplifying twice is the same as simplifying once. */
  lemma {:induction false} SimplifyIdempotent(u: DynUnit)
    requires NamedBases(u)
    ensures Simplify(Simplify(u)) == Simplify(u)
    decreases u
  {
    match u
    case Named(_) =>
    case Power(b, e) =>
    case Product(ts) =>
      var s := SimplifyTerms(ts);
      SimplifyTermsMembers(ts);
      forall j | 0 <= j < |s| ensures Simplify(s[j]) == s[j]
      {
        var i :| 0 <= i < |ts| && s[j] == Simplify(ts[i]);
        SimplifyIdempotent(ts[i]);
      }
      if |s| >= 2 {
        SimplifyTermsFixed(s);
      }
  }

  /**
   * Without named bases idempotence fails: `simplify` replaces a first
   * power by its base without simplifying that base, so `(m^0)^1`
   * simplifies to `m^0` and only a second pass reaches `unitless`.
   */
  lemma SimplifyNotIdempotent()
    ensures var u := Power(Power(Named(Meter), 0), 1);
      Simplify(u) == Power(Named(Meter), 0)
      && Simplify(Simplify(u)) == UnitlessUnit
      && Simplify(Simplify(u)) != Simplify(u)
  {
  }

  // ---------------------------------------------------------------------
  // Worked examples

  /** `m * m^-1` cancels to `unitless`. */
  lemma MeterTimesInverse()
    ensures Times(Named(Meter), Power(Named(Meter), -1)) == UnitlessUnit
  {
    var m := Named(Meter);
    assert UnitEqual(m, m);
    assert MulInto([], m) == [Power(m, 1)];
    assert MulInto([Power(m, 1)], Power(m, -1)) == [Power(m, 0)];
  }

  /** `m * m` is `m^2`, and its square root is the metre again. */
  lemma SquareRootOfSquareMeter()
    ensures Times(Named(Meter), Named(Meter)) == Power(Named(Meter), 2)
    ensures RootOf(Power(Named(Meter), 2), 2) == Ok(Named(Meter))
  {
    var m := Named(Meter);
    assert UnitEqual(m, m);
    assert MergePower([], m, 1) == [Power(m, 1)];
    assert MergePower([Power(m, 1)], m, 1) == [Power(m, 2)];
    assert SimplifyTerms([Power(m, 2)]) == [Power(m, 2)];
    RootOfPower(m, 2);
  }

  /** The metre has no square root: a named unit cannot be rooted. */
  lemma NoRootOfMeter()
    ensures RootOf(Named(Meter), 2) == Err(NamedUnitRoot)
    ensures RootOf(Power(Named(Meter), 3), 2) == Err(NonDivisiblePower(3, 2))
  {
  }

  // ---------------------------------------------------------------------
  // Cancellation

  /**
   * `(a * b) / b` and `a` agree in dimension and magnitude, so they are
   * equal units exactly when their origins agree.
   */
  lemma CancelUpToOrigin(a: DynUnit, b: DynUnit)
    ensures var r := Over(Times(a, b), b);
      UnitEqual(r, a) <==> Optionals.Equal(OriginOf(r), OriginOf(a))
  {
    CancelDimension(a, b);
    CancelMagnitude(a, b);
  }

  /**
   * Cancellation is not an identity of units: for an absolute c,
   * `(c^2 * c^-1) * s / s` is the absolute c, while the simplified
   * `c^2 * c^-1` is a relative product of two powers.
   */
  lemma CancelNotEqual(c: NamedUnit)
    requires c.origin.HasValue()
    ensures var a := Product([Power(Named(c), 2), Power(Named(c), -1)]);
      var s := Named(Second);
      Over(Times(a, s), s) == Named(c) && !UnitEqual(Over(Times(a, s), s), Simplify(a))
  {
    var x := Named(c);
    CancelTimesStep(c);
    CancelOverStep(c);
    assert [Power(x, 2), Power(x, -1)][..1] == [Power(x, 2)];
    assert SimplifyTerms([Power(x, 2)]) == [Power(x, 2)];
    assert SimplifyTerms([Power(x, 2), Power(x, -1)]) == [Power(x, 2), Power(x, -1)];
  }

  /** The product step of `CancelNotEqual`: `(c^2 * c^-1) * s` is `c * s`. */
  lemma CancelTimesStep(c: NamedUnit)
    requires c.origin.HasValue()
    ensures var x, s := Named(c), Named(Second);
      Times(Product([Power(x, 2), Power(x, -1)]), s) == Product([x, s])
  {
    var x, s := Named(c), Named(Second);
    var a := Product([Power(x, 2), Power(x, -1)]);
    assert UnitEqual(x, x) && !UnitEqual(x, s) && !IsUnitless(x) && !IsUnitless(s);
    assert [Power(x, 2), Power(x, -1)][..1] == [Power(x, 2)];
    assert [Power(x, 2)][..0] == [];
    assert MulIntoAll([], [Power(x, 2)]) == [Power(x, 2)];
    assert MergePower([Power(x, 2)], x, -1) == [Power(x, 1)];
    assert MulInto([Power(x, 2)], Power(x, -1)) == [Power(x, 1)];
    assert MulIntoAll([], [Power(x, 2), Power(x, -1)]) == MulInto([Power(x, 2)], Power(x, -1));
    assert MulInto([], a) == [Power(x, 1)];
    assert MergePower([Power(x, 1)], s, 1) == [Power(x, 1), Power(s, 1)];
    assert [Power(x, 1), Power(s, 1)][..1] == [Power(x, 1)];
    assert SimplifyTerms([Power(x, 1)]) == [x];
    assert SimplifyTerms([Power(x, 1), Power(s, 1)]) == [x, s];
  }

  /** The quotient step of `CancelNotEqual`: `(c * s) / s` is `c`. */
  lemma CancelOverStep(c: NamedUnit)
    requires c.origin.HasValue()
    ensures var x, s := Named(c), Named(Second);
      Over(Product([x, s]), s) == x
  {
    var x, s := Named(c), Named(Second);
    assert UnitEqual(x, x) && !UnitEqual(x, s) && UnitEqual(s, s) && !IsUnitless(x);
    assert [x, s][..1] == [x];
    assert [x][..0] == [];
    assert MulIntoAll([], [x]) == [Power(x, 1)];
    assert MergePower([Power(x, 1)], s, 1) == [Power(x, 1), Power(s, 1)];
    assert MulIntoAll([], [x, s]) == MulInto([Power(x, 1)], s);
    assert MulInto([], Product([x, s])) == [Power(x, 1), Power(s, 1)];
    assert !SameBase(Power(x, 1), s) && SameBase(Power(s, 1), s);
    assert FirstMatchFrom([Power(x, 1), Power(s, 1)], s, 1) == 1;
    assert FirstMatch([Power(x, 1), Power(s, 1)], s) == 1;
    assert DivInto([Power(x, 1), Power(s, 1)], s) == [Power(x, 1), Power(s, 0)];
    assert [Power(x, 1), Power(s, 0)][..1] == [Power(x, 1)];
    assert SimplifyTerms([Power(x, 1)]) == [x];
    assert SimplifyTerms([Power(x, 1), Power(s, 0)]) == [x];
  }
}
