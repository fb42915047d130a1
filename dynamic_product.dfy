/**
 * The `dynamic_product` object, whose term vector `multiply_with` and
 * `divide_by` update in place, and the `*`, `/`, `root`, `sqrt` and
 * `cbrt` operations on dynamic units that are built on it. Each method is
 * proved to compute the corresponding function of module `DynamicUnits`,
 * whose dimensions and magnitudes are established in `DynamicLaws` and
 * `DynamicMagnitudes`.
 */
module DynamicProducts {
  import opened Dimensions
  import opened Units
  import opened DynamicUnits
  import opened DynamicMagnitudes

  class DynamicProduct {
    /** The factors of the product, in order. */
    var terms: seq<DynUnit>

    /** An empty product. */
    constructor ()
      ensures terms == []
    {
      terms := [];
    }

    method PushBack(t: DynUnit)
      modifies this
      ensures terms == old(terms) + [t]
    {
      terms := terms + [t];
    }

    /** Appends `t` unless it is the `unitless` unit. */
    method PushBackUnlessUnitless(t: DynUnit)
      modifies this
      ensures !IsUnitless(t) ==> terms == old(terms) + [t]
      ensures IsUnitless(t) ==> terms == old(terms)
    {
      if !IsUnitless(t) {
        PushBack(t);
      }
    }

    /**
     * `multiply_with(dynamic_exp)`: scan the terms for the first one whose
     * base equals `b`; overwrite it with `b` raised to the summed exponent
     * and stop, or append `b^e` when the scan finds none.
     */
    method MultiplyWithPower(b: DynUnit, e: int)
      requires AllPowers(terms)
      modifies this
      ensures terms == MergePower(old(terms), b, e)
    {
      var i := 0;
      while i < |terms|
        invariant 0 <= i <= |terms|
        invariant terms == old(terms)
        invariant forall j | 0 <= j < i :: !SameBase(terms[j], b)
      {
        if UnitEqual(terms[i].base, b) {
          terms := terms[i := Power(b, terms[i].exponent + e)];
          return;
        }
        i := i + 1;
      }
      PushBack(Power(b, e));
    }

    /** `divide_by(dynamic_exp)`: multiply by the power with the negated exponent. */
    method DivideByPower(b: DynUnit, e: int)
      requires AllPowers(terms)
      modifies this
      ensures terms == MergePower(old(terms), b, -e)
    {
      MultiplyWithPower(b, -e);
    }

    /**
     * `multiply_with(dynamic_unit)`: a product is multiplied in term by
     * term, a power directly, a named unit as its first power.
     */
    method MultiplyWith(u: DynUnit)
      requires AllPowers(terms)
      modifies this
      ensures terms == MulInto(old(terms), u)
      decreases u, 1
    {
      match u
      case Product(us) => MultiplyWithProduct(us);
      case Power(b, e) => MultiplyWithPower(b, e);
      case Named(_) => MultiplyWithPower(u, 1);
    }

    /** `multiply_with(dynamic_product)`: multiply by every term of the other product, in order. */
    method MultiplyWithProduct(us: seq<DynUnit>)
      requires AllPowers(terms)
      modifies this
      ensures terms == MulIntoAll(old(terms), us)
      decreases us, 0
    {
      var i := 0;
      while i < |us|
        invariant 0 <= i <= |us|
        invariant AllPowers(terms)
        invariant terms == MulIntoAll(old(terms), us[..i])
      {
        assert us[..i + 1][..i] == us[..i];
        MultiplyWith(us[i]);
        i := i + 1;
      }
      assert us[..|us|] == us;
    }

    /** `divide_by(dynamic_unit)`: as `MultiplyWith`, dividing instead. */
    method DivideBy(u: DynUnit)
      requires AllPowers(terms)
      modifies this
      ensures terms == DivInto(old(terms), u)
      decreases u, 1
    {
      match u
      case Product(us) => DivideByProduct(us);
      case Power(b, e) => DivideByPower(b, e);
      case Named(_) => DivideByPower(u, 1);
    }

    /** `divide_by(dynamic_product)`: divide by every term of the other product, in order. */
    method DivideByProduct(us: seq<DynUnit>)
      requires AllPowers(terms)
      modifies this
      ensures terms == DivIntoAll(old(terms), us)
      decreases us, 0
    {
      var i := 0;
      while i < |us|
        invariant 0 <= i <= |us|
        invariant AllPowers(terms)
        invariant terms == DivIntoAll(old(terms), us[..i])
      {
        assert us[..i + 1][..i] == us[..i];
        DivideBy(us[i]);
        i := i + 1;
      }
      assert us[..|us|] == us;
    }

    /** The dimension of a non-empty product: the first term's, times each later term's. */
    method Dimension() returns (d: Dimensions.Dimension)
      requires |terms| > 0
      ensures d == DimensionOf(Product(terms))
    {
      d := DimensionOf(terms[0]);
      MulIdentity(d);
      assert terms[..1] == [terms[0]];
      var i := 1;
      while i < |terms|
        invariant 1 <= i <= |terms|
        invariant d == DimensionFold(terms[..i])
      {
        assert terms[..i + 1][..i] == terms[..i];
        d := Mul(d, DimensionOf(terms[i]));
        i := i + 1;
      }
      assert terms[..|terms|] == terms;
    }

    /** The magnitude of a non-empty product: the first term's, times each later term's. */
    method Magnitude() returns (m: real)
      requires |terms| > 0
      ensures m == MagnitudeOf(Product(terms))
    {
      m := MagnitudeOf(terms[0]);
      assert terms[..1] == [terms[0]];
      assert [terms[0]][..0] == [];
      MagnitudeFoldSnoc([terms[0]], MagnitudeFold(terms[..1]), 1.0, m);
      var i := 1;
      while i < |terms|
        invariant 1 <= i <= |terms|
        invariant m == MagnitudeFold(terms[..i])
      {
        var x := MagnitudeOf(terms[i]);
        assert terms[..i + 1][..i] == terms[..i];
        MagnitudeFoldSnoc(terms[..i + 1], MagnitudeFold(terms[..i + 1]), m, x);
        m := m * x;
        i := i + 1;
      }
      assert terms[..|terms|] == terms;
    }

    /**
     * `simplify`: push the simplification of every term into a fresh
     * product unless it is `unitless`, then return `unitless` for an empty
     * result, the lone term for a single one, and the product otherwise.
     */
    method Simplify() returns (r: DynUnit)
      ensures r == DynamicUnits.Simplify(Product(terms))
    {
      var result := new DynamicProduct();
      var i := 0;
      while i < |terms|
        invariant 0 <= i <= |terms|
        invariant result.terms == SimplifyTerms(terms[..i])
      {
        assert terms[..i + 1][..i] == terms[..i];
        result.PushBackUnlessUnitless(DynamicUnits.Simplify(terms[i]));
        i := i + 1;
      }
      assert terms[..|terms|] == terms;
      if |result.terms| == 0 {
        r := UnitlessUnit;
      } else if |result.terms| == 1 {
        r := result.terms[0];
      } else {
        r := Product(result.terms);
      }
    }
  }

  /** `a * b`: multiply both into an empty product and simplify it. */
  method Multiply(a: DynUnit, b: DynUnit) returns (r: DynUnit)
    ensures r == Times(a, b)
  {
    var p := new DynamicProduct();
    p.MultiplyWith(a);
    p.MultiplyWith(b);
    r := p.Simplify();
  }

  /** `a / b`: multiply `a` into an empty product, divide it by `b` and simplify it. */
  method Divide(a: DynUnit, b: DynUnit) returns (r: DynUnit)
    ensures r == Over(a, b)
  {
    var p := new DynamicProduct();
    p.MultiplyWith(a);
    p.DivideBy(b);
    r := p.Simplify();
  }

  /** Once a prefix of the terms fails to root, the whole list fails with that error. */
  lemma {:induction false} RootTermsErrPrefix(ts: seq<DynUnit>, i: nat, n: int)
    requires n != 0 && i <= |ts| && RootTerms(ts[..i], n).Err?
    ensures RootTerms(ts, n) == RootTerms(ts[..i], n)
    decreases |ts|
  {
    if i < |ts| {
      var m := |ts| - 1;
      assert ts[..m][..i] == ts[..i];
      RootTermsErrPrefix(ts[..m], i, n);
    } else {
      assert ts[..i] == ts;
    }
  }

  /**
   * `root(u, n)`: a named unit fails; a power fails unless `n` divides
   * its exponent; a product multiplies the root of every term into a fresh
   * product, stopping at the first term that fails, and simplifies it.
   */
  method Root(u: DynUnit, n: int) returns (r: Result<DynUnit>)
    requires n != 0
    ensures r == RootOf(u, n)
    decreases u
  {
    match u
    case Named(_) =>
      r := Err(NamedUnitRoot);
    case Power(b, e) =>
      if e % n != 0 {
        r := Err(NonDivisiblePower(e, n));
      } else {
        r := Ok(DynamicUnits.Simplify(Power(b, e / n)));
      }
    case Product(ts) =>
      var result := new DynamicProduct();
      var i := 0;
      while i < |ts|
        invariant 0 <= i <= |ts|
        invariant RootTerms(ts[..i], n) == Ok(result.terms)
      {
        assert ts[..i + 1][..i] == ts[..i];
        var x := Root(ts[i], n);
        if x.Err? {
          RootTermsErrPrefix(ts, i + 1, n);
          return Err(x.error);
        }
        result.MultiplyWith(x.value);
        i := i + 1;
      }
      assert ts[..|ts|] == ts;
      var s := result.Simplify();
      r := Ok(s);
  }

  method Sqrt(u: DynUnit) returns (r: Result<DynUnit>)
    ensures r == RootOf(u, 2)
  {
    r := Root(u, 2);
  }

  method Cbrt(u: DynUnit) returns (r: Result<DynUnit>)
    ensures r == RootOf(u, 3)
  {
    r := Root(u, 3);
  }
}
