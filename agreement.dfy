/**
 * The two realizations of the unit algebra side by side. `copy()` turns a
 * static unit type into a run-time unit; the copy has the same dimension,
 * magnitude and origin, so unit equality and `are_equal` coincide, and
 * `*` and `/` give units of the same dimension and magnitude whichever
 * realization computes them. They do not always give the same unit: the
 * run-time algebra merges powers of unit-equal bases where the static one
 * merges only powers of the very same type, and only the static root
 * accepts a named unit.
 */
module Agreement {
  import opened Dimensions
  import opened Optionals
  import opened Units
  import opened RealPowers
  import opened DynamicUnits
  import opened DynamicLaws
  import opened DynamicMagnitudes
  import opened StaticUnits
  import opened StaticLaws
  import opened StaticMagnitudes

  /**
   * `copy()` of a static unit type: a named class (including
   * `make_relative<T>`, which reports T's name, dimension and magnitude
   * and no origin) becomes a named unit, `static_pow<B, E>` the power of
   * B's copy, and a product the run-time product its units multiply into.
   */
  function ToDynamic(s: SUnit): DynUnit
    decreases s, 1
  {
    match s
    case SNamed(info) => Named(info)
    case SRelative(t) => Named(NamedUnit(SName(t), SDimension(t), SMagnitude(t), Nullopt))
    case SPow(b, e) => Power(ToDynamic(b), e)
    case SProduct(ts) => Product(ToDynamicTerms(ts))
  }

  /**
   * The terms of a copied `static_product`. The empty product copies to
   * no terms. Otherwise the head unit, an instance of a named class
   * (`static_pow` and `static_product` included), goes through the
   * `multiply_with(named const&)` overload and is pushed as its own first
   * power; then the copy of the tail product is multiplied in term by
   * term.
   */
  function ToDynamicTerms(ts: seq<SUnit>): (r: seq<DynUnit>)
    ensures AllPowers(r)
    decreases ts, 0
  {
    if |ts| == 0 then []
    else if |ts| == 1 then MergePower([], ToDynamic(ts[0]), 1)
    else MulInto(MergePower([], ToDynamic(ts[0]), 1), Product(ToDynamicTerms(ts[1..])))
  }

  // ---------------------------------------------------------------------
  // The copy keeps dimension, magnitude and origin

  lemma {:induction false} ToDynamicDimension(s: SUnit)
    ensures DimensionOf(ToDynamic(s)) == SDimension(s)
    decreases s, 1
  {
    match s
    case SNamed(_) =>
    case SRelative(_) =>
    case SPow(b, _) => ToDynamicDimension(b);
    case SProduct(ts) => ToDynamicTermsDimension(ts);
  }

  lemma {:induction false} ToDynamicTermsDimension(ts: seq<SUnit>)
    ensures DimensionFold(ToDynamicTerms(ts)) == SDimensionFold(ts)
    decreases ts, 0
  {
    if |ts| > 0 {
      var x := ToDynamic(ts[0]);
      ToDynamicDimension(ts[0]);
      MergePowerDimension([], x, 1);
      PowOne(DimensionOf(x));
      MulIdentity(DimensionOf(x));
      if |ts| > 1 {
        ToDynamicTermsDimension(ts[1..]);
        MulIntoDimension(MergePower([], x, 1), Product(ToDynamicTerms(ts[1..])));
        SDimensionFoldCons(ts);
      }
    }
  }

  lemma {:induction false} ToDynamicMagnitude(s: SUnit)
    ensures MagnitudeOf(ToDynamic(s)) == SMagnitude(s)
    decreases s, 1
  {
    match s
    case SNamed(_) =>
    case SRelative(_) =>
    case SPow(b, _) => ToDynamicMagnitude(b);
    case SProduct(ts) => ToDynamicTermsMagnitude(ts, MagnitudeFold(ToDynamicTerms(ts)), SMagnitudeFold(ts));
  }

  lemma {:induction false} ToDynamicTermsMagnitude(ts: seq<SUnit>, r: real, s: real)
    requires r == MagnitudeFold(ToDynamicTerms(ts)) && s == SMagnitudeFold(ts)
    ensures r == s
    decreases ts, 0
  {
    if |ts| == 1 {
      ToDynamicMagnitude(ts[0]);
      HeadMagnitude(ts[0], r);
    } else if |ts| > 1 {
      var x := ToDynamic(ts[0]);
      var h := SMagnitude(ts[0]);
      var a := MagnitudeFold(MergePower([], x, 1));
      var rt := ToDynamicTerms(ts[1..]);
      var mr := MagnitudeFold(rt);
      var sr := SMagnitudeFold(ts[1..]);
      ToDynamicMagnitude(ts[0]);
      HeadMagnitude(ts[0], a);
      ToDynamicTermsMagnitude(ts[1..], mr, sr);
      MulIntoMagnitude(MergePower([], x, 1), Product(rt), r, a, mr);
      SMagnitudeFoldCons(ts, s, h, sr);
      ProductOfEquals(r, h, sr, r, a, mr);
    }
  }

  /** The first power of a unit's copy, alone in a product, keeps its magnitude. */
  lemma HeadMagnitude(t: SUnit, a: real)
    requires a == MagnitudeFold(MergePower([], ToDynamic(t), 1))
    ensures a == MagnitudeOf(ToDynamic(t))
  {
    var x := ToDynamic(t);
    MergePowerMagnitude([], x, 1, a, 1.0, RealPow(MagnitudeOf(x), 1));
    RealPowOne(MagnitudeOf(x));
  }

  lemma ToDynamicOrigin(s: SUnit)
    ensures OriginOf(ToDynamic(s)) == SOrigin(s)
  {
  }

  /** Run-time unit equality of the copies is `are_equal` of the types. */
  lemma EqualityAgrees(a: SUnit, b: SUnit)
    ensures UnitEqual(ToDynamic(a), ToDynamic(b)) <==> AreEqual(a, b)
  {
    ToDynamicDimension(a);
    ToDynamicDimension(b);
    ToDynamicMagnitude(a);
    ToDynamicMagnitude(b);
    ToDynamicOrigin(a);
    ToDynamicOrigin(b);
  }

  // ---------------------------------------------------------------------
  // Both realizations of * and / give the same dimension and magnitude

  /** Dynamic `*` of the copies and the copy of `multiply<A, B>` have the same dimension and magnitude. */
  lemma MultiplyAgrees(a: SUnit, b: SUnit)
    ensures DimensionOf(Times(ToDynamic(a), ToDynamic(b))) == DimensionOf(ToDynamic(Multiply(a, b)))
    ensures MagnitudeOf(Times(ToDynamic(a), ToDynamic(b))) == MagnitudeOf(ToDynamic(Multiply(a, b)))
  {
    var x, y := ToDynamic(a), ToDynamic(b);
    var ma, mb := SMagnitude(a), SMagnitude(b);
    TimesDimension(x, y);
    MultiplyDimension(a, b);
    ToDynamicDimension(a);
    ToDynamicDimension(b);
    ToDynamicDimension(Multiply(a, b));
    ToDynamicMagnitude(a);
    ToDynamicMagnitude(b);
    ToDynamicMagnitude(Multiply(a, b));
    TimesMagnitude(x, y, MagnitudeOf(Times(x, y)), ma, mb);
    MultiplyMagnitude(a, b, SMagnitude(Multiply(a, b)), ma, mb);
  }

  /** Dynamic `/` of the copies and the copy of `divide<A, B>` have the same dimension and magnitude. */
  lemma DivideAgrees(a: SUnit, b: SUnit)
    ensures DimensionOf(Over(ToDynamic(a), ToDynamic(b))) == DimensionOf(ToDynamic(Divide(a, b)))
    ensures MagnitudeOf(Over(ToDynamic(a), ToDynamic(b))) == MagnitudeOf(ToDynamic(Divide(a, b)))
  {
    var x, y := ToDynamic(a), ToDynamic(b);
    var ma, mb := SMagnitude(a), SMagnitude(b);
    OverDimension(x, y);
    DivideDimension(a, b);
    ToDynamicDimension(a);
    ToDynamicDimension(b);
    ToDynamicDimension(Divide(a, b));
    ToDynamicMagnitude(a);
    ToDynamicMagnitude(b);
    ToDynamicMagnitude(Divide(a, b));
    OverMagnitude(x, y, MagnitudeOf(Over(x, y)), ma, mb);
    DivideMagnitude(a, b, SMagnitude(Divide(a, b)), ma, mb);
  }

  /** When both roots succeed, they have the same dimension. */
  lemma RootAgrees(a: SUnit, n: int)
    requires n != 0 && RootOf(ToDynamic(a), n).Ok? && StaticRoot(a, n).Ok?
    ensures DimensionOf(RootOf(ToDynamic(a), n).value) == DimensionOf(ToDynamic(StaticRoot(a, n).value))
  {
    var d := RootOf(ToDynamic(a), n).value;
    var s := StaticRoot(a, n).value;
    RootDimension(ToDynamic(a), n);
    StaticRootDimension(a, n);
    ToDynamicDimension(a);
    ToDynamicDimension(s);
    PowInjective(DimensionOf(d), SDimension(s), n);
  }

  // ---------------------------------------------------------------------
  // Where the realizations differ

  /**
   * A metre times a relative metre: the run-time product merges the two
   * unit-equal bases into one square (of the relative metre, the newer
   * base), while the static product keeps two units.
   */
  lemma MeterTimesRelativeMeterDiffers()
    ensures var rel := ToDynamic(MakeRelative(SNamed(Meter)));
      Times(Named(Meter), rel) == Power(rel, 2)
      && Multiply(SNamed(Meter), MakeRelative(SNamed(Meter)))
        == SProduct([SNamed(Meter), MakeRelative(SNamed(Meter))])
  {
    var m := Named(Meter);
    var rel := ToDynamic(MakeRelative(SNamed(Meter)));
    assert UnitEqual(m, rel);
    assert MulInto([], m) == [Power(m, 1)];
    assert MulInto([Power(m, 1)], rel) == [Power(rel, 2)];
    MeterTimesRelativeMeter();
  }

  /**
   * For a unit `c` with an origin and a renamed copy `c2`, `c^2 * c2^-1`
   * is the absolute unit `c2` at run time but a relative product
   * statically: the two realizations can disagree on the origin.
   */
  lemma OriginDiffers(c: NamedUnit, name: string)
    requires c.origin.HasValue() && name != c.name
    ensures var c2 := c.(name := name);
      Times(Power(Named(c), 2), Power(Named(c2), -1)) == Named(c2)
      && IsAbsolute(SNamed(c2))
      && !IsAbsolute(Multiply(SPow(SNamed(c), 2), SPow(SNamed(c2), -1)))
  {
    var c2 := c.(name := name);
    var x, y := Named(c), Named(c2);
    assert UnitEqual(x, y);
    assert MulInto([], Power(x, 2)) == [Power(x, 2)];
    assert MulInto([Power(x, 2)], Power(y, -1)) == [Power(y, 1)];
    assert !IsUnitless(y);
    assert SimplifyTerms([Power(y, 1)]) == [y];
    var p, q := SNamed(c), SNamed(c2);
    assert p != q;
    assert Canonicalize(SPow(p, 2)) == [SPow(p, 2)];
    assert [SPow(p, 2)][1..] == [];
    assert MulPow([], q, -1) == [SPow(q, -1)];
    assert MulPow([SPow(p, 2)], q, -1) == [SPow(p, 2)] + MulPow([], q, -1);
    assert MulWith([SPow(p, 2)], SPow(q, -1)) == [SPow(p, 2), SPow(q, -1)];
    assert [SPow(p, 2), SPow(q, -1)][1..] == [SPow(q, -1)];
    assert [SPow(q, -1)][1..] == [];
    assert SSimplifyTerms([SPow(q, -1)]) == [SPow(q, -1)];
    assert SSimplifyTerms([SPow(p, 2), SPow(q, -1)]) == [SPow(p, 2), SPow(q, -1)];
  }

  /** The static root of a metre with exponent 1 is the metre; the run-time `root` refuses any named unit. */
  lemma FirstRootDiffers()
    ensures StaticRoot(SNamed(Meter), 1) == StaticUnits.Ok(SNamed(Meter))
    ensures RootOf(ToDynamic(SNamed(Meter)), 1) == DynamicUnits.Err(NamedUnitRoot)
  {
    StaticRootOfMeter();
  }

  // ---------------------------------------------------------------------
  // `copy()` of a product of two or more units, as written

  /**
   * Whether `copy()` of a static unit type compiles as written. The copy of
   * a product of two or more units calls `tail_type::copy()`, a non-static
   * member of a class the product does not derive from, with no object, so
   * it is ill-formed once instantiated. A power's copy constructs its base,
   * a one-unit product its unit; a named class and `make_relative<T>` copy
   * through `crtp`.
   */
  predicate CopyCompilesAsWritten(s: SUnit)
    decreases s
  {
    match s
    case SNamed(_) => true
    case SRelative(_) => true
    case SPow(b, _) => CopyCompilesAsWritten(b)
    case SProduct(ts) => |ts| <= 1 && (|ts| == 1 ==> CopyCompilesAsWritten(ts[0]))
  }

  /**
   * The copy of metre times second does not compile as written, while the
   * intended copy, `ToDynamic`, keeps the product's dimension.
   */
  lemma TailCopyIllFormed()
    ensures var ms := SProduct([SNamed(Meter), SNamed(Second)]);
      !CopyCompilesAsWritten(ms) && DimensionOf(ToDynamic(ms)) == SDimension(ms)
    ensures forall s: SUnit :: s.SProduct? && |s.terms| >= 2 ==> !CopyCompilesAsWritten(s)
  {
    ToDynamicDimension(SProduct([SNamed(Meter), SNamed(Second)]));
  }
}
