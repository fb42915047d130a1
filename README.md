# kul units and p3a helpers in Dafny

This project models two parts of p3a.

The first is `kul`, its header-only library of physical units. It has:

- an exact rational number type, used for unit magnitudes;
- the SI dimension vector: seven integer exponents;
- a small `optional`, used for unit origins;
- the unit interface. Two units are equal when their dimension, magnitude and origin agree;
- the run-time unit algebra, where products are built by mutation: `dynamic_unit`, `dynamic_exp` and `dynamic_product`;
- the compile-time unit algebra: `static_pow`, `static_product`, `multiply`, `divide`, `static_root`, `are_equal` and `make_relative`;
- the affine `conversion` between units;
- the unit rules of `quantity`.

The second is the small numeric helpers of `p3a_functions.hpp`.

How the model represents each part:

- **Rationals.** A rational is a pair of unbounded integers, and the rational constructor normalizes it.
- **Unit-algebra magnitudes.** These are exact reals. Each rational magnitude stands for its value, and `Rationals.EqualIffSameValue` shows that comparing normalized rationals is comparing their values.
- **Run-time units.** They are a datatype with one constructor per concrete class: `Named`, `Power` and `Product`. The mutating `dynamic_product` is a class whose `terms` field its methods reassign.
- **Compile-time units.** A unit type is a datatype value. A template specialization becomes a branch of a recursive function. A `static_assert` that would stop compilation becomes an `Err` result.
- **Two realizations.** `Agreement` relates the two realizations of the algebra through the `copy()` of a static unit. It shows where they agree: dimension, magnitude and equality. It also shows where they provably differ.
- **Quantities.** A quantity is a value paired with a unit type. An expression that would not compile is `Rejected`.

When converting a `static_product` with at least one term, `copy()` calls the named overload `multiply_with(named const&)`. That is the overload the crtp classes select, so the first term becomes a first power of its copy. The copy of a product with two or more terms calls `tail_type::copy()` with no object, which does not compile (see Findings). `Agreement.ToDynamic` reads that call as the intended copy of the tail product.

## Model

| member | source | states |
|---|---|---|
| Rationals.Abs | kul.hpp:26-29 | the result is the argument or its negation, and equals a non-negative argument |
| Rationals.GcdLoop | kul.hpp:31-39 | Euclid's loop computes the greatest common divisor: zero only for two zeros, otherwise a divisor of both arguments |
| Rationals.GcdPositive | kul.hpp:31-39 | the gcd of two naturals, not both zero, is positive and divides both exactly |
| Rationals.GcdScale | kul.hpp:31-39 | scaling both arguments by k scales the gcd by k |
| Rationals.ReducedCoprime | kul.hpp:31-39 | dividing two numbers by their gcd leaves coprime quotients |
| Rationals.MakeNormalized | kul.hpp:45-57 | a rational built with a nonzero denominator has a positive denominator and coprime parts |
| Rationals.MakeValue | kul.hpp:45-57 | the constructed rational has value numerator over denominator |
| Rationals.MakeZeroDen | kul.hpp:45-57 | a zero denominator yields the sign of the numerator over 0 |
| Rationals.MakeScale | kul.hpp:45-57 | scaling numerator and denominator by a positive factor builds the same rational |
| Rationals.MakeOfNormalized | kul.hpp:45-57 | rebuilding an already normalized rational gives it back |
| Rationals.MakeParts | kul.hpp:45-57 | the constructor divides the absolute values by their gcd and takes the sign from the signs of the arguments |
| Rationals.FromInt | kul.hpp:58-61 | an integer n becomes n/1, normalized, with value n |
| Rationals.Inverse | kul.hpp:77-80 | the inverse of a nonzero rational has a positive denominator |
| Rationals.InverseValue | kul.hpp:77-80 | the inverse has value one over the original value |
| Rationals.Mul | kul.hpp:82-85 | a product of rationals has a positive denominator |
| Rationals.MulValue | kul.hpp:82-85 | the value of a product is the product of the values |
| Rationals.MulNormalized | kul.hpp:82-85 | a product is normalized |
| Rationals.MulComm | kul.hpp:82-85 | multiplication is commutative |
| Rationals.MulAssoc | kul.hpp:82-85 | multiplication is associative |
| Rationals.MulOne | kul.hpp:58-61 | one is the identity for normalized rationals |
| Rationals.Div | kul.hpp:87-90 | a quotient by a nonzero rational has a positive denominator |
| Rationals.DivValue | kul.hpp:87-90 | the value of a quotient is the quotient of the values |
| Rationals.DivIsMulPowNeg | kul.hpp:87-90 | dividing is multiplying by the power -1 |
| Rationals.ValueInjective | kul.hpp:92-95 | two normalized rationals with the same value are the same pair |
| Rationals.EqualIffSameValue | kul.hpp:92-95 | componentwise equality of normalized rationals holds exactly when their values are equal |
| Rationals.Pow | kul.hpp:102-112 | a power has a positive denominator |
| Rationals.PowLoop | kul.hpp:102-112 | the two loops of `pow` (multiply e times, or divide -e times) compute the power, whose value is the real power of the base's value |
| Rationals.PowValue | kul.hpp:102-112 | the value of b^e is the real power of the value of b, for negative e too |
| Rationals.PowAdd | kul.hpp:102-112 | for a nonzero base, b^(a+c) is the normalized product of b^a and b^c, for exponents of any sign |
| Rationals.PowNormalized | kul.hpp:102-112 | a power is normalized |
| Rationals.PowNonzero | kul.hpp:102-112 | a power of a nonzero rational is nonzero |
| Rationals.PowOne | kul.hpp:102-112 | b^1 is b for a normalized b |
| Rationals.PowMul | kul.hpp:102-112 | (b^a)^c equals b^(a*c) |
| Dimensions.Mul | kul.hpp:204-214 | every one of the seven exponents of a product is the sum of the operands' exponents |
| Dimensions.Div | kul.hpp:216-226 | the quotient times the divisor gives back the dividend |
| Dimensions.Equal | kul.hpp:240-249 | equality of all seven exponents holds exactly when the dimensions are identical |
| Dimensions.MulCommutative | kul.hpp:204-214 | multiplication of dimensions is commutative |
| Dimensions.MulAssociative | kul.hpp:204-214 | multiplication of dimensions is associative |
| Dimensions.MulIdentity | kul.hpp:204-214 | dimensionless is the identity |
| Dimensions.MulInverse | kul.hpp:228-238 | d times d^-1 is dimensionless, on both sides |
| Dimensions.DivIsMulInverse | kul.hpp:216-226 | dividing is multiplying by the power -1 |
| Dimensions.DivSelf | kul.hpp:216-226 | d/d is dimensionless |
| Dimensions.PowZero | kul.hpp:228-238 | d^0 is dimensionless |
| Dimensions.PowOne | kul.hpp:228-238 | d^1 is d |
| Dimensions.PowDimensionless | kul.hpp:228-238 | every power of dimensionless is dimensionless |
| Dimensions.PowAdd | kul.hpp:228-238 | d^(a+b) is d^a times d^b |
| Dimensions.PowSub | kul.hpp:228-238 | d^(a-b) is d^a over d^b |
| Dimensions.DivDiv | kul.hpp:216-226 | (a/b)/c is a/(b*c) |
| Dimensions.PowNegIsDiv | kul.hpp:228-238 | multiplying by d^-e is dividing by d^e |
| Dimensions.PowMul | kul.hpp:228-238 | d^(a*b) is (d^a)^b |
| Dimensions.PowOfMul | kul.hpp:228-238 | (a*b)^e is a^e times b^e |
| Dimensions.Decomposition | kul.hpp:116-202 | every dimension is the product of the seven base dimensions raised to its exponents |
| Dimensions.PowInjective | kul.hpp:228-238 | for a nonzero exponent n, a^n equals b^n exactly when a equals b |
| Optionals.Equal | kul.hpp:289-299 | two optionals compare equal exactly when both are empty or both hold equal values |
| Optionals.Value | kul.hpp:279-286 | the value of a non-empty optional is the value it holds |
| Optionals.ValueOr | kul.hpp:275-286 | the value when there is one, otherwise the default |
| Units.SameUnit | kul.hpp:314-319 | two units are equal exactly when they differ at most in name |
| Units.SameUnitEquivalence | kul.hpp:314-319 | unit equality is reflexive, symmetric and transitive |
| Units.SameUnitIgnoresName | kul.hpp:314-319 | renaming a unit keeps it equal to the original |
| Units.AbsoluteNeverRelative | kul.hpp:314-319 | a unit with an origin never equals one without |
| Units.KiloOfMilli | kul.hpp:1046-1062 | kilo of milli, and milli of kilo, give back a unit equal to the original exactly when it has no origin, because the prefixes drop the origin |
| Units.KilogramIsCoherent | kul.hpp:1046-1053 | a kilogram has magnitude 1 and the mass dimension |
| Units.RadianIsUnitless | kul.hpp:1098-1104 | the radian equals `unitless` as a unit, but they are different classes |
| DynamicUnits.UnitEqualNamed | kul.hpp:314-319 | run-time equality of two named units is unit equality of their descriptors |
| DynamicUnits.MagnitudeOf | kul.hpp:403-406 | the magnitude of a run-time unit is never zero |
| DynamicUnits.MagnitudeFold | kul.hpp:588-598 | the magnitude of a product of terms is never zero |
| DynamicUnits.SimplifyTerms | kul.hpp:607-616 | the kept terms are no more than the original terms, and none is `unitless` |
| DynamicUnits.FirstMatch | kul.hpp:491-502 | the search stops at the first term whose base is unit-equal to the new base, or at the end when there is none |
| DynamicUnits.FirstMatchFrom | kul.hpp:491-502 | the search from i finds the first unit-equal base at or after i |
| DynamicUnits.MergePower | kul.hpp:491-502 | merging a power keeps every term a power and grows the product by at most one term |
| DynamicUnits.MulInto | kul.hpp:527-545 | multiplying by any unit keeps every term a power |
| DynamicUnits.MulIntoAll | kul.hpp:515-520 | multiplying by a product keeps every term a power |
| DynamicUnits.DivInto | kul.hpp:546-564 | dividing by any unit keeps every term a power |
| DynamicUnits.DivIntoAll | kul.hpp:521-526 | dividing by a product keeps every term a power |
| DynamicUnits.RootTerms | kul.hpp:655-661 | when the root of every term exists, the root terms are all powers |
| DynamicLaws.DimensionFoldAppend | kul.hpp:481-484 | appending a term multiplies the product's dimension by the term's |
| DynamicLaws.DimensionFoldReplace | kul.hpp:491-502 | replacing one term multiplies the dimension by the change in that term |
| DynamicLaws.MergeAtDimension | kul.hpp:491-502 | adding e to the exponent of a matching term multiplies the dimension by the base's dimension to the e |
| DynamicLaws.MergePowerDimension | kul.hpp:491-502 | multiplying by b^e multiplies the product's dimension by dim(b)^e |
| DynamicLaws.MulIntoDimension | kul.hpp:527-545 | multiplying by a unit multiplies the dimension by the unit's |
| DynamicLaws.MulIntoAllDimension | kul.hpp:515-520 | multiplying by a product multiplies the dimensions |
| DynamicLaws.DivIntoDimension | kul.hpp:546-564 | dividing by a unit divides the dimension by the unit's |
| DynamicLaws.DivIntoAllDimension | kul.hpp:521-526 | dividing by a product divides the dimensions |
| DynamicLaws.CollapseDimension | kul.hpp:607-616 | collapsing the kept terms into one unit keeps the dimension of the product |
| DynamicLaws.SimplifyDimension | kul.hpp:462-467 | simplifying a unit keeps its dimension |
| DynamicLaws.SimplifyTermsDimension | kul.hpp:607-616 | the kept simplified terms have the dimension of the original terms |
| DynamicLaws.TimesDimension | kul.hpp:623-629 | the dimension of a*b is the product of the dimensions |
| DynamicLaws.OverDimension | kul.hpp:631-637 | the dimension of a/b is the quotient of the dimensions |
| DynamicLaws.CancelDimension | kul.hpp:623-637 | `(a * b) / b` has the dimension of `a`, for all units |
| DynamicLaws.RootDimension | kul.hpp:639-663 | the n-th power of the root's dimension is the original dimension |
| DynamicLaws.RootTermsDimension | kul.hpp:655-661 | the n-th power of the root terms' dimension is the product's dimension |
| DynamicLaws.RootTermsFails | kul.hpp:655-661 | the root of a product fails exactly when the root of some term fails |
| DynamicLaws.RootErrors | kul.hpp:639-653 | the root of a named unit is an error; the root of b^e fails exactly when n does not divide e, and otherwise is the simplified b^(e/n) |
| DynamicLaws.RootOfPower | kul.hpp:639-653 | `root(u^e, e)` is `u` for every unit `u` and every nonzero `e` |
| DynamicMagnitudes.MagnitudeFoldAppend | kul.hpp:481-484 | appending a term multiplies the product's magnitude by the term's |
| DynamicMagnitudes.MagnitudeFoldReplace | kul.hpp:491-502 | replacing one term scales the magnitude by the change in that term |
| DynamicMagnitudes.PowerMagnitudeShift | kul.hpp:450-453 | raising the exponent of b^k by e scales its magnitude by mag(b)^e |
| DynamicMagnitudes.MergeAtMagnitude | kul.hpp:491-502 | merging into a matching term multiplies the magnitude by mag(b)^e |
| DynamicMagnitudes.MergePowerCases | kul.hpp:491-502 | merging either updates the first matching term or appends b^e |
| DynamicMagnitudes.MergePowerMagnitude | kul.hpp:491-502 | multiplying by b^e multiplies the product's magnitude by mag(b)^e |
| DynamicMagnitudes.MulIntoMagnitude | kul.hpp:527-545 | multiplying by a unit multiplies the magnitude by the unit's |
| DynamicMagnitudes.MulIntoAllSnoc | kul.hpp:515-520 | multiplying by a product is multiplying by its terms one at a time |
| DynamicMagnitudes.MulIntoAllMagnitude | kul.hpp:515-520 | multiplying by a product multiplies the magnitudes |
| DynamicMagnitudes.DivIntoMagnitude | kul.hpp:546-564 | dividing by a unit divides the magnitude by the unit's |
| DynamicMagnitudes.DivIntoAllSnoc | kul.hpp:521-526 | dividing by a product is dividing by its terms one at a time |
| DynamicMagnitudes.DivIntoAllMagnitude | kul.hpp:521-526 | dividing by a product divides the magnitudes |
| DynamicMagnitudes.CollapseMagnitude | kul.hpp:607-616 | collapsing the kept terms keeps the product's magnitude |
| DynamicMagnitudes.SimplifyMagnitude | kul.hpp:462-467 | simplifying a unit keeps its magnitude |
| DynamicMagnitudes.SimplifyTermsMagnitude | kul.hpp:607-616 | the kept simplified terms have the magnitude of the original terms |
| DynamicMagnitudes.TimesMagnitude | kul.hpp:623-629 | the magnitude of a*b is the product of the magnitudes |
| DynamicMagnitudes.OverMagnitude | kul.hpp:631-637 | the magnitude of a/b is the quotient of the magnitudes |
| DynamicMagnitudes.CancelMagnitude | kul.hpp:623-637 | `(a * b) / b` has the magnitude of `a`, for all units |
| DynamicMagnitudes.RootMagnitude | kul.hpp:639-663 | the n-th power of the root's magnitude is the original magnitude |
| DynamicMagnitudes.RootTermsMagnitude | kul.hpp:655-661 | the n-th power of the root terms' magnitude is the product's magnitude |
| DynamicStructure.MergePowerSpec | kul.hpp:491-502 | multiplying by b^e adds e to the exponent of the first term whose base equals b, replacing that base with b and leaving every other term in place; with no such term it appends b^e |
| DynamicStructure.SimplifyTermsMembers | kul.hpp:607-616 | every kept term is the simplification of an original term, and every original term whose simplification is not `unitless` is kept |
| DynamicStructure.AllUnitlessDropped | kul.hpp:607-616 | when every term simplifies to `unitless`, nothing is kept |
| DynamicStructure.SimplifyProductShape | kul.hpp:607-616 | a product simplifies to `unitless` exactly when every term does; otherwise the result is one simplified term, or a product of two or more terms none of which is `unitless` |
| DynamicStructure.SimplifyTermsFixed | kul.hpp:607-616 | terms that are already simplified and not `unitless` are kept unchanged |
| DynamicStructure.SimplifyIdempotent | kul.hpp:607-616 | simplifying twice is simplifying once, for units whose power bases are named units |
| DynamicStructure.SimplifyNotIdempotent | kul.hpp:462-467 | (m^0)^1 simplifies to m^0 and only a second pass reaches `unitless` |
| DynamicStructure.MeterTimesInverse | kul.hpp:623-629 | a metre times an inverse metre is `unitless` |
| DynamicStructure.SquareRootOfSquareMeter | kul.hpp:623-663 | a metre times a metre is m^2, whose square root is the metre |
| DynamicStructure.NoRootOfMeter | kul.hpp:639-653 | the square root of a metre or of m^3 does not exist |
| DynamicStructure.CancelUpToOrigin | kul.hpp:623-637 | `(a * b) / b` equals `a` as a unit exactly when their origins agree |
| DynamicStructure.CancelNotEqual | kul.hpp:607-637 | for an absolute c, `(c^2 * c^-1) * s / s` is c, which is not equal to the simplified `c^2 * c^-1`, a relative product |
| DynamicProducts.DynamicProduct.constructor | kul.hpp:478-480 | a new product has no terms |
| DynamicProducts.DynamicProduct.PushBack | kul.hpp:481-484 | appends the term and changes nothing else |
| DynamicProducts.DynamicProduct.PushBackUnlessUnitless | kul.hpp:485-490 | appends the term unless it is `unitless`, in which case the product is unchanged |
| DynamicProducts.DynamicProduct.MultiplyWithPower | kul.hpp:491-502 | the loop finds the first unit-equal base and leaves the terms equal to the merge of b^e |
| DynamicProducts.DynamicProduct.DivideByPower | kul.hpp:503-506 | dividing by b^e merges b^-e |
| DynamicProducts.DynamicProduct.MultiplyWith | kul.hpp:527-545 | the dispatch multiplies by a named unit as its first power, by a power directly and by a product term by term |
| DynamicProducts.DynamicProduct.MultiplyWithProduct | kul.hpp:515-520 | the loop multiplies by every term of the other product in order |
| DynamicProducts.DynamicProduct.DivideBy | kul.hpp:546-564 | the dispatch divides by a named unit, a power or a product |
| DynamicProducts.DynamicProduct.DivideByProduct | kul.hpp:521-526 | the loop divides by every term of the other product in order |
| DynamicProducts.DynamicProduct.Dimension | kul.hpp:577-587 | the loop over the terms computes the dimension of the product |
| DynamicProducts.DynamicProduct.Magnitude | kul.hpp:588-598 | the loop over the terms computes the magnitude of the product |
| DynamicProducts.DynamicProduct.Simplify | kul.hpp:607-616 | the loop computes the simplified product: the kept terms, collapsed |
| DynamicProducts.Multiply | kul.hpp:623-629 | a fresh product multiplied by a and then b, then simplified, is a*b |
| DynamicProducts.Divide | kul.hpp:631-637 | a fresh product multiplied by a and divided by b, then simplified, is a/b |
| DynamicProducts.RootTermsErrPrefix | kul.hpp:655-661 | once a prefix of the terms fails to have a root, so does the whole product, with the same error |
| DynamicProducts.Root | kul.hpp:639-663 | the dispatch and the loop over a product's terms compute the root, or its error |
| DynamicProducts.Sqrt | kul.hpp:665-668 | `sqrt` is the root with exponent 2 |
| DynamicProducts.Cbrt | kul.hpp:670-673 | `cbrt` is the root with exponent 3 |
| StaticUnits.SMagnitude | kul.hpp:677-745 | the magnitude of a unit type is never zero |
| StaticUnits.SMagnitudeFold | kul.hpp:722-737 | the magnitude of a product type is never zero |
| StaticUnits.MakeRelative | kul.hpp:992-999 | `make_relative<T>` has T's dimension and magnitude and no origin |
| StaticUnits.MulPow | kul.hpp:801-825 | multiplying a product type by a power grows it by at most one term |
| StaticUnits.SSimplifyTerms | kul.hpp:900-916 | simplifying the terms never adds terms |
| StaticUnits.RootPows | kul.hpp:964-975 | a successful root of a product of powers has one power per term |
| StaticUnits.MulPowAllPows | kul.hpp:801-825 | multiplying by a power keeps a product of powers |
| StaticUnits.MulWithAllPows | kul.hpp:801-839 | multiplying by any unit type keeps a product of powers |
| StaticUnits.MulWithAllAllPows | kul.hpp:826-839 | multiplying by a product type keeps a product of powers |
| StaticUnits.CanonicalAllPows | kul.hpp:944-945 | the canonical form of every unit type is a product of powers |
| StaticUnits.IntToString | kul.hpp:680 | `std::to_string` of an exponent: the digits of a non-negative exponent spell its value; a negative one is a minus sign before the digits of its magnitude; no leading zero except in "0" |
| StaticUnits.NatToString | kul.hpp:680 | the decimal spelling of a natural is a non-empty string of digits, without a leading zero, whose decimal value is the natural |
| StaticUnits.IntToStringInjective | kul.hpp:680 | two exponents are spelled alike exactly when they are equal |
| StaticLaws.MulPowReplaces | kul.hpp:814-825 | multiplying by b^e adds e to the exponent of the first power of b and leaves the rest alone |
| StaticLaws.MulPowAppends | kul.hpp:808-819 | with no power of b present, multiplying by b^e appends it |
| StaticLaws.DivPowIsMulPowNeg | kul.hpp:841-865 | dividing by b^e is multiplying by b^-e |
| StaticLaws.SDimensionFoldCons | kul.hpp:729-732 | the dimension of a product type is the first term's dimension times the rest's |
| StaticLaws.SDimensionFoldPrepend | kul.hpp:760-769 | prepending a term multiplies the dimension by the term's |
| StaticLaws.MulPowDimension | kul.hpp:801-825 | multiplying by b^e multiplies the dimension by dim(b)^e |
| StaticLaws.MulWithDimension | kul.hpp:801-839 | multiplying by a unit type multiplies the dimensions |
| StaticLaws.MulWithAllDimension | kul.hpp:826-839 | multiplying by a product type multiplies the dimensions |
| StaticLaws.DivWithDimension | kul.hpp:841-879 | dividing by a unit type divides the dimensions |
| StaticLaws.DivWithAllDimension | kul.hpp:866-879 | dividing by a product type divides the dimensions |
| StaticLaws.CanonicalizeDimension | kul.hpp:944-945 | the canonical form has the unit's dimension |
| StaticLaws.SSimplifyDimension | kul.hpp:881-942 | simplifying a unit type keeps its dimension |
| StaticLaws.SSimplifyTermsDimension | kul.hpp:900-916 | simplifying the terms keeps the product's dimension |
| StaticLaws.MultiplyDimension | kul.hpp:947-948 | the dimension of `multiply<A, B>` is the product of the dimensions |
| StaticLaws.DivideDimension | kul.hpp:950-951 | the dimension of `divide<A, B>` is the quotient of the dimensions |
| StaticLaws.CancelDimension | kul.hpp:947-951 | `divide<multiply<A, B>, B>` has the dimension of A, for all unit types |
| StaticLaws.CancelNotEqual | kul.hpp:881-951 | for an absolute c, `divide<multiply<c^2 * c^-1, second>, second>` is c, which is not `are_equal` to the simplified `c^2 * c^-1`, a relative product |
| StaticLaws.RootPowsDimension | kul.hpp:953-975 | the n-th power of a successful root's dimension is the original's |
| StaticLaws.StaticRootDimension | kul.hpp:977-978 | when `static_root<A, N>` exists, its dimension to the N is A's |
| StaticLaws.RootPowsFails | kul.hpp:953-975 | the root of a product of powers fails exactly when the root of some power fails |
| StaticLaws.StaticRootFails | kul.hpp:953-978 | `static_root<A, N>` is rejected exactly when A's canonical form has a power whose exponent N does not divide, where N = 0 divides none; so the zeroth root of a unit with an empty canonical form is `unitless` |
| StaticLaws.RootOfPower | kul.hpp:953-978 | `static_root<static_pow<U, E>, E>` is U for every unit type U and every nonzero E |
| StaticLaws.AreEqualEquivalence | kul.hpp:986-990 | `are_equal` is reflexive, symmetric and transitive |
| StaticLaws.MakeRelativeLaws | kul.hpp:992-1005 | `make_relative<T>` is relative, equals T exactly when T is relative, and making it relative again gives an equal unit |
| StaticLaws.AbsoluteAgreesWithEquality | kul.hpp:986-1005 | equal unit types are both absolute or both relative |
| StaticLaws.MeterTimesMeter | kul.hpp:947-948 | `multiply<meter, meter>` is `static_pow<meter, 2>` |
| StaticLaws.StaticRootOfMeter | kul.hpp:953-978 | the first root of a metre is the metre, its square root is rejected as a non-divisible power, its zeroth root is rejected, and the zeroth root of the empty product is `unitless` |
| StaticLaws.MeterTimesRelativeMeter | kul.hpp:947-948 | a metre times a relative metre is a product of the two |
| StaticMagnitudes.SMagnitudeFoldCons | kul.hpp:733-736 | the magnitude of a product type is the first term's magnitude times the rest's |
| StaticMagnitudes.SMagnitudeFoldPrepend | kul.hpp:760-769 | prepending a term multiplies the magnitude by the term's |
| StaticMagnitudes.MulPowMagnitude | kul.hpp:801-825 | multiplying by b^e multiplies the magnitude by mag(b)^e |
| StaticMagnitudes.MulWithMagnitude | kul.hpp:801-839 | multiplying by a unit type multiplies the magnitudes |
| StaticMagnitudes.MulWithAllMagnitude | kul.hpp:826-839 | multiplying by a product type multiplies the magnitudes |
| StaticMagnitudes.DivPowMagnitude | kul.hpp:841-865 | dividing by b^e divides the magnitude by mag(b)^e |
| StaticMagnitudes.DivWithMagnitude | kul.hpp:841-879 | dividing by a unit type divides the magnitudes |
| StaticMagnitudes.DivWithAllMagnitude | kul.hpp:866-879 | dividing by a product type divides the magnitudes |
| StaticMagnitudes.CanonicalizeMagnitude | kul.hpp:944-945 | the canonical form has the unit's magnitude |
| StaticMagnitudes.SSimplifyMagnitude | kul.hpp:881-942 | simplifying a unit type keeps its magnitude |
| StaticMagnitudes.SSimplifyTermsMagnitude | kul.hpp:900-916 | simplifying the terms keeps the product's magnitude |
| StaticMagnitudes.MultiplyMagnitude | kul.hpp:947-948 | the magnitude of `multiply<A, B>` is the product of the magnitudes |
| StaticMagnitudes.DivideMagnitude | kul.hpp:950-951 | the magnitude of `divide<A, B>` is the quotient of the magnitudes |
| StaticMagnitudes.CancelMagnitude | kul.hpp:947-951 | `divide<multiply<A, B>, B>` has the magnitude of A, for all unit types |
| StaticMagnitudes.CancelUpToOrigin | kul.hpp:947-951 | `divide<multiply<A, B>, B>` is `are_equal` to A exactly when their origins agree |
| StaticMagnitudes.RootPowsMagnitude | kul.hpp:953-975 | the n-th power of a successful root's magnitude is the original's |
| StaticMagnitudes.StaticRootMagnitude | kul.hpp:977-978 | when `static_root<A, N>` exists, its magnitude to the N is A's |
| Agreement.ToDynamicTerms | kul.hpp:700-744 | the copy of a product type is a run-time product whose terms are all powers |
| Agreement.ToDynamicDimension | kul.hpp:677-745 | the copy of a unit type has the unit type's dimension |
| Agreement.ToDynamicTermsDimension | kul.hpp:738-744 | the copy of a product type has its dimension |
| Agreement.ToDynamicMagnitude | kul.hpp:677-745 | the copy of a unit type has the unit type's magnitude |
| Agreement.ToDynamicTermsMagnitude | kul.hpp:738-744 | the copy of a product type has its magnitude |
| Agreement.TailCopyIllFormed | kul.hpp:738-744 | as written, the copy of metre times second does not compile, nor that of any product of two or more units; the intended copy keeps the product's dimension |
| Agreement.HeadMagnitude | kul.hpp:713-718 | the first term of a copied product, a first power of its copy, has the term's magnitude |
| Agreement.ToDynamicOrigin | kul.hpp:677-745 | the copy of a unit type has the unit type's origin |
| Agreement.EqualityAgrees | kul.hpp:986-990 | the copies of two unit types are equal at run time exactly when the types are `are_equal` |
| Agreement.MultiplyAgrees | kul.hpp:947-948 | run-time multiplication of the copies and the copy of `multiply` agree in dimension and magnitude |
| Agreement.DivideAgrees | kul.hpp:950-951 | run-time division of the copies and the copy of `divide` agree in dimension and magnitude |
| Agreement.RootAgrees | kul.hpp:977-978 | when both roots exist they have the same dimension |
| Agreement.MeterTimesRelativeMeterDiffers | kul.hpp:491-502 | a metre times a relative metre is one square at run time, but a product of two units statically |
| Agreement.OriginDiffers | kul.hpp:491-502 | for a unit c with an origin and a renamed copy c2, c^2/c2 is the absolute c2 at run time but a relative type statically |
| Agreement.FirstRootDiffers | kul.hpp:639-645 | the first root of a metre exists statically but is an error at run time |
| Conversions.MakeConversion | kul.hpp:1014-1024 | the multiplier times the new magnitude is the old magnitude; the offset times the new magnitude is the old origin minus the new origin, a missing origin counting as zero |
| Conversions.SIValueInjective | kul.hpp:1033-1036 | distinct values in one unit denote distinct quantities |
| Conversions.ConversionPreservesSIValue | kul.hpp:1014-1036 | a converted value denotes the same quantity as the original |
| Conversions.RoundTrip | kul.hpp:1014-1036 | converting A to B and back gives the original value |
| Conversions.Compose | kul.hpp:1014-1036 | converting A to B and then B to C is converting A to C |
| Conversions.IdentityConversion | kul.hpp:1014-1024 | the conversion is the identity exactly when the magnitudes agree and the origins agree, a missing origin counting as zero |
| Conversions.DynamicConversionOfEqualUnits | kul.hpp:1025-1032 | equal run-time units convert by the identity |
| Conversions.StaticConversionIdentity | kul.hpp:1039-1042 | two unit types convert by the identity exactly when magnitudes and origins (a missing one counting as zero) agree; equal types in particular do |
| Conversions.MilliInchToMicrometre | kul.hpp:1039-1042 | a thousandth of an inch converts to micrometres with multiplier 127/5, so one is 25.4 |
| Quantities.Convert | kul.hpp:1137-1157 | the intended converting constructor: a conversion compiles exactly when the dimensions match and both units are absolute or both relative; it yields the target unit, and a dimension mismatch is reported as such |
| Quantities.ConvertAsWritten | kul.hpp:1144-1157 | the converting constructor as written compiles exactly for `are_equal` units, keeping the value; otherwise the conversion object is called with no argument and is rejected |
| Quantities.ConvertAsWrittenRejects | kul.hpp:1144-1157 | as written, converting equal units agrees with the intended constructor, while a thousandth of an inch is rejected where the intended constructor converts it to micrometres |
| Quantities.ConvertPreservesDenotation | kul.hpp:1137-1157 | a converted quantity denotes the same physical quantity |
| Quantities.ConvertRoundTrip | kul.hpp:1137-1157 | converting to another unit and back gives the original quantity |
| Quantities.Add | kul.hpp:1195-1201 | `+` compiles exactly for two quantities of the same relative unit, and keeps that unit |
| Quantities.AddDenotation | kul.hpp:1195-1201 | a sum denotes the sum of what the operands denote |
| Quantities.Subtract | kul.hpp:1203-1217 | `-` compiles exactly for two quantities of one unit; the result is relative, its unit equals `make_relative` of theirs, and it is exactly theirs for relative operands and `make_relative` of theirs for absolute ones |
| Quantities.SubtractDenotation | kul.hpp:1203-1217 | a difference denotes the difference of what the operands denote, for absolute units too |
| Quantities.TimesScale | kul.hpp:1219-1225 | a product quantity has the product dimension, and its value scaled by its magnitude is the product of the scaled operands |
| Quantities.QuotientScale | kul.hpp:1227-1233 | a quotient quantity has the quotient dimension, and the scaled values divide likewise |
| Quantities.Fma | kul.hpp:1336-1350 | `fma` compiles exactly when the addend's unit equals the unit of the product, and yields the addend's unit |
| Quantities.FmaScale | kul.hpp:1336-1350 | the scaled result of `fma` is the scaled product plus the scaled addend |
| Quantities.SqrtUnit | kul.hpp:1241-1245 | the unit of `sqrt` squares to the operand's dimension and magnitude, and is rejected exactly when `static_sqrt` does not exist |
| Quantities.CbrtUnit | kul.hpp:1247-1251 | the unit of `cbrt` cubes to the operand's dimension and magnitude, and is rejected exactly when `static_cbrt` does not exist |
| Quantities.ConversionExamples | kul.hpp:1144-1157 | with the intended converting constructor, one `milli<inch>` converts to 25.4 micrometres, and a metre does not convert to seconds |
| Quantities.ArithmeticExamples | kul.hpp:1195-1217 | a metre and a relative metre do not add, two absolute readings do not add, and their difference is relative |
| Functions.Square | p3a_functions.hpp:9-14 | a square is non-negative and zero only for zero |
| Functions.Cube | p3a_functions.hpp:16-21 | a cube has the sign of its argument |
| Functions.PowerSymmetry | p3a_functions.hpp:9-21 | the square is even, the cube is odd, and the cube is the square times the argument |
| Functions.SquareIncreasing | p3a_functions.hpp:9-14 | the square is strictly increasing on the non-negative integers |
| Functions.Condition | p3a_functions.hpp:66-71 | the second argument when the condition holds, otherwise the third |
| Functions.Minimum | p3a_functions.hpp:73-78 | the minimum is at most both arguments and is one of them |
| Functions.Maximum | p3a_functions.hpp:80-85 | the maximum is at least both arguments and is one of them |
| Functions.MinimumMaximum | p3a_functions.hpp:73-85 | minimum and maximum are symmetric, sum to the sum of the arguments, and are ordered |
| Functions.TruncDiv | p3a_functions.hpp:87-91 | C++ integer division agrees with floor division for a non-negative dividend and positive divisor |
| Functions.TruncMod | p3a_functions.hpp:87-91 | C++ `%` completes the truncating division, and its remainder takes the dividend's sign |
| Functions.CeildivIsLeastCover | p3a_functions.hpp:87-91 | for a non-negative dividend and a positive divisor, `ceildiv` is the least multiple count that covers the dividend |
| Functions.CeildivMixedSigns | p3a_functions.hpp:87-91 | with operands of opposite signs, `ceildiv(-1, 2)` and `ceildiv(1, -2)` are 1, not the ceiling 0 |
| Functions.CeilDivisionIsCeiling | p3a_functions.hpp:87-91 | the corrected division is the ceiling of a/b for every sign |
| Functions.CeilDivisionAgrees | p3a_functions.hpp:87-91 | the corrected division equals `ceildiv` whenever the operands have the same sign |
| Functions.Sign | p3a_functions.hpp:120-123 | `sign` is -1 exactly for negative arguments and 1 otherwise, and never disagrees with the argument's sign |
| Functions.SignTimesIsAbsolute | p3a_functions.hpp:120-123 | the sign times the argument is its absolute value; the sign of zero is 1 |
| Functions.Cell.constructor | p3a_functions.hpp:131-137 | a new cell holds the given value |
| Functions.Swap | p3a_functions.hpp:131-137 | after the swap each cell holds the other's former value |

## Left out

- 64-bit integer overflow in the rationals: numerators and denominators are unbounded integers. The library's `int64_t` products can overflow for large magnitudes, and the model does not capture that.
- `rational(0, 0)`: it divides by a zero gcd, which is undefined. `Rationals.Make` requires a numerator or denominator that is not zero.
- `convert_to<T>` and every floating-point value: unit magnitudes are exact reals, and quantity values are exact reals. Rounding, infinities and NaN are not modelled.
- `name()` of the run-time units is not modelled; names do not take part in equality. The compile-time `static_name` is modelled (`StaticUnits.SName`, with `StaticUnits.IntToString` for exponents), and the copy of `make_relative` carries the name of its base.
- The dimension and magnitude of an empty `dynamic_product` read `m_terms[0]` and are undefined. `DynamicProducts.DynamicProduct.Dimension` and `DynamicProducts.DynamicProduct.Magnitude` require at least one term. The specification functions give the empty product the identity.
- `DynamicProducts.Root` and `DynamicUnits.RootOf`: require a nonzero root exponent, because `exponent % 0` on a power term is undefined. Two zeroth roots are defined in the source and are therefore not modelled: the root of a named unit throws its `runtime_error` before any `%`, and the root of an empty product runs no iteration and gives `unitless`. The `logic_error` for an unknown unit class cannot arise in the datatype.
- Cancellation, `(a * b) / b` giving back `a`, holds in both algebras for dimension and magnitude only (`StaticLaws.CancelDimension`, `StaticMagnitudes.CancelMagnitude`, `DynamicLaws.CancelDimension`, `DynamicMagnitudes.CancelMagnitude`). Canonical forms drop the powers that cancel, so the origin can change: `StaticLaws.CancelNotEqual` and `DynamicStructure.CancelNotEqual` give an absolute result for a relative `a`.
- `DynamicStructure.SimplifyIdempotent`: proved only for units whose power bases are named units. `DynamicStructure.SimplifyNotIdempotent` shows that it fails for a power of an unsimplified power.
- Ownership is not modelled: `unique_ptr`, `copy()` of the run-time classes, `dynamic_cast` dispatch and the move and copy constructors of `dynamic_unit`. A run-time unit is a value.
- Units of zero magnitude: a magnitude is a nonzero rational (`Units.Magnitude`), so the model admits no named unit of magnitude zero. Such a unit makes every conversion to it divide by zero.
- Class identity of run-time units: a named unit is identified by its descriptor (name, dimension, magnitude, origin). `push_back_unless_unitless` and `is_unitless` test the class with `dynamic_cast`, so the copy of `make_relative<unitless>`, whose descriptor equals that of `unitless`, is dropped from products in the model but kept in C++.
- `Conversions.DynamicConversion`: the run-time conversion constructor performs no dimension check, and neither does the model. The check lives in the quantity constructors (`Quantities.Convert`).
- `Quantities.Quotient`: requires a nonzero divisor. Division by zero is left to floating point.
- The comparisons of quantities are not modelled: `==`, `!=`, `<`, `<=`, `>`, `>=` compare the values of one unit type.
- The quantity functions `abs`, `hypot`, `sin`, `cos`, `exp`, `log` and the other floating-point math functions are not modelled. Of `sqrt` and `cbrt`, only the unit typing is modelled.
- `quantity<T, dynamic_unit>` only holds a value and a run-time unit and has no operations of its own, so it adds nothing over the run-time unit algebra.
- The implicit constructor of a `unitless` quantity from a value is not modelled.
- `linear_interpolation`, the generic `a + t * (b - a)`, is not modelled: it is used on floating-point and vector types.
- `load`, `load_scalar` and `store` read and write through raw pointers and are not modelled.
- `average`, `absolute_value`, `ceiling`, `square_root`, `natural_exponential`, `natural_logarithm`, `exponentiate` and `arcsin` are thin wrappers over floating-point library calls and are not modelled.
- `Functions.Minimum` and `Functions.Maximum` are stated for integers, and `Functions.Condition` for any type. The templates take any ordered type.
- `p3a_svd.hpp`, `p3a_fixed_point.cpp` and `p3a_for_each.hpp` are not part of this model.

## Findings

| source | as written | input that shows it | evidently intended | confidence | as-written member | corrected member |
|---|---|---|---|---|---|---|
| p3a_functions.hpp:87-91 | `ceildiv` adds one to the truncating quotient whenever the remainder is nonzero | a = -1, b = 2 gives 1 (likewise a = 1, b = -2), but the ceiling of -1/2 is 0 | the ceiling of a / b; the two agree when the operands have the same sign | not executed; every use seen divides non-negative counts | Functions.CeildivMixedSigns | Functions.CeilDivisionIsCeiling |
| kul.hpp:1144-1157 | the converting constructor for units that are not `are_equal` calls `static_conversion<T2, Unit2, Unit>()` with no argument, but the conversion's only `operator()` takes one value | converting one `milli<inch>` to micrometres | the value converted by the conversion object, as `Quantities.Convert` does | not executed; read from the declarations | Quantities.ConvertAsWrittenRejects | Quantities.ConvertPreservesDenotation |
| kul.hpp:738-744 | `copy()` of a product of two or more units calls `tail_type::copy()`, a non-static member of a class it does not derive from, with no object | `static_product<meter, second>` | the copy of the tail product, multiplied into the head's | not executed; read from the declarations | Agreement.TailCopyIllFormed | Agreement.ToDynamicDimension |
