/**
 * The small generic helpers of `p3a_functions.hpp`, instantiated at
 * mathematical integers (and reals for `sign`): powers, selection,
 * minimum and maximum, ceiling division, sign and swap.
 */
module Functions {

  // ---------------------------------------------------------------------
  // square and cube

  function Square(a: int): (r: int)
    ensures r >= 0
    ensures r == 0 <==> a == 0
  {
    a * a
  }

  function Cube(a: int): (r: int)
    ensures r < 0 <==> a < 0
    ensures r == 0 <==> a == 0
  {
    a * a * a
  }

  /** Squares forget the sign, cubes keep it, and a cube is a square times the base. */
  lemma PowerSymmetry(a: int)
    ensures Square(-a) == Square(a)
    ensures Cube(-a) == -Cube(a)
    ensures Cube(a) == Square(a) * a
  {
  }

  /** On non-negative integers squaring is strictly increasing. */
  lemma SquareIncreasing(a: int, b: int)
    requires 0 <= a < b
    ensures Square(a) < Square(b)
  {
    assert a * a <= a * b;
    assert a * b < b * b;
  }

  // ---------------------------------------------------------------------
  // condition, minimum, maximum

  /** `condition(a, b, c)`: `b` when `a` holds, `c` otherwise. */
  function Condition<T>(a: bool, b: T, c: T): (r: T)
    ensures a ==> r == b
    ensures !a ==> r == c
  {
    if a then b else c
  }

  /** `minimum(a, b)`: `b` only when `b < a`, so a tie gives `a`. */
  function Minimum(a: int, b: int): (r: int)
    ensures r <= a && r <= b
    ensures r == a || r == b
  {
    Condition(b < a, b, a)
  }

  /** `maximum(a, b)`: `b` only when `a < b`, so a tie gives `a`. */
  function Maximum(a: int, b: int): (r: int)
    ensures r >= a && r >= b
    ensures r == a || r == b
  {
    Condition(a < b, b, a)
  }

  /** Minimum and maximum are symmetric and together give back both arguments. */
  lemma MinimumMaximum(a: int, b: int)
    ensures Minimum(a, b) == Minimum(b, a) && Maximum(a, b) == Maximum(b, a)
    ensures Minimum(a, b) + Maximum(a, b) == a + b
    ensures Minimum(a, b) <= Maximum(a, b)
  {
  }

  // ---------------------------------------------------------------------
  // ceildiv

  /** C++ integer division, which truncates toward zero. */
  function TruncDiv(a: int, b: int): (q: int)
    requires b != 0
    ensures a >= 0 && b > 0 ==> q == a / b
  {
    if a >= 0 then (if b > 0 then a / b else -(a / -b))
    else (if b > 0 then -((-a) / b) else (-a) / (-b))
  }

  /** C++ remainder, which takes the sign of the dividend. */
  function TruncMod(a: int, b: int): (m: int)
    requires b != 0
    ensures a == TruncDiv(a, b) * b + m
    ensures a >= 0 ==> 0 <= m < if b > 0 then b else -b
    ensures a < 0 ==> (if b > 0 then -b else b) < m <= 0
  {
    a - TruncDiv(a, b) * b
  }

  /** `ceildiv(a, b)`: the truncated quotient, plus one when the remainder is nonzero. */
  function Ceildiv(a: int, b: int): (q: int)
    requires b != 0
  {
    TruncDiv(a, b) + (if TruncMod(a, b) != 0 then 1 else 0)
  }

  /**
   * For a non-negative dividend and a positive divisor, `ceildiv(a, b)` is
   * the least `q` with `q * b >= a`: the number of blocks of size `b`
   * needed to cover `a` items.
   */
  lemma CeildivIsLeastCover(a: int, b: int)
    requires a >= 0 && b > 0
    ensures Ceildiv(a, b) * b >= a
    ensures (Ceildiv(a, b) - 1) * b < a
    ensures Ceildiv(a, b) >= 0
  {
    var q := TruncDiv(a, b);
    var m := TruncMod(a, b);
    assert a == q * b + m && 0 <= m < b;
    if m != 0 {
      assert (q + 1) * b == q * b + b;
    }
  }

  /** With operands of different signs and a nonzero remainder, `ceildiv` rounds up one too far. */
  lemma CeildivMixedSigns()
    ensures Ceildiv(-1, 2) == 1
    ensures Ceildiv(1, -2) == 1
    ensures (Ceildiv(-1, 2) - 1) * 2 >= -1
  {
  }

  /** Ceiling division for operands of any sign: truncation rounds up exactly when the signs agree. */
  function CeilDivision(a: int, b: int): (q: int)
    requires b != 0
  {
    TruncDiv(a, b) + (if TruncMod(a, b) != 0 && (a < 0) == (b < 0) then 1 else 0)
  }

  /**
   * `CeilDivision(a, b)` is the ceiling of the exact quotient, for every
   * sign: the least `q` with `q * b >= a` when `b` is positive, and the
   * least `q` with `q * b <= a` when `b` is negative.
   */
  lemma CeilDivisionIsCeiling(a: int, b: int)
    requires b != 0
    ensures b > 0 ==> CeilDivision(a, b) * b >= a && (CeilDivision(a, b) - 1) * b < a
    ensures b < 0 ==> CeilDivision(a, b) * b <= a && (CeilDivision(a, b) - 1) * b > a
  {
    var q := TruncDiv(a, b);
    var m := TruncMod(a, b);
    assert a == q * b + m;
    assert (q + 1) * b == q * b + b;
    assert (q - 1) * b == q * b - b;
  }

  /** The corrected division agrees with `ceildiv` wherever the signs agree. */
  lemma CeilDivisionAgrees(a: int, b: int)
    requires b != 0 && (a < 0) == (b < 0)
    ensures CeilDivision(a, b) == Ceildiv(a, b)
  {
  }

  // ---------------------------------------------------------------------
  // sign

  /** `sign(x)`: -1 for negative arguments and 1 otherwise, zero included. */
  function Sign(x: real): (r: real)
    ensures r == -1.0 || r == 1.0
    ensures r == -1.0 <==> x < 0.0
    ensures r * x >= 0.0
  {
    if x < 0.0 then -1.0 else 1.0
  }

  /** Multiplying by the sign gives the absolute value. */
  lemma SignTimesIsAbsolute(x: real)
    ensures Sign(x) * x == if x < 0.0 then -x else x
    ensures Sign(0.0) == 1.0
  {
  }

  // ---------------------------------------------------------------------
  // swap

  /** A mutable variable, the referent of a C++ reference argument. */
  class Cell<T> {
    var value: T

    constructor (v: T)
      ensures value == v
    {
      value := v;
    }
  }

  /** `swap(t1, t2)`: move `t1` into a temporary, `t2` into `t1`, and the temporary into `t2`. */
  method Swap<T>(t1: Cell<T>, t2: Cell<T>)
    modifies t1, t2
    ensures t1.value == old(t2.value)
    ensures t2.value == old(t1.value)
  {
    var temp := t1.value;
    t1.value := t2.value;
    t2.value := temp;
  }
}
