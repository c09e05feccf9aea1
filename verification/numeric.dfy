/**
 Real-number stand-ins for the C library routines and the IEEE-754 special
 values the source relies on: `std::floor`, `std::fmod`, `std::sqrt`, and the
 infinities and NaN that a division by zero produces.
 */
module Numeric {

  /** Constants::PI, the double closest to pi. */
  const PI: real := 3.141592653589793

  /** A double that may have left the finite reals. */
  datatype Extended = Finite(value: real) | PosInfinity | NegInfinity | NaN

  /** `std::floor` on a real, as an integer. */
  function Floor(x: real): (r: int)
    ensures r as real <= x < r as real + 1.0
  {
    x.Floor
  }

  /** Truncation toward zero, the rounding `std::fmod` uses for its quotient. */
  function Trunc(x: real): (r: int)
    ensures 0.0 <= x ==> r == Floor(x)
    ensures x < 0.0 ==> r == -Floor(-x)
    ensures 0.0 <= x ==> 0.0 <= r as real <= x
    ensures x < 0.0 ==> x <= r as real <= 0.0
  {
    if 0.0 <= x then x.Floor else -((-x).Floor)
  }

  /** `std::fmod(x, y)`: the remainder of x / y with the sign of x. */
  function FMod(x: real, y: real): (r: real)
    requires y > 0.0
    ensures 0.0 <= x ==> 0.0 <= r < y
    ensures x < 0.0 ==> -y < r <= 0.0
    ensures 0.0 <= x ==> r == FloorMod(x, y)
    ensures x < 0.0 ==> r == -FloorMod(-x, y)
  {
    if 0.0 <= x then
      FloorMod(x, y)
    else
      assert Trunc(x / y) == -Floor(-x / y) by {
        assert x / y == -(-x / y);
      }
      -FloorMod(-x, y)
  }

  /** The floored remainder: the representative of x modulo y in [0, y). */
  function FloorMod(x: real, y: real): (r: real)
    requires y > 0.0
    ensures 0.0 <= r < y
    ensures r + Floor(x / y) as real * y == x
  {
    var n := Floor(x / y);
    QuotientBounds(x, y, n);
    x - n as real * y
  }

  /** Multiplying by a positive real preserves order. */
  lemma MulMonotonic(a: real, b: real, y: real)
    requires y > 0.0 && a <= b
    ensures a * y <= b * y
  {
    assert (b - a) * y >= 0.0;
  }

  /** Multiplying by a positive real preserves strict order. */
  lemma MulStrictlyMonotonic(a: real, b: real, y: real)
    requires y > 0.0 && a < b
    ensures a * y < b * y
  {
    assert (b - a) * y > 0.0;
  }

  /** A product of two positive reals is positive. */
  lemma MulPositive(a: real, b: real, p: real)
    requires p == a * b
    requires a > 0.0 && b > 0.0
    ensures p > 0.0
  {
  }

  /** A square s == a * a is non-negative, and positive when a is non-zero. */
  lemma SquareSign(a: real, s: real)
    requires s == a * a
    ensures s >= 0.0
    ensures a != 0.0 ==> s > 0.0
  {
    if a < 0.0 {
      var b := -a;
      assert s == b * b;
      MulPositive(b, b, s);
    } else if a > 0.0 {
      MulPositive(a, a, s);
    }
  }

  /** A sum of three squares is zero exactly when each root is. */
  lemma SquaresVanish(a: real, b: real, c: real, s: real)
    requires s == a * a + b * b + c * c
    ensures s >= 0.0
    ensures s == 0.0 <==> a == 0.0 && b == 0.0 && c == 0.0
  {
    SquareSign(a, a * a);
    SquareSign(b, b * b);
    SquareSign(c, c * c);
  }

  /** An integer n with n <= x / y < n + 1 brackets x between n * y and (n + 1) * y. */
  lemma QuotientBounds(x: real, y: real, n: int)
    requires y > 0.0
    requires n as real <= x / y < n as real + 1.0
    ensures n as real * y <= x
    ensures x < n as real * y + y
  {
    var q := x / y;
    var m := n as real;
    assert q * y == x;
    assert m * y <= x by {
      MulMonotonic(m, q, y);
    }
    assert x < m * y + y by {
      MulStrictlyMonotonic(q, m + 1.0, y);
      assert (m + 1.0) * y == m * y + y;
    }
  }

  /** True when `sqrt` returns the non-negative square root of every non-negative real. */
  ghost predicate IsSqrt(sqrt: real -> real) {
    forall x: real {:trigger sqrt(x)} :: 0.0 <= x ==> 0.0 <= sqrt(x) && sqrt(x) * sqrt(x) == x
  }

  /** `x / y` in IEEE arithmetic, with y a non-negative divisor (y == 0 stands for +0). */
  function Divide(x: real, y: real): (r: Extended)
    ensures y != 0.0 <==> r.Finite?
    ensures r.Finite? ==> r.value * y == x
    ensures y == 0.0 ==> (r.PosInfinity? <==> x > 0.0) && (r.NegInfinity? <==> x < 0.0)
  {
    if y != 0.0 then Finite(x / y)
    else if x > 0.0 then PosInfinity
    else if x < 0.0 then NegInfinity
    else NaN
  }

  /** `std::sqrt` lifted to IEEE values: negative inputs and NaN give NaN. */
  function SqrtExtended(x: Extended, sqrt: real -> real): (r: Extended)
    requires IsSqrt(sqrt)
    ensures r.Finite? <==> x.Finite? && 0.0 <= x.value
    ensures r.Finite? ==> 0.0 <= r.value && r.value * r.value == x.value
    ensures r.PosInfinity? <==> x.PosInfinity?
    ensures !r.NegInfinity?
  {
    match x
    case Finite(v) => if 0.0 <= v then Finite(sqrt(v)) else NaN
    case PosInfinity => PosInfinity
    case NegInfinity => NaN
    case NaN => NaN
  }

  /** Multiplication of an IEEE value by a positive finite constant. */
  function TimesPositive(c: real, x: Extended): (r: Extended)
    requires c > 0.0
    ensures r.Finite? <==> x.Finite?
    ensures r.Finite? ==> r.value == c * x.value
    ensures r.PosInfinity? <==> x.PosInfinity?
    ensures r.NegInfinity? <==> x.NegInfinity?
  {
    match x
    case Finite(v) => Finite(c * v)
    case _ => x
  }
}
