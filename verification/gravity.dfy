/**
 Newtonian gravity from src/Gravity.hpp: the attraction between two point
 masses, as a magnitude over a distance and as a vector over an offset, and
 the acceleration of a negligible mass, which is the force on a unit mass.
 */
module Gravity {
  import opened Numeric
  import opened Vector
  import opened Results

  /** Gravity::G, in m^3 / (kg s^2). */
  const G: real := 6.67408e-11

  /** `force(mass1, mass2, distance)`: G m1 m2 / d^2; a zero distance divides
      by zero and gives an infinity (or NaN when a mass is zero). */
  function Force(m1: real, m2: real, d: real): (r: Extended)
    ensures r.Finite? <==> d != 0.0
    ensures r.Finite? ==> r.value * (d * d) == G * m1 * m2
    ensures d == 0.0 ==> (r.PosInfinity? <==> G * m1 * m2 > 0.0) && (r.NaN? <==> G * m1 * m2 == 0.0)
  {
    SquareSign(d, d * d);
    Numeric.Divide(G * m1 * m2, d * d)
  }

  /** `acceleration(mass, distance)`: the force on a unit mass. */
  function Acceleration(mass: real, d: real): (r: Extended)
    ensures r.Finite? <==> d != 0.0
    ensures r.Finite? ==> r.value * (d * d) == G * mass
  {
    Force(1.0, mass, d)
  }

  /** `force(mass1, mass2, offset)`: the force on the first body, directed
      against the offset with magnitude G m1 m2 / |offset|^2.  A zero offset
      yields a vector of NaNs in the source, modelled as `None`. */
  function ForceVector(m1: real, m2: real, offset: Vector3D, sqrt: real -> real): (r: Option<Vector3D>)
    requires IsSqrt(sqrt)
    ensures Valid(offset) ==> (r.None? <==> offset.length2 == 0.0)
    ensures r.Some? ==> Valid(r.value)
  {
    if offset.length2 == 0.0 then None
    else Some(Scale(Negate(Normalized(offset, sqrt)), (G * m1 * m2) / offset.length2))
  }

  /** `acceleration(mass, offset)`: the vector force on a unit mass. */
  function AccelerationVector(mass: real, offset: Vector3D, sqrt: real -> real): (r: Option<Vector3D>)
    requires IsSqrt(sqrt)
    ensures Valid(offset) ==> (r.None? <==> offset.length2 == 0.0)
    ensures r.Some? ==> Valid(r.value)
  {
    ForceVector(1.0, mass, offset, sqrt)
  }

  /** The force is symmetric in the two masses and depends only on the size
      of the distance. */
  lemma ForceSymmetric(m1: real, m2: real, d: real)
    ensures Force(m1, m2, d) == Force(m2, m1, d)
    ensures Force(m1, m2, d) == Force(m1, m2, -d)
  {
    assert G * m1 * m2 == G * m2 * m1;
    assert d * d == (-d) * (-d);
  }

  /** Inverse-square law: scaling the distance by k divides the force by k^2. */
  lemma InverseSquare(m1: real, m2: real, d: real, k: real)
    requires d != 0.0 && k != 0.0
    ensures Force(m1, m2, k * d).Finite? && Force(m1, m2, d).Finite?
    ensures Force(m1, m2, k * d).value * (k * k) == Force(m1, m2, d).value
  {
    var f := Force(m1, m2, d).value;
    var g := Force(m1, m2, k * d).value;
    SquareSign(k * d, (k * d) * (k * d));
    SquareSign(d, d * d);
    assert g * (k * d) * (k * d) == f * (d * d);
    assert (g * (k * k)) * (d * d) == f * (d * d);
    CancelFactor(g * (k * k), f, d * d);
  }

  /** Equal products with a non-zero factor have equal cofactors. */
  lemma CancelFactor(a: real, b: real, c: real)
    requires c != 0.0 && a * c == b * c
    ensures a == b
  {
    assert (a - b) * c == 0.0;
  }

  /** Newton's second law: the force on a body of mass m is m times the
      acceleration the other body gives a negligible mass. */
  lemma ForceIsMassTimesAcceleration(m: real, mass: real, d: real)
    requires d != 0.0
    ensures Force(m, mass, d).value == m * Acceleration(mass, d).value
  {
    var f := Force(m, mass, d).value;
    var a := Acceleration(mass, d).value;
    SquareSign(d, d * d);
    assert f * (d * d) == G * m * mass;
    assert a * (d * d) == G * mass;
    assert (m * a) * (d * d) == m * (a * (d * d));
    CancelFactor(f, m * a, d * d);
  }

  /** The vector force has the magnitude of the scalar law, |F| = |G m1 m2| / |offset|^2,
      and points against the offset: F . offset = -G m1 m2 / |offset|, so
      for positive masses the first body is pulled toward the second. */
  lemma ForceVectorLaw(m1: real, m2: real, offset: Vector3D, sqrt: real -> real)
    requires IsSqrt(sqrt) && Valid(offset) && offset.length2 != 0.0
    ensures ForceVector(m1, m2, offset, sqrt).Some?
    ensures var f := ForceVector(m1, m2, offset, sqrt).value;
            f.length2 * (offset.length2 * offset.length2) == (G * m1 * m2) * (G * m1 * m2)
            && Dot(f, offset) * sqrt(offset.length2) == -(G * m1 * m2)
  {
    var k := G * m1 * m2;
    var l := offset.length2;
    var c := InverseMagnitude(offset, sqrt);
    var s := k / l;
    var f := ForceVector(m1, m2, offset, sqrt).value;
    assert f == Scale(Negate(Scale(offset, c)), s);
    NegateKeepsLength(Scale(offset, c));
    assert f.length2 == s * s * 1.0;
    assert s * l == k;
    assert f.length2 * (l * l) == (s * l) * (s * l);
    DotAgainst(offset, c, s);
    assert Dot(f, offset) * sqrt(l) == -(s * (c * sqrt(l))) * l;
  }

  /** Negation keeps an exact cache and the length. */
  lemma NegateKeepsLength(v: Vector3D)
    requires Valid(v)
    ensures Negate(v).length2 == v.length2
  {
    assert (-v.x) * (-v.x) == v.x * v.x;
    assert (-v.y) * (-v.y) == v.y * v.y;
    assert (-v.z) * (-v.z) == v.z * v.z;
  }

  /** The component of -(c v) s along v is -(s c) |v|^2. */
  lemma DotAgainst(v: Vector3D, c: real, s: real)
    requires Valid(v)
    ensures Dot(Scale(Negate(Scale(v, c)), s), v) == -(s * c) * v.length2
  {
    var f := Scale(Negate(Scale(v, c)), s);
    var k := -(s * c);
    var xx, yy, zz := v.x * v.x, v.y * v.y, v.z * v.z;
    assert f.x * v.x == k * xx;
    assert f.y * v.y == k * yy;
    assert f.z * v.z == k * zz;
    assert Dot(f, v) == k * xx + k * yy + k * zz;
    assert k * xx + k * yy + k * zz == k * (xx + yy + zz);
  }

  /** F = m a for vectors: the force on a body of mass m is the acceleration
      vector scaled by m. */
  lemma ForceVectorIsMassTimesAcceleration(m: real, mass: real, offset: Vector3D, sqrt: real -> real)
    requires IsSqrt(sqrt) && Valid(offset) && offset.length2 != 0.0
    ensures ForceVector(m, mass, offset, sqrt).Some? && AccelerationVector(mass, offset, sqrt).Some?
    ensures Equal(ForceVector(m, mass, offset, sqrt).value, Scale(AccelerationVector(mass, offset, sqrt).value, m))
  {
    var n := Negate(Normalized(offset, sqrt));
    var l := offset.length2;
    assert (G * m * mass) / l == ((G * 1.0 * mass) / l) * m;
    assert n.x * ((G * m * mass) / l) == (n.x * ((G * 1.0 * mass) / l)) * m;
    assert n.y * ((G * m * mass) / l) == (n.y * ((G * 1.0 * mass) / l)) * m;
    assert n.z * ((G * m * mass) / l) == (n.z * ((G * 1.0 * mass) / l)) * m;
  }
}
