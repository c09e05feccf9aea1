/**
 The Keplerian orbit of src/KeplerOrbit.cpp: six classical elements (with
 the parent mass) fixed at construction, the period and gravitational
 parameter derived from them, and the apsides and angular momentum computed
 on demand.  Square roots come from a `sqrt` parameter; results that can
 leave the reals (a period around a massless parent, the apoapsis of an open
 orbit) are IEEE values.
 */
module Kepler {
  import opened Numeric
  import Gravity

  datatype KeplerOrbit = KeplerOrbit(
    semimajorAxis: real,
    eccentricity: real,
    inclination: real,
    longitudeOfAscendingNode: real,
    argumentOfPeriapsis: real,
    parentMass: real,
    period: Extended,
    mu: real)

  /** `calcPeriod`: 2 pi sqrt(a^3 / (G M)).  Kepler's third law holds for the
      result whenever it is finite, and it is finite exactly when G M is
      non-zero and a^3 / (G M) is non-negative. */
  function CalcPeriod(a: real, parentMass: real, sqrt: real -> real): (r: Extended)
    requires IsSqrt(sqrt)
    ensures r.Finite? <==> Gravity.G * parentMass != 0.0 && a * a * a / (Gravity.G * parentMass) >= 0.0
    ensures r.Finite? ==> r.value >= 0.0
    ensures r.Finite? ==> r.value * r.value * (Gravity.G * parentMass) == 4.0 * PI * PI * (a * a * a)
    ensures Gravity.G * parentMass == 0.0 ==> (r.PosInfinity? <==> a > 0.0) && (r.NaN? <==> a <= 0.0)
  {
    var mu := Gravity.G * parentMass;
    var q := Divide(a * a * a, mu);
    var root := SqrtExtended(q, sqrt);
    var r := TimesPositive(2.0 * PI, root);
    assert r.Finite? ==> r.value * r.value * mu == 4.0 * PI * PI * (a * a * a) by {
      if r.Finite? {
        PeriodSquared(a * a * a, mu, q.value, root.value);
      }
    }
    assert mu == 0.0 ==> (a > 0.0 <==> a * a * a > 0.0) && (a < 0.0 <==> a * a * a < 0.0) by {
      CubeSign(a);
    }
    r
  }

  /** If q mu == n and s^2 == q with mu non-zero, then (2 pi s)^2 mu == 4 pi^2 n. */
  lemma PeriodSquared(n: real, mu: real, q: real, s: real)
    requires q * mu == n && s * s == q
    ensures (2.0 * PI * s) * (2.0 * PI * s) * mu == 4.0 * PI * PI * n
  {
    assert (2.0 * PI * s) * (2.0 * PI * s) == 4.0 * PI * PI * (s * s);
  }

  /** A cube has the sign of its root. */
  lemma CubeSign(a: real)
    ensures a > 0.0 <==> a * a * a > 0.0
    ensures a < 0.0 <==> a * a * a < 0.0
  {
    SquareSign(a, a * a);
    if a > 0.0 {
      MulPositive(a * a, a, a * a * a);
    } else if a < 0.0 {
      MulPositive(a * a, -a, -(a * a * a));
    }
  }

  /** The constructor: stores the elements and derives the period and mu = M G. */
  function New(a: real, e: real, i: real, node: real, periapsisArgument: real, parentMass: real,
               sqrt: real -> real): (o: KeplerOrbit)
    requires IsSqrt(sqrt)
    ensures o.semimajorAxis == a && o.eccentricity == e && o.inclination == i
    ensures o.longitudeOfAscendingNode == node && o.argumentOfPeriapsis == periapsisArgument
    ensures o.parentMass == parentMass
    ensures o.mu == Gravity.G * parentMass
    ensures o.period.Finite? ==> o.period.value * o.period.value * o.mu == 4.0 * PI * PI * (a * a * a)
  {
    KeplerOrbit(a, e, i, node, periapsisArgument, parentMass, CalcPeriod(a, parentMass, sqrt),
                parentMass * Gravity.G)
  }

  /** `angularMomentum()`: sqrt(mu a (1 - e^2)), NaN when the radicand is negative. */
  function AngularMomentum(o: KeplerOrbit, sqrt: real -> real): (h: Extended)
    requires IsSqrt(sqrt)
    ensures h.Finite? <==> o.mu * o.semimajorAxis * (1.0 - o.eccentricity * o.eccentricity) >= 0.0
    ensures h.Finite? ==> h.value >= 0.0
    ensures h.Finite? ==> h.value * h.value == o.mu * o.semimajorAxis * (1.0 - o.eccentricity * o.eccentricity)
    ensures !h.Finite? ==> h.NaN?
  {
    var e2 := o.eccentricity * o.eccentricity;
    SqrtExtended(Finite(o.mu * o.semimajorAxis * (1.0 - e2)), sqrt)
  }

  /** `apoapsis()`: infinite for an open orbit (e >= 1), otherwise a (1 - e^2) / (1 - e),
      which is a (1 + e). */
  function Apoapsis(o: KeplerOrbit): (r: Extended)
    ensures r.PosInfinity? <==> o.eccentricity >= 1.0
    ensures o.eccentricity < 1.0 ==> r == Finite(o.semimajorAxis * (1.0 + o.eccentricity))
  {
    var a := o.semimajorAxis;
    var e := o.eccentricity;
    if e >= 1.0 then PosInfinity
    else
      var r := Divide(a * (1.0 - e * e), 1.0 - e);
      assert r.value == a * (1.0 + e) by {
        assert a * (1.0 - e * e) == a * (1.0 + e) * (1.0 - e);
        CancelNonZero(r.value, a * (1.0 + e), 1.0 - e);
      }
      r
  }

  /** `periapsis()`: a (1 - e^2) / (1 + e), which is a (1 - e); for e == -1 both
      numerator and denominator vanish and the result is NaN. */
  function Periapsis(o: KeplerOrbit): (r: Extended)
    ensures o.eccentricity != -1.0 ==> r == Finite(o.semimajorAxis * (1.0 - o.eccentricity))
    ensures o.eccentricity == -1.0 ==> r.NaN?
  {
    var a := o.semimajorAxis;
    var e := o.eccentricity;
    var r := Divide(a * (1.0 - e * e), 1.0 + e);
    assert e != -1.0 ==> r.value == a * (1.0 - e) by {
      if e != -1.0 {
        assert a * (1.0 - e * e) == a * (1.0 - e) * (1.0 + e);
        CancelNonZero(r.value, a * (1.0 - e), 1.0 + e);
      }
    }
    r
  }

  /** Equal products with a non-zero factor have equal cofactors. */
  lemma CancelNonZero(x: real, y: real, c: real)
    requires c != 0.0 && x * c == y * c
    ensures x == y
  {
    assert (x - y) * c == 0.0;
  }

  /** On a closed orbit the periapsis never exceeds the apoapsis; for a
      positive semi-major axis they coincide exactly on a circle (e == 0).
      The two apsides average to the semi-major axis. */
  lemma ApsidesOrdered(o: KeplerOrbit)
    requires o.semimajorAxis >= 0.0 && 0.0 <= o.eccentricity < 1.0
    ensures Periapsis(o).Finite? && Apoapsis(o).Finite?
    ensures Periapsis(o).value <= Apoapsis(o).value
    ensures o.semimajorAxis > 0.0 ==> (Periapsis(o).value == Apoapsis(o).value <==> o.eccentricity == 0.0)
    ensures Periapsis(o).value + Apoapsis(o).value == 2.0 * o.semimajorAxis
  {
    var a := o.semimajorAxis;
    var e := o.eccentricity;
    assert Apoapsis(o).value - Periapsis(o).value == 2.0 * (a * e);
    assert a * e >= 0.0;
    if a > 0.0 && e != 0.0 {
      MulPositive(a, e, a * e);
    }
  }

  /** The gravitational parameter is the strength of the parent's pull: the
      acceleration it gives a negligible mass at distance d is mu / d^2. */
  lemma MuIsParentPull(o: KeplerOrbit, d: real, sqrt: real -> real)
    requires IsSqrt(sqrt) && d != 0.0
    ensures var k := New(o.semimajorAxis, o.eccentricity, o.inclination, o.longitudeOfAscendingNode,
                         o.argumentOfPeriapsis, o.parentMass, sqrt);
            Gravity.Acceleration(o.parentMass, d).value * (d * d) == k.mu
  {
  }
}
