/**
 The immutable three-dimensional vector of include/Vector3D.hpp.  Besides its
 components a vector carries a cached squared magnitude: the public
 constructor and the in-place operators recompute it, while scaling and
 division update the cached value directly.  `Valid` says the cache is exact,
 and every operation below is shown to keep it so.
 */
module Vector {
  import opened Numeric

  datatype Vector3D = Vector3D(x: real, y: real, z: real, length2: real)

  /** The cache agrees with the components. */
  predicate Valid(v: Vector3D) {
    v.length2 == v.x * v.x + v.y * v.y + v.z * v.z
  }

  /** The public three-argument constructor, which computes the cache. */
  function Make(x: real, y: real, z: real): (v: Vector3D)
    ensures v.x == x && v.y == y && v.z == z
    ensures Valid(v)
    ensures v.length2 >= 0.0
  {
    Vector3D(x, y, z, x * x + y * y + z * z)
  }

  /** The zero vector, as the constructor builds it from (0, 0, 0). */
  const Zero: Vector3D := Vector3D(0.0, 0.0, 0.0, 0.0)

  /** `magnitude2()`: the cached squared length. */
  function Magnitude2(v: Vector3D): (r: real)
    ensures Valid(v) ==> r >= 0.0
    ensures Valid(v) ==> (r == 0.0 <==> v.x == 0.0 && v.y == 0.0 && v.z == 0.0)
  {
    assert Valid(v) ==> v.length2 >= 0.0 && (v.length2 == 0.0 <==> v.x == 0.0 && v.y == 0.0 && v.z == 0.0) by {
      if Valid(v) {
        SquaresVanish(v.x, v.y, v.z, v.length2);
      }
    }
    v.length2
  }

  /** `operator*(Vector3D)`: the dot product.  A vector with an exact cache
      dotted with itself gives its cached squared length. */
  function Dot(v: Vector3D, w: Vector3D): (r: real)
    ensures Valid(v) && v == w ==> r == v.length2
  {
    v.x * w.x + v.y * w.y + v.z * w.z
  }

  /** `cross`. */
  function Cross(v: Vector3D, w: Vector3D): (r: Vector3D)
    ensures Valid(r)
    ensures Dot(r, v) == 0.0 && Dot(r, w) == 0.0
  {
    var c := Make(v.y * w.z - v.z * w.y, -(v.x * w.z - v.z * w.x), v.x * w.y - v.y * w.x);
    TripleVanishes(v.x, v.y, v.z, w.x, w.y, w.z);
    TripleVanishes(w.x, w.y, w.z, v.x, v.y, v.z);
    c
  }

  /** The scalar triple product with a repeated factor vanishes. */
  lemma TripleVanishes(a1: real, a2: real, a3: real, b1: real, b2: real, b3: real)
    ensures (a2 * b3 - a3 * b2) * a1 + -(a1 * b3 - a3 * b1) * a2 + (a1 * b2 - a2 * b1) * a3 == 0.0
    ensures (b2 * a3 - b3 * a2) * a1 + -(b1 * a3 - b3 * a1) * a2 + (b1 * a2 - b2 * a1) * a3 == 0.0
  {
    assert (a2 * b3 - a3 * b2) * a1 == a1 * a2 * b3 - a1 * a3 * b2;
    assert -(a1 * b3 - a3 * b1) * a2 == a2 * a3 * b1 - a1 * a2 * b3;
    assert (a1 * b2 - a2 * b1) * a3 == a1 * a3 * b2 - a2 * a3 * b1;
    assert (b2 * a3 - b3 * a2) * a1 == a1 * a3 * b2 - a1 * a2 * b3;
    assert -(b1 * a3 - b3 * a1) * a2 == a1 * a2 * b3 - a2 * a3 * b1;
    assert (b1 * a2 - b2 * a1) * a3 == a2 * a3 * b1 - a1 * a3 * b2;
  }

  /** `operator*(double)`: scaling, which multiplies the cache by s * s. */
  function Scale(v: Vector3D, s: real): (r: Vector3D)
    ensures r.x == v.x * s && r.y == v.y * s && r.z == v.z * s
    ensures Valid(v) ==> Valid(r) && r.length2 == s * s * v.length2
  {
    var r := Vector3D(v.x * s, v.y * s, v.z * s, v.length2 * s * s);
    assert Valid(v) ==> Valid(r) by {
      assert (v.x * s) * (v.x * s) == v.x * v.x * (s * s);
      assert (v.y * s) * (v.y * s) == v.y * v.y * (s * s);
      assert (v.z * s) * (v.z * s) == v.z * v.z * (s * s);
      assert (v.x * v.x + v.y * v.y + v.z * v.z) * s * s
          == v.x * v.x * (s * s) + v.y * v.y * (s * s) + v.z * v.z * (s * s);
    }
    r
  }

  /** `operator/(double)`: division, which divides the cache by s * s. */
  function Divide(v: Vector3D, s: real): (r: Vector3D)
    requires s != 0.0
    ensures r.x * s == v.x && r.y * s == v.y && r.z * s == v.z
    ensures Valid(v) ==> Valid(r) && r.length2 * (s * s) == v.length2
  {
    var r := Vector3D(v.x / s, v.y / s, v.z / s, v.length2 / (s * s));
    assert Valid(v) ==> Valid(r) by {
      var k := 1.0 / (s * s);
      assert (v.x / s) * (v.x / s) == v.x * v.x * k;
      assert (v.y / s) * (v.y / s) == v.y * v.y * k;
      assert (v.z / s) * (v.z / s) == v.z * v.z * k;
      assert v.length2 / (s * s) == v.length2 * k;
      assert (v.x * v.x + v.y * v.y + v.z * v.z) * k
          == v.x * v.x * k + v.y * v.y * k + v.z * v.z * k;
    }
    r
  }

  /** `operator+`. */
  function Plus(v: Vector3D, w: Vector3D): (r: Vector3D)
    ensures Valid(r)
    ensures r.x == v.x + w.x && r.y == v.y + w.y && r.z == v.z + w.z
  {
    Make(v.x + w.x, v.y + w.y, v.z + w.z)
  }

  /** `operator-` (binary). */
  function Minus(v: Vector3D, w: Vector3D): (r: Vector3D)
    ensures Valid(r)
    ensures r.x == v.x - w.x && r.y == v.y - w.y && r.z == v.z - w.z
  {
    Make(v.x - w.x, v.y - w.y, v.z - w.z)
  }

  /** `operator-` (unary). */
  function Negate(v: Vector3D): (r: Vector3D)
    ensures Valid(r)
    ensures r.x == -v.x && r.y == -v.y && r.z == -v.z
  {
    Make(-v.x, -v.y, -v.z)
  }

  /** `operator*=(Vector3D)`: despite its doc-comment this is the componentwise
      (Hadamard) product, not the dot product; the cache is recomputed. */
  function TimesAssign(v: Vector3D, w: Vector3D): (r: Vector3D)
    ensures Valid(r)
    ensures r.x == v.x * w.x && r.y == v.y * w.y && r.z == v.z * w.z
    ensures r.x + r.y + r.z == Dot(v, w)
  {
    Make(v.x * w.x, v.y * w.y, v.z * w.z)
  }

  /** `operator*=(double)`: in-place scaling, which also updates the cache by s * s. */
  function ScaleAssign(v: Vector3D, s: real): (r: Vector3D)
    ensures Valid(v) ==> Valid(r) && r.length2 == s * s * v.length2
    ensures r == Scale(v, s)
  {
    var r := Vector3D(v.x * s, v.y * s, v.z * s, v.length2 * (s * s));
    assert v.length2 * (s * s) == v.length2 * s * s;
    r
  }

  /** `operator+=`: the cache is recomputed, so the result agrees with `+`. */
  function PlusAssign(v: Vector3D, w: Vector3D): (r: Vector3D)
    ensures Valid(r)
    ensures r == Plus(v, w)
  {
    var r := Vector3D(v.x + w.x, v.y + w.y, v.z + w.z, 0.0);
    r.(length2 := r.x * r.x + r.y * r.y + r.z * r.z)
  }

  /** `operator-=`: the cache is recomputed, so the result agrees with binary `-`. */
  function MinusAssign(v: Vector3D, w: Vector3D): (r: Vector3D)
    ensures Valid(r)
    ensures r == Minus(v, w)
  {
    var r := Vector3D(v.x - w.x, v.y - w.y, v.z - w.z, 0.0);
    r.(length2 := r.x * r.x + r.y * r.y + r.z * r.z)
  }

  /** `distance2`: the squared length of the difference. */
  function Distance2(v: Vector3D, w: Vector3D): (r: real)
    ensures r == (v.x - w.x) * (v.x - w.x) + (v.y - w.y) * (v.y - w.y) + (v.z - w.z) * (v.z - w.z)
    ensures r >= 0.0
    ensures r == 0.0 <==> v.x == w.x && v.y == w.y && v.z == w.z
  {
    var d := Minus(v, w);
    assert d.x == v.x - w.x && d.y == v.y - w.y && d.z == v.z - w.z;
    Magnitude2(d)
  }

  /** `operator==`: componentwise; the cache is not compared, so for vectors
      with exact caches it is identity. */
  function Equal(v: Vector3D, w: Vector3D): (b: bool)
    ensures Valid(v) && Valid(w) ==> (b <==> v == w)
  {
    v.x == w.x && v.y == w.y && v.z == w.z
  }

  /** `operator!=`. */
  predicate NotEqual(v: Vector3D, w: Vector3D) {
    !Equal(v, w)
  }

  /** `operator<`: lexicographic on (z, y, x), so z decides first and no
      vector is below itself. */
  function Less(v: Vector3D, w: Vector3D): (b: bool)
    ensures v.z < w.z ==> b
    ensures b ==> v.z <= w.z
    ensures b ==> !Equal(v, w)
  {
    v.z < w.z || (v.z == w.z && (v.y < w.y || (v.y == w.y && v.x < w.x)))
  }

  /** `operator>`: lexicographic on (z, y, x). */
  predicate Greater(v: Vector3D, w: Vector3D) {
    v.z > w.z || (v.z == w.z && (v.y > w.y || (v.y == w.y && v.x > w.x)))
  }

  /** `operator<=`, written in the source as the negation of `>`. */
  function LessEq(v: Vector3D, w: Vector3D): (b: bool)
    ensures b <==> Less(v, w) || Equal(v, w)
  {
    !Greater(v, w)
  }

  /** `operator>=`, written in the source as the negation of `<`. */
  predicate GreaterEq(v: Vector3D, w: Vector3D) {
    !Less(v, w)
  }

  /** `normalized()`, with the library square root passed in.  A vector whose
      magnitude is zero is scaled by zero. */
  function Normalized(v: Vector3D, sqrt: real -> real): (r: Vector3D)
    requires IsSqrt(sqrt)
    ensures Valid(v) && v.length2 == 0.0 ==> r == Zero
    ensures Valid(v) && v.length2 != 0.0 ==> Valid(r) && r.length2 == 1.0
    ensures Valid(v) ==> exists k: real {:trigger Scale(v, k)} :: k >= 0.0 && r == Scale(v, k)
  {
    var k := InverseMagnitude(v, sqrt);
    if Valid(v) && v.length2 == 0.0 then
      ScaleZero(v, k);
      Scale(v, k)
    else if Valid(v) then
      ScaleToUnit(v, k);
      Scale(v, k)
    else
      Scale(v, k)
  }

  /** Scaling a zero vector by zero gives the canonical zero. */
  lemma ScaleZero(v: Vector3D, k: real)
    requires Valid(v) && v.length2 == 0.0 && k == 0.0
    ensures Scale(v, k) == Zero
  {
    SquaresVanish(v.x, v.y, v.z, v.length2);
  }

  /** Scaling by k with k * k * length2 == 1 gives a unit vector. */
  lemma ScaleToUnit(v: Vector3D, k: real)
    requires Valid(v) && k * k * v.length2 == 1.0
    ensures Valid(Scale(v, k)) && Scale(v, k).length2 == 1.0
  {
  }

  /** The factor `normalized()` scales by: 1 / sqrt(length2), or 0 for a zero vector. */
  function InverseMagnitude(v: Vector3D, sqrt: real -> real): (k: real)
    requires IsSqrt(sqrt)
    ensures Valid(v) ==> k >= 0.0
    ensures Valid(v) && v.length2 == 0.0 ==> k == 0.0
    ensures Valid(v) && v.length2 != 0.0 ==> k * k * v.length2 == 1.0 && k * sqrt(v.length2) == 1.0
  {
    var mag := sqrt(v.length2);
    if mag != 0.0 then
      assert Valid(v) ==> 1.0 / mag > 0.0 && (1.0 / mag) * (1.0 / mag) * v.length2 == 1.0 by {
        if Valid(v) {
          assert Magnitude2(v) >= 0.0;
          UnitInverse(v.length2, mag);
        }
      }
      1.0 / mag
    else
      assert Valid(v) ==> v.length2 == 0.0 by {
        if Valid(v) {
          assert Magnitude2(v) >= 0.0;
        }
      }
      0.0
  }

  /** If m is the positive root of l, then (1/m)^2 * l is one. */
  lemma UnitInverse(l: real, m: real)
    requires m * m == l && m != 0.0 && m >= 0.0
    ensures 1.0 / m > 0.0
    ensures (1.0 / m) * (1.0 / m) * l == 1.0
  {
    var k := 1.0 / m;
    assert k * m == 1.0;
    assert k * k * (m * m) == (k * m) * (k * m);
  }

  /** The cache stays exact through construction and every vector-valued operator. */
  lemma CacheExact(v: Vector3D, w: Vector3D, s: real)
    requires Valid(v)
    ensures Valid(Plus(v, w)) && Valid(Minus(v, w)) && Valid(Negate(v))
    ensures Valid(PlusAssign(v, w)) && Valid(MinusAssign(v, w)) && Valid(TimesAssign(v, w))
    ensures Valid(Scale(v, s)) && Valid(ScaleAssign(v, s)) && Valid(Cross(v, w))
    ensures s != 0.0 ==> Valid(Divide(v, s))
  {
  }

  /** Adding then subtracting the same vector gives back a vector with an exact cache. */
  lemma PlusMinusInverse(v: Vector3D, w: Vector3D)
    requires Valid(v)
    ensures Minus(Plus(v, w), w) == v
    ensures Plus(Minus(v, w), w) == v
    ensures Negate(Negate(v)) == v
  {
    var a := Minus(Plus(v, w), w);
    assert a.x == v.x && a.y == v.y && a.z == v.z;
    var b := Plus(Minus(v, w), w);
    assert b.x == v.x && b.y == v.y && b.z == v.z;
    var c := Negate(Negate(v));
    assert c.x == v.x && c.y == v.y && c.z == v.z;
  }

  /** Sums regroup: adding w to v and then to u is adding v + w to u. */
  lemma PlusAssociative(u: Vector3D, v: Vector3D, w: Vector3D)
    ensures Plus(u, Plus(v, w)) == Plus(Plus(u, v), w)
  {
    assert u.x + (v.x + w.x) == (u.x + v.x) + w.x;
    assert u.y + (v.y + w.y) == (u.y + v.y) + w.y;
    assert u.z + (v.z + w.z) == (u.z + v.z) + w.z;
  }

  /** A vector minus itself is zero. */
  lemma MinusSelf(u: Vector3D)
    ensures Minus(u, u) == Zero
  {
    var d := Minus(u, u);
    assert d.x == 0.0 && d.y == 0.0 && d.z == 0.0;
    assert d.length2 == 0.0 * 0.0 + 0.0 * 0.0 + 0.0 * 0.0;
  }

  /** Adding w and then subtracting u leaves w, component by component. */
  lemma MinusUndoesPlus(u: Vector3D, w: Vector3D)
    ensures Equal(Minus(Plus(u, w), u), w)
  {
  }

  /** Swapping the operands of a difference negates it. */
  lemma MinusSwaps(u: Vector3D, v: Vector3D)
    ensures Minus(v, u) == Negate(Minus(u, v))
  {
    assert -(u.x - v.x) == v.x - u.x && -(u.y - v.y) == v.y - u.y && -(u.z - v.z) == v.z - u.z;
  }

  /** The dot product and `distance2` are symmetric. */
  lemma Symmetric(v: Vector3D, w: Vector3D)
    ensures Dot(v, w) == Dot(w, v)
    ensures Distance2(v, w) == Distance2(w, v)
  {
    assert (v.x - w.x) * (v.x - w.x) == (w.x - v.x) * (w.x - v.x);
    assert (v.y - w.y) * (v.y - w.y) == (w.y - v.y) * (w.y - v.y);
    assert (v.z - w.z) * (v.z - w.z) == (w.z - v.z) * (w.z - v.z);
  }

  /** The cross product is orthogonal to both operands, and v x v is the zero vector. */
  lemma CrossOrthogonal(v: Vector3D, w: Vector3D)
    ensures Dot(Cross(v, w), v) == 0.0
    ensures Dot(Cross(v, w), w) == 0.0
    ensures Cross(v, v) == Zero
  {
    var c := Cross(v, v);
    assert c.x == 0.0 && c.y == 0.0 && c.z == 0.0;
  }

  /** For vectors with exact caches, `==` coincides with equality of values. */
  lemma EqualIsIdentity(v: Vector3D, w: Vector3D)
    requires Valid(v) && Valid(w)
    ensures Equal(v, w) <==> v == w
    ensures NotEqual(v, w) <==> v != w
  {
  }

  /** `<` is a strict total order: exactly one of `<`, `==`, `>` holds, `>` is the
      converse of `<`, and `<` is irreflexive and transitive. */
  lemma LessIsStrictTotalOrder(u: Vector3D, v: Vector3D, w: Vector3D)
    ensures Less(v, w) || Equal(v, w) || Greater(v, w)
    ensures !(Less(v, w) && Equal(v, w))
    ensures !(Less(v, w) && Greater(v, w))
    ensures !(Equal(v, w) && Greater(v, w))
    ensures Greater(v, w) <==> Less(w, v)
    ensures !Less(v, v)
    ensures Less(u, v) && Less(v, w) ==> Less(u, w)
  {
  }

  /** `<=` and `>=`, defined by negation, are "less or equal" and "greater or equal". */
  lemma NonStrictOrders(v: Vector3D, w: Vector3D)
    ensures LessEq(v, w) <==> Less(v, w) || Equal(v, w)
    ensures GreaterEq(v, w) <==> Greater(v, w) || Equal(v, w)
  {
  }
}
