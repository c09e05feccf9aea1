/**
 The two-level position of src/Position.hpp.  Each axis is stored as a count
 of 100 km cells (an integer) plus an offset in metres inside the cell, so
 that large coordinates keep metre precision.  `Normal` is the representation
 invariant the constructor establishes: every fine offset lies in [0, C).

 The in-place `+=` of the source has two defects, both recorded as findings:
 the y and z axes take their remainder from the x component of the vector,
 and the remainder comes from `std::fmod`, which truncates toward zero and so
 disagrees with the floored cell count for negative components.  Both the
 code as written and the evidently intended operator are modelled below; the
 rest of the model uses the intended one.
 */
module Positions {
  import opened Numeric
  import opened Vector

  /** Position::COARSE_METERS, the width of one cell. */
  const C: real := 100000.0

  /** The source keeps the three offsets in a Vector3D whose cached length it
      never reads, so they are kept here as three reals. */
  datatype Position = Position(xCoarse: int, yCoarse: int, zCoarse: int, xFine: real, yFine: real, zFine: real)

  /** The representation invariant: every fine offset lies in [0, C). */
  predicate Normal(p: Position) {
    0.0 <= p.xFine < C && 0.0 <= p.yFine < C && 0.0 <= p.zFine < C
  }

  /** One axis of the constructor: the enclosing cell and the offset within it. */
  function Split(x: real): (r: (int, real))
    ensures 0.0 <= r.1 < C
    ensures r.0 as real * C + r.1 == x
  {
    var n := Floor(x / C);
    QuotientBounds(x, C, n);
    (n, x - n as real * C)
  }

  /** The three-argument constructor. */
  function FromComponents(x: real, y: real, z: real): (p: Position)
    ensures Normal(p)
    ensures X(p) == x && Y(p) == y && Z(p) == z
  {
    var (xc, xf) := Split(x);
    var (yc, yf) := Split(y);
    var (zc, zf) := Split(z);
    Position(xc, yc, zc, xf, yf, zf)
  }

  /** The default constructor: cell 0 and a zero offset on every axis (see `OriginIsDefault`). */
  const Origin: Position := Position(0, 0, 0, 0.0, 0.0, 0.0)

  /** The constructor from a vector. */
  function FromVector(v: Vector3D): (p: Position)
    ensures Normal(p)
    ensures X(p) == v.x && Y(p) == v.y && Z(p) == v.z
  {
    FromComponents(v.x, v.y, v.z)
  }

  /** `x()`: the coordinate in metres; for a normal position the
      constructor splits it back into the same cell and offset. */
  function X(p: Position): (r: real)
    ensures Normal(p) ==> Split(r) == (p.xCoarse, p.xFine)
  {
    var r := p.xCoarse as real * C + p.xFine;
    assert Normal(p) ==> Split(r) == (p.xCoarse, p.xFine) by {
      if Normal(p) {
        CellOf(p.xCoarse, p.xFine);
      }
    }
    r
  }

  /** `y()`: the coordinate in metres; for a normal position the
      constructor splits it back into the same cell and offset. */
  function Y(p: Position): (r: real)
    ensures Normal(p) ==> Split(r) == (p.yCoarse, p.yFine)
  {
    var r := p.yCoarse as real * C + p.yFine;
    assert Normal(p) ==> Split(r) == (p.yCoarse, p.yFine) by {
      if Normal(p) {
        CellOf(p.yCoarse, p.yFine);
      }
    }
    r
  }

  /** `z()`: the coordinate in metres; for a normal position the
      constructor splits it back into the same cell and offset. */
  function Z(p: Position): (r: real)
    ensures Normal(p) ==> Split(r) == (p.zCoarse, p.zFine)
  {
    var r := p.zCoarse as real * C + p.zFine;
    assert Normal(p) ==> Split(r) == (p.zCoarse, p.zFine) by {
      if Normal(p) {
        CellOf(p.zCoarse, p.zFine);
      }
    }
    r
  }

  /** `toVector()`. */
  function ToVector(p: Position): (v: Vector3D)
    ensures Valid(v)
    ensures v.x == X(p) && v.y == Y(p) && v.z == Z(p)
  {
    Make(X(p), Y(p), Z(p))
  }

  /** `distance2`: the squared distance between the two points. */
  function Distance2(p: Position, q: Position): (r: real)
    ensures r == (X(p) - X(q)) * (X(p) - X(q)) + (Y(p) - Y(q)) * (Y(p) - Y(q)) + (Z(p) - Z(q)) * (Z(p) - Z(q))
    ensures r >= 0.0
    ensures r == 0.0 <==> X(p) == X(q) && Y(p) == Y(q) && Z(p) == Z(q)
  {
    Vector.Distance2(ToVector(p), ToVector(q))
  }

  /** `operator-`: the vector from q to p, computed cell-wise and offset-wise. */
  function Difference(p: Position, q: Position): (v: Vector3D)
    ensures v == Minus(ToVector(p), ToVector(q))
  {
    var fine := Minus(Make(p.xFine, p.yFine, p.zFine), Make(q.xFine, q.yFine, q.zFine));
    var coarse := Scale(Make((p.xCoarse - q.xCoarse) as real,
                             (p.yCoarse - q.yCoarse) as real,
                             (p.zCoarse - q.zCoarse) as real), C);
    Plus(fine, coarse)
  }

  /** One axis of the intended `+=`: move by d, carrying whole cells into the
      cell count and keeping the offset in [0, C). */
  function AddAxis(coarse: int, fine: real, d: real): (r: (int, real))
    ensures 0.0 <= r.1 < C
    ensures r.0 as real * C + r.1 == coarse as real * C + fine + d
    ensures 0.0 <= fine < C ==> coarse + Floor(d / C) <= r.0 <= coarse + Floor(d / C) + 1
  {
    var sum := fine + FloorMod(d, C);
    var carry := Floor(sum / C);
    assert 0.0 <= fine < C ==> 0 <= carry <= 1 by {
      if 0.0 <= fine < C {
        QuotientBounds(sum, C, carry);
      }
    }
    (coarse + Floor(d / C) + carry, FloorMod(sum, C))
  }

  /** `operator+=(Vector3D)` as evidently intended: each axis moves by its own
      component, with the floored remainder. */
  function PlusAssign(p: Position, v: Vector3D): (r: Position)
    ensures Normal(r)
    ensures X(r) == X(p) + v.x && Y(r) == Y(p) + v.y && Z(r) == Z(p) + v.z
  {
    var (xc, xf) := AddAxis(p.xCoarse, p.xFine, v.x);
    var (yc, yf) := AddAxis(p.yCoarse, p.yFine, v.y);
    var (zc, zf) := AddAxis(p.zCoarse, p.zFine, v.z);
    Position(xc, yc, zc, xf, yf, zf)
  }

  /** `operator-=(Vector3D)`: adds the negated vector. */
  function MinusAssign(p: Position, v: Vector3D): (r: Position)
    ensures Normal(r)
    ensures X(r) == X(p) - v.x && Y(r) == Y(p) - v.y && Z(r) == Z(p) - v.z
  {
    PlusAssign(p, Negate(v))
  }

  /** One axis of `+=` as written: the cell count moves by floor(d / C), but
      the offset moves by fmod(m, C), where m is the component the code
      actually reads. */
  function AddAxisAsWritten(coarse: int, fine: real, d: real, m: real): (r: (int, real))
    ensures 0.0 <= fine < C && 0.0 <= m ==> 0.0 <= r.1 < C
    ensures 0.0 <= fine + FMod(m, C) ==>
              r.0 as real * C + r.1 == coarse as real * C + Floor(d / C) as real * C + fine + FMod(m, C)
  {
    var sum := fine + FMod(m, C);
    (coarse + Floor(d / C) + Floor(sum / C), FMod(sum, C))
  }

  /** `operator+=(Vector3D)` as written: all three offsets take their remainder
      from the x component. */
  function PlusAssignAsWritten(p: Position, v: Vector3D): (r: Position)
    ensures Normal(p) && v.x >= 0.0 ==> Normal(r)
  {
    var (xc, xf) := AddAxisAsWritten(p.xCoarse, p.xFine, v.x, v.x);
    var (yc, yf) := AddAxisAsWritten(p.yCoarse, p.yFine, v.y, v.x);
    var (zc, zf) := AddAxisAsWritten(p.zCoarse, p.zFine, v.z, v.x);
    Position(xc, yc, zc, xf, yf, zf)
  }

  /** `operator-=(Vector3D)` as written: adds the negation with the `+=` above. */
  function MinusAssignAsWritten(p: Position, v: Vector3D): (r: Position)
    ensures Normal(p) && v.x <= 0.0 ==> Normal(r)
  {
    PlusAssignAsWritten(p, Negate(v))
  }

  /** Positions are a faithful encoding of vectors: building from a vector and
      reading back gives the vector, and a normal position is the unique
      encoding of its coordinates. */
  lemma VectorRoundTrip(v: Vector3D, p: Position)
    requires Valid(v) && Normal(p)
    ensures ToVector(FromVector(v)) == v
    ensures FromVector(ToVector(p)) == p
  {
    CellOf(p.xCoarse, p.xFine);
    CellOf(p.yCoarse, p.yFine);
    CellOf(p.zCoarse, p.zFine);
  }

  /** The cell of c * C + f, for an offset f in [0, C), is c. */
  lemma CellOf(c: int, f: real)
    requires 0.0 <= f < C
    ensures Split(c as real * C + f) == (c, f)
  {
    var x := c as real * C + f;
    assert c as real <= x / C < c as real + 1.0;
  }

  /** `+=` followed by `-=` of the same vector returns to the same position,
      and `q += (p - q)` lands exactly on p. */
  lemma PlusMinusInverse(p: Position, q: Position, v: Vector3D)
    requires Normal(p) && Normal(q)
    ensures MinusAssign(PlusAssign(p, v), v) == p
    ensures PlusAssign(q, Difference(p, q)) == p
  {
    var r := MinusAssign(PlusAssign(p, v), v);
    SameCoordinates(r, p);
    SameCoordinates(PlusAssign(q, Difference(p, q)), p);
  }

  /** Two normal positions with the same coordinates are equal. */
  lemma SameCoordinates(p: Position, q: Position)
    requires Normal(p) && Normal(q)
    requires X(p) == X(q) && Y(p) == Y(q) && Z(p) == Z(q)
    ensures p == q
  {
    VectorRoundTrip(ToVector(q), p);
    VectorRoundTrip(ToVector(q), q);
  }

  /** Where the code as written is exact: for a non-negative vector whose y and
      z components leave the same remainder modulo C as its x component, `+=`
      as written agrees with the intended operator. */
  lemma AsWrittenAgrees(p: Position, v: Vector3D)
    requires Normal(p)
    requires v.x >= 0.0 && v.y >= 0.0 && v.z >= 0.0
    requires FloorMod(v.y, C) == FloorMod(v.x, C) && FloorMod(v.z, C) == FloorMod(v.x, C)
    ensures PlusAssignAsWritten(p, v) == PlusAssign(p, v)
  {
    AxisAgrees(p.xCoarse, p.xFine, v.x, v.x);
    AxisAgrees(p.yCoarse, p.yFine, v.y, v.x);
    AxisAgrees(p.zCoarse, p.zFine, v.z, v.x);
  }

  /** Where the code as written is exact on one axis: the x axis reads its own
      component, so moving by a non-negative x component moves x by exactly
      that much and leaves the offset in [0, C). */
  lemma AsWrittenExactOnX(p: Position, v: Vector3D)
    requires Normal(p) && v.x >= 0.0
    ensures X(PlusAssignAsWritten(p, v)) == X(p) + v.x
    ensures 0.0 <= PlusAssignAsWritten(p, v).xFine < C
  {
    AxisAgrees(p.xCoarse, p.xFine, v.x, v.x);
  }

  /** One axis of `+=` as written agrees with the intended one when the
      remainder it reads is that of the component it moves by, and both are
      non-negative. */
  lemma AxisAgrees(coarse: int, fine: real, d: real, m: real)
    requires 0.0 <= fine < C && 0.0 <= d && 0.0 <= m
    requires FloorMod(d, C) == FloorMod(m, C)
    ensures AddAxisAsWritten(coarse, fine, d, m) == AddAxis(coarse, fine, d)
  {
  }

  /** The default constructor, which builds from (0, 0, 0), gives `Origin`. */
  lemma OriginIsDefault()
    ensures FromComponents(0.0, 0.0, 0.0) == Origin
  {
    assert Split(0.0) == (0, 0.0) by {
      assert Floor(0.0 / C) == 0;
    }
  }

  /** Counterexample for the axis mix-up: moving the origin 50 km along x
      also moves it 50 km along y and z, where the intended operator leaves
      y and z at zero. */
  lemma AsWrittenMovesOtherAxes()
    ensures Y(PlusAssignAsWritten(Origin, Make(50000.0, 0.0, 0.0))) == 50000.0
    ensures Z(PlusAssignAsWritten(Origin, Make(50000.0, 0.0, 0.0))) == 50000.0
    ensures Y(PlusAssign(Origin, Make(50000.0, 0.0, 0.0))) == 0.0
    ensures Z(PlusAssign(Origin, Make(50000.0, 0.0, 0.0))) == 0.0
  {
    var r := PlusAssignAsWritten(Origin, Make(50000.0, 0.0, 0.0));
    AsWrittenMovesOtherAxesCells();
    InCell(r, 0, 50000.0, 0, 50000.0, 0, 50000.0);
    InCell(Origin, 0, 0.0, 0, 0.0, 0, 0.0);
  }

  /** The cells and offsets behind `AsWrittenMovesOtherAxes`. */
  lemma AsWrittenMovesOtherAxesCells()
    ensures var r := PlusAssignAsWritten(Origin, Make(50000.0, 0.0, 0.0));
            r.xCoarse == 0 && r.xFine == 50000.0
            && r.yCoarse == 0 && r.yFine == 50000.0 && r.zCoarse == 0 && r.zFine == 50000.0
  {
    AxisStepsPositive();
  }

  /** The single-axis steps behind `AsWrittenMovesOtherAxes`: an axis that
      moves by 0 but reads a 50 km component still moves 50 km. */
  lemma AxisStepsPositive()
    ensures AddAxisAsWritten(0, 0.0, 50000.0, 50000.0) == (0, 50000.0)
    ensures AddAxisAsWritten(0, 0.0, 0.0, 50000.0) == (0, 50000.0)
  {
    assert Floor(50000.0 / C) == 0;
    assert FMod(50000.0, C) == 50000.0;
    assert Floor(0.0 / C) == 0;
  }

  /** Counterexample for the truncating remainder: moving the origin one metre
      in the negative x direction lands 200001 m away instead of 1 m. */
  lemma AsWrittenOvershootsNegative()
    ensures X(PlusAssignAsWritten(Origin, Make(-1.0, 0.0, 0.0))) == -200001.0
    ensures X(PlusAssign(Origin, Make(-1.0, 0.0, 0.0))) == -1.0
  {
    var r := PlusAssignAsWritten(Origin, Make(-1.0, 0.0, 0.0));
    AsWrittenOvershootsNegativeCells();
    InCell(r, -2, -1.0, -1, -1.0, -1, -1.0);
    InCell(Origin, 0, 0.0, 0, 0.0, 0, 0.0);
  }

  /** The cells and offsets behind `AsWrittenOvershootsNegative`. */
  lemma AsWrittenOvershootsNegativeCells()
    ensures var r := PlusAssignAsWritten(Origin, Make(-1.0, 0.0, 0.0));
            r.xCoarse == -2 && r.xFine == -1.0
            && r.yCoarse == -1 && r.yFine == -1.0 && r.zCoarse == -1 && r.zFine == -1.0
  {
    AxisStepsNegative();
  }

  /** The single-axis steps behind `AsWrittenOvershootsNegative`: floor(-1 / C)
      is -1 but fmod(-1, C) is -1 rather than C - 1. */
  lemma AxisStepsNegative()
    ensures AddAxisAsWritten(0, 0.0, -1.0, -1.0) == (-2, -1.0)
    ensures AddAxisAsWritten(0, 0.0, 0.0, -1.0) == (-1, -1.0)
  {
    assert Floor(0.0 / C) == 0;
    assert Floor(-1.0 / C) == -1;
    assert FloorMod(1.0, C) == 1.0 by {
      assert Floor(1.0 / C) == 0;
    }
    assert FMod(-1.0, C) == -1.0;
  }

  /** Where `-=` as written is exact: it adds the negation with `+=` as
      written, so for a non-positive vector whose y and z components leave
      the remainder of its x component it agrees with the intended operator. */
  lemma MinusAsWrittenAgrees(p: Position, v: Vector3D)
    requires Normal(p)
    requires v.x <= 0.0 && v.y <= 0.0 && v.z <= 0.0
    requires FloorMod(-v.y, C) == FloorMod(-v.x, C) && FloorMod(-v.z, C) == FloorMod(-v.x, C)
    ensures MinusAssignAsWritten(p, v) == MinusAssign(p, v)
  {
    AsWrittenAgrees(p, Negate(v));
  }

  /** Counterexample for `-=` as written: moving the origin back one metre
      along x adds (-1, 0, 0) with `+=` as written, which overshoots on x and
      drags y and z along, where the intended operator lands at (-1, 0, 0)
      (`BackFromOrigin`). */
  lemma MinusAsWrittenMisplaces(v: Vector3D)
    requires v == Make(1.0, 0.0, 0.0)
    ensures X(MinusAssignAsWritten(Origin, v)) == -200001.0
    ensures Y(MinusAssignAsWritten(Origin, v)) == -100001.0
    ensures Z(MinusAssignAsWritten(Origin, v)) == -100001.0
  {
    MinusAsWrittenCells(v);
    MinusAsWrittenCoordinates(MinusAssignAsWritten(Origin, v));
  }

  /** The coordinates of the cells in `MinusAsWrittenCells`. */
  lemma MinusAsWrittenCoordinates(r: Position)
    requires r.xCoarse == -2 && r.xFine == -1.0
    requires r.yCoarse == -1 && r.yFine == -1.0 && r.zCoarse == -1 && r.zFine == -1.0
    ensures X(r) == -200001.0 && Y(r) == -100001.0 && Z(r) == -100001.0
  {
  }

  /** The cells and offsets behind `MinusAsWrittenMisplaces`. */
  lemma MinusAsWrittenCells(v: Vector3D)
    requires v == Make(1.0, 0.0, 0.0)
    ensures var r := MinusAssignAsWritten(Origin, v);
            r.xCoarse == -2 && r.xFine == -1.0
            && r.yCoarse == -1 && r.yFine == -1.0 && r.zCoarse == -1 && r.zFine == -1.0
  {
    NegateUnitX();
    MinusIsPlusNegated(Origin, v, Make(-1.0, 0.0, 0.0));
    AsWrittenOvershootsNegativeCells();
  }

  /** Moving the origin back by v with the intended operator lands at -v. */
  lemma BackFromOrigin(v: Vector3D)
    ensures X(MinusAssign(Origin, v)) == -v.x && Y(MinusAssign(Origin, v)) == -v.y && Z(MinusAssign(Origin, v)) == -v.z
  {
    InCell(Origin, 0, 0.0, 0, 0.0, 0, 0.0);
  }

  /** `-=` as written is `+=` as written of the negated vector. */
  lemma MinusIsPlusNegated(p: Position, v: Vector3D, u: Vector3D)
    requires u == Negate(v)
    ensures MinusAssignAsWritten(p, v) == PlusAssignAsWritten(p, u)
  {
  }

  lemma NegateUnitX()
    ensures Negate(Make(1.0, 0.0, 0.0)) == Make(-1.0, 0.0, 0.0)
  {
  }

  /** Reads the coordinates of a position off its cells and offsets. */
  lemma InCell(p: Position, xc: int, xf: real, yc: int, yf: real, zc: int, zf: real)
    requires p.xCoarse == xc && p.xFine == xf
    requires p.yCoarse == yc && p.yFine == yf
    requires p.zCoarse == zc && p.zFine == zf
    ensures X(p) == xc as real * C + xf && Y(p) == yc as real * C + yf && Z(p) == zc as real * C + zf
  {
  }
}
