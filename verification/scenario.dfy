/**
 The example system of the repository's tests: the Sun at the root, the
 Earth and Mars orbiting it and the Moon orbiting the Earth, listed relative
 to the Sun.  Bodies are keyed by number (Sun 1, Earth 2, Moon 3, Mars 4)
 where the tests use names; vectors are written with their exact caches.
 */
module Scenario {
  import opened Vector
  import opened Results
  import opened Bodies
  import opened States
  import opened SolarSystems
  import opened RelativeTo

  const EarthPosition: Vector3D := Vector3D(0.0, 1.47095e11, 0.0, 2.1636939025e22)
  const MoonPosition: Vector3D := Vector3D(-3.626e8, 0.0, 0.0, 1.3147876e17)
  const MarsPosition: Vector3D := Vector3D(2.067e11, 0.0, 0.0, 4.272489e22)
  const EarthVelocity: Vector3D := Vector3D(3.029e4, 0.0, 0.0, 9.174841e8)
  const MoonVelocity: Vector3D := Vector3D(0.0, -1.022e3, 0.0, 1.044484e6)
  const MarsVelocity: Vector3D := Vector3D(0.0, -2.650e4, 0.0, 7.0225e8)
  /** The Moon's position relative to the Sun. */
  const MoonFromSun: Vector3D := Vector3D(-3.626e8, 1.47095e11, 0.0, 2.163707050376e22)

  /** The system after adding the Earth and Mars under the Sun and the Moon
      under the Earth, with the vectors of the tests. */
  function System(): (s: SolarSystem)
    ensures s.bodies.Keys == {1, 2, 3, 4}
  {
    SolarSystem(0.0, map[
      1 := Node(NewBody(1, 1.9885e30), RootState, None, [2, 4]),
      2 := Node(NewBody(2, 5.97237e24),
                FromVectors(EarthPosition, EarthVelocity, 1.9885e30), Some(1), [3]),
      3 := Node(NewBody(3, 7.342e22),
                FromVectors(MoonPosition, MoonVelocity, 5.97237e24), Some(2), []),
      4 := Node(NewBody(4, 6.4171e23),
                FromVectors(MarsPosition, MarsVelocity, 1.9885e30), Some(1), [])], 1)
  }

  /** The example system built the way the tests build it: a fresh system
      around the Sun, then the Earth under the Sun, the Moon under the Earth
      and Mars under the Sun, each from a position and a velocity. */
  function Assembled(): Result<SolarSystem, Error>
  {
    var sun := NewSystem(NewBody(1, 1.9885e30));
    var withEarth :- AddBodyFromVectors(sun, NewBody(2, 5.97237e24),
                                        Make(0.0, 1.47095e11, 0.0), Make(3.029e4, 0.0, 0.0), 1);
    var withMoon :- AddBodyFromVectors(withEarth, NewBody(3, 7.342e22),
                                       Make(-3.626e8, 0.0, 0.0), Make(0.0, -1.022e3, 0.0), 2);
    AddBodyFromVectors(withMoon, NewBody(4, 6.4171e23),
                       Make(2.067e11, 0.0, 0.0), Make(0.0, -2.650e4, 0.0), 1)
  }

  /** Every addition of the tests succeeds and yields exactly `System()`. */
  lemma AssembledIsSystem()
    ensures Assembled() == Success(System())
  {
    MadeVectors();
    EarthAdded();
    MoonAdded();
    MarsAdded();
    StagesEndAtSystem();
  }

  /** The stages of the assembly, each the previous one with one more leaf. */
  function SunOnly(): SolarSystem
  {
    NewSystem(NewBody(1, 1.9885e30))
  }

  function WithEarth(): SolarSystem
  {
    WithLeaf(SunOnly(), NewBody(2, 5.97237e24), FromVectors(EarthPosition, EarthVelocity, 1.9885e30), 1)
  }

  function WithMoon(): SolarSystem
    requires 2 in WithEarth().bodies
  {
    WithLeaf(WithEarth(), NewBody(3, 7.342e22), FromVectors(MoonPosition, MoonVelocity, 5.97237e24), 2)
  }

  function WithMars(): SolarSystem
    requires 2 in WithEarth().bodies && 1 in WithMoon().bodies
  {
    WithLeaf(WithMoon(), NewBody(4, 6.4171e23), FromVectors(MarsPosition, MarsVelocity, 1.9885e30), 1)
  }

  lemma EarthAdded()
    ensures Make(0.0, 1.47095e11, 0.0) == EarthPosition && Make(3.029e4, 0.0, 0.0) == EarthVelocity
    ensures AddBodyFromVectors(SunOnly(), NewBody(2, 5.97237e24), EarthPosition, EarthVelocity, 1) == Success(WithEarth())
    ensures WellFormed(WithEarth()) && WithEarth().bodies.Keys == {1, 2}
  {
    MadeVectors();
    AddPreservesWellFormed(SunOnly(), NewBody(2, 5.97237e24), FromVectors(EarthPosition, EarthVelocity, 1.9885e30), 1);
  }

  lemma MoonAdded()
    requires WellFormed(WithEarth()) && WithEarth().bodies.Keys == {1, 2}
    ensures AddBodyFromVectors(WithEarth(), NewBody(3, 7.342e22), MoonPosition, MoonVelocity, 2) == Success(WithMoon())
    ensures WellFormed(WithMoon()) && WithMoon().bodies.Keys == {1, 2, 3}
  {
    AddPreservesWellFormed(WithEarth(), NewBody(3, 7.342e22), FromVectors(MoonPosition, MoonVelocity, 5.97237e24), 2);
  }

  lemma MarsAdded()
    requires WellFormed(WithMoon()) && WithMoon().bodies.Keys == {1, 2, 3}
    ensures AddBodyFromVectors(WithMoon(), NewBody(4, 6.4171e23), MarsPosition, MarsVelocity, 1) == Success(WithMars())
  {
    AddPreservesWellFormed(WithMoon(), NewBody(4, 6.4171e23), FromVectors(MarsPosition, MarsVelocity, 1.9885e30), 1);
  }

  lemma StagesEndAtSystem()
    requires WithEarth().bodies.Keys == {1, 2} && WithMoon().bodies.Keys == {1, 2, 3}
    ensures WithMars() == System()
  {
    var m, s := WithMars().bodies, System().bodies;
    assert m.Keys == s.Keys;
    assert m[1] == s[1] && m[2] == s[2];
    assert m[3] == s[3] && m[4] == s[4];
  }

  /** The vectors of the tests, built from their coordinates, carry the
      caches written in the constants above. */
  lemma MadeVectors()
    ensures Make(0.0, 1.47095e11, 0.0) == EarthPosition
    ensures Make(-3.626e8, 0.0, 0.0) == MoonPosition
    ensures Make(2.067e11, 0.0, 0.0) == MarsPosition
    ensures Make(3.029e4, 0.0, 0.0) == EarthVelocity
    ensures Make(0.0, -1.022e3, 0.0) == MoonVelocity
    ensures Make(0.0, -2.650e4, 0.0) == MarsVelocity
  {
  }

  /** The example system is a well-formed tree, the Earth and Mars sit at
      their own positions from the Sun and the Moon at the sum of its own
      and the Earth's. */
  lemma Placements()
    ensures WellFormed(System())
    ensures AbsPosition(System(), 1) == Zero
    ensures AbsPosition(System(), 2) == EarthPosition
    ensures AbsPosition(System(), 3) == MoonFromSun
    ensures AbsPosition(System(), 4) == MarsPosition
  {
    ScenarioWellFormed();
    ScenarioPositions();
  }

  lemma ScenarioWellFormed()
    ensures WellFormed(System())
  {
    var s := System();
    assert Linked(s);
    assert Ranked(s, map[1 := 2, 2 := 1, 3 := 0, 4 := 0]);
  }

  lemma ScenarioPositions()
    requires WellFormed(System())
    ensures AbsPosition(System(), 1) == Zero
    ensures AbsPosition(System(), 2) == EarthPosition
    ensures AbsPosition(System(), 3) == MoonFromSun
    ensures AbsPosition(System(), 4) == MarsPosition
  {
    SunAt();
    EarthAt();
    MarsAt();
    MoonAt();
  }

  lemma SunAt()
    requires WellFormed(System())
    ensures AbsPosition(System(), 1) == Zero
  {
  }

  lemma EarthAt()
    requires WellFormed(System())
    ensures AbsPosition(System(), 2) == EarthPosition
  {
    var s := System();
    SunAt();
    assert s.bodies[2].parent == Some(1) && s.bodies[2].state.position == EarthPosition;
    OnParent(s, 2, Zero, EarthPosition);
    assert 0.0 + EarthPosition.y == EarthPosition.y;
  }

  lemma MarsAt()
    requires WellFormed(System())
    ensures AbsPosition(System(), 4) == MarsPosition
  {
    var s := System();
    SunAt();
    assert s.bodies[4].parent == Some(1) && s.bodies[4].state.position == MarsPosition;
    OnParent(s, 4, Zero, MarsPosition);
    assert 0.0 + MarsPosition.x == MarsPosition.x;
  }

  lemma MoonAt()
    requires WellFormed(System())
    ensures AbsPosition(System(), 3) == MoonFromSun
  {
    var s := System();
    EarthAt();
    assert s.bodies[3].parent == Some(2) && s.bodies[3].state.position == MoonPosition;
    OnParent(s, 3, EarthPosition, MoonPosition);
    assert EarthPosition.x + MoonPosition.x == MoonFromSun.x;
    assert EarthPosition.y + MoonPosition.y == MoonFromSun.y;
    assert MoonFromSun.x * MoonFromSun.x + MoonFromSun.y * MoonFromSun.y == MoonFromSun.length2;
  }

  /** A body sits at its own position plus its parent's absolute one. */
  lemma OnParent(s: SolarSystem, b: BodyId, parent: Vector3D, own: Vector3D)
    requires WellFormed(s) && b in s.bodies && b != s.root
    requires s.bodies[b].parent.Some? && s.bodies[b].parent.value in s.bodies
    requires AbsPosition(s, s.bodies[b].parent.value) == parent
    requires s.bodies[b].state.position == own
    ensures AbsPosition(s, b) == Plus(parent, own)
  {
    ParentlessIsRoot(s, b);
  }

  /** The example system listed relative to the Sun, as the tests expect:
      whatever `getRelativeTo(Sun)` returns has four entries, the Sun at the
      origin and every other body at its position from the Sun, the Moon's
      combining its own with the Earth's. */
  lemma SunEarthMoonMars(es: seq<Entry>)
    requires WellFormed(System()) && ListsAllRelativeTo(System(), 1, es)
    ensures |es| == 4
    ensures forall i :: 0 <= i < |es| ==> es[i].body.id in {1, 2, 3, 4}
    ensures forall i :: 0 <= i < |es| && es[i].body.id == 1 ==> es[i].offset == Zero
    ensures forall i :: 0 <= i < |es| && es[i].body.id == 2 ==> es[i].offset == EarthPosition
    ensures forall i :: 0 <= i < |es| && es[i].body.id == 3 ==> es[i].offset == MoonFromSun
    ensures forall i :: 0 <= i < |es| && es[i].body.id == 4 ==> es[i].offset == MarsPosition
  {
    ScenarioPositions();
    SunOffsets(System(), es);
  }

  /** Reads the offsets of a listing relative to the Sun off the absolute positions. */
  lemma SunOffsets(s: SolarSystem, es: seq<Entry>)
    requires WellFormed(s) && s.bodies.Keys == {1, 2, 3, 4}
    requires AbsPosition(s, 1) == Zero && AbsPosition(s, 2) == EarthPosition
    requires AbsPosition(s, 3) == MoonFromSun && AbsPosition(s, 4) == MarsPosition
    requires ListsEachOnce(s, es) && OffsetsFrom(s, 1, es)
    ensures |es| == 4
    ensures forall i :: 0 <= i < |es| ==> es[i].body.id in {1, 2, 3, 4}
    ensures forall i :: 0 <= i < |es| && es[i].body.id == 1 ==> es[i].offset == Zero
    ensures forall i :: 0 <= i < |es| && es[i].body.id == 2 ==> es[i].offset == EarthPosition
    ensures forall i :: 0 <= i < |es| && es[i].body.id == 3 ==> es[i].offset == MoonFromSun
    ensures forall i :: 0 <= i < |es| && es[i].body.id == 4 ==> es[i].offset == MarsPosition
  {
    FourEntries(s, es);
    MinusZero(EarthPosition);
    MinusZero(MoonFromSun);
    MinusZero(MarsPosition);
    MinusZero(Zero);
  }

  /** A listing of a four-body system has four entries, one per body. */
  lemma FourEntries(s: SolarSystem, es: seq<Entry>)
    requires ListsEachOnce(s, es)
    requires s.bodies.Keys == {1, 2, 3, 4}
    ensures |es| == 4
    ensures forall i :: 0 <= i < |es| ==> es[i].body.id in {1, 2, 3, 4}
  {
    assert |s.bodies.Keys| == |s.bodies|;
    assert |{1, 2, 3, 4}| == 4 by {
      assert {1, 2, 3, 4} == {1, 2, 3} + {4};
      assert {1, 2, 3} == {1, 2} + {3};
    }
    forall i | 0 <= i < |es|
      ensures es[i].body.id in {1, 2, 3, 4}
    {
      assert es[i].body.id in Ids(es);
    }
  }

  lemma MinusZero(v: Vector3D)
    requires Valid(v)
    ensures Minus(v, Zero) == v
  {
    assert v.x - 0.0 == v.x && v.y - 0.0 == v.y && v.z - 0.0 == v.z;
  }
}
