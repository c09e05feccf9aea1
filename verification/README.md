# gravitree in Dafny

A model of the core of gravitree, a small C++ library that keeps a solar
system as a tree of bodies. Each body stores its orbital state relative to
its parent. The library can list every body's offset from any chosen body.
The model covers:

- the body hierarchy (`SolarSystem`): construction, `tick`, both `addBody`
  overloads, `removeBody`, `getBody`, `getRelativeTo` and its helper
  `getTreeRelativeTo` (modules `SolarSystems` and `RelativeTo`);
- the value types beneath it: `Vector3D` with its cached squared length
  (`Vector`), the two-level `Position` (`Positions`), `KeplerOrbit`
  (`Kepler`), the inverse-square helpers of `Gravity` (`Gravity`) and the
  `Body` record (`Bodies`);
- the example system of the library's test, the Sun with the Earth, the Moon
  and Mars (`Scenario`).

Modelling choices:

- Doubles are `real`. The C library's `floor` and `fmod` are written out in
  `Numeric`. `std::sqrt` is a parameter `sqrt: real -> real`, constrained by
  `IsSqrt` wherever a property depends on it.
- A division that leaves the reals gives an IEEE value (`Extended`: finite,
  +inf, -inf or NaN).
- Pointers between tree nodes become body identities. `WellFormed` is the
  tree invariant: the links agree, only the root has no parent, and there is
  a rank that decreases strictly from parent to child, so there are no
  cycles.
- An orbital state is reduced to the relative position and velocity it was
  built from, plus the parent mass. `OrbitalState::fromVectors` reads its
  vectors back, and the tree relies on nothing else.
- An operation that throws in the source (`std::map::at` on a missing
  identity, the "Remove root" exception) returns a `Failure` value.
- Where the code and its evident intent differ, both are modelled. The
  intended version is the one the rest of the model uses (see "Findings").

Each module is one file: `numeric.dfy`, `results.dfy`, `vector.dfy`,
`positions.dfy`, `kepler.dfy`, `gravity.dfy`, `bodies.dfy`, `states.dfy`,
`solar_system.dfy`, `relative_to.dfy` and `scenario.dfy`.

## Model

| member | source | states |
|---|---|---|
| Numeric.Floor | src/Position.hpp:38-40 | `std::floor` brackets its argument: r <= x < r + 1 |
| Numeric.FMod | src/Position.hpp:161 | `std::fmod` by a positive modulus has the sign of the dividend and magnitude below the modulus. It equals the floored remainder for x >= 0 and its mirror image for x < 0 |
| Numeric.FloorMod | src/Position.hpp:160-162 | the floored remainder lies in [0, y), and adding floor(x / y) * y gives back x |
| Numeric.Divide | src/Gravity.hpp:77 | IEEE division is finite exactly when the divisor is non-zero, and then quotient * divisor = dividend. Dividing by zero gives an infinity with the dividend's sign, or NaN for 0 / 0 |
| Numeric.SqrtExtended | src/KeplerOrbit.cpp:31 | `std::sqrt` is finite exactly on non-negative finite inputs, its result squares back to the input, +inf maps to +inf, and anything else gives NaN |
| Vector.Make | include/Vector3D.hpp:32-42 | the constructor stores the components and an exact, non-negative cached squared length |
| Vector.Dot | include/Vector3D.hpp:121-125 | for an exact cache, a vector dotted with itself gives its cached squared length |
| Vector.Cross | include/Vector3D.hpp:134-141 | `cross` has an exact cache and is orthogonal to both operands: its dot product with each is 0 |
| Vector.Plus | include/Vector3D.hpp:180-184 | binary `+` adds componentwise and computes an exact cache |
| Vector.Minus | include/Vector3D.hpp:193-197 | binary `-` subtracts componentwise and computes an exact cache |
| Vector.Negate | include/Vector3D.hpp:204-207 | unary `-` negates each component and computes an exact cache |
| Vector.Magnitude2 | include/Vector3D.hpp:214-217 | for an exact cache, `magnitude2` is non-negative and zero exactly for the zero vector |
| Vector.Scale | include/Vector3D.hpp:150-155 | scaling multiplies each component by s and the cache by s^2, so the cache stays exact |
| Vector.Divide | include/Vector3D.hpp:164-169 | division by s != 0 undoes scaling by s componentwise, the cache times s^2 is the old cache, and the cache stays exact |
| Vector.TimesAssign | include/Vector3D.hpp:229-246 | `*=` with a vector is the componentwise product: each component is the product of the two operands' components. The three products sum to the dot product, but the result is not the dot product. The cache is recomputed |
| Vector.ScaleAssign | include/Vector3D.hpp:255-264 | in-place scaling agrees with `*` by a scalar and keeps the cache exact |
| Vector.PlusAssign | include/Vector3D.hpp:273-282 | `+=` agrees with binary `+` (cache included) |
| Vector.MinusAssign | include/Vector3D.hpp:292-301 | `-=` agrees with binary `-` (cache included) |
| Vector.Distance2 | include/Vector3D.hpp:95-99 | `distance2` is the sum of the squared component differences, so it is non-negative and zero exactly when the components coincide |
| Vector.Normalized | include/Vector3D.hpp:392-397 | `normalized` maps the zero vector to the zero vector. Any other vector goes to a non-negative multiple of itself with squared length 1 |
| Vector.InverseMagnitude | include/Vector3D.hpp:394-395 | the factor `normalized` uses is 0 for a zero vector and otherwise 1 / sqrt(length2), a non-negative k with k^2 * length2 = 1 |
| Vector.CacheExact | include/Vector3D.hpp:150-301 | every vector-valued operator keeps the cached squared length equal to x^2 + y^2 + z^2 |
| Vector.PlusMinusInverse | include/Vector3D.hpp:180-207 | subtracting w undoes adding w and vice versa, and double negation is the identity, for vectors with exact caches |
| Vector.PlusAssociative | include/Vector3D.hpp:180-184 | `+` regroups: u + (v + w) = (u + v) + w |
| Vector.MinusSelf | include/Vector3D.hpp:193-197 | v - v is the zero vector |
| Vector.MinusUndoesPlus | include/Vector3D.hpp:180-197 | (u + w) - u equals w componentwise |
| Vector.MinusSwaps | include/Vector3D.hpp:193-207 | v - u = -(u - v) |
| Vector.Symmetric | include/Vector3D.hpp:95-125 | the dot product and `distance2` are symmetric |
| Vector.CrossOrthogonal | include/Vector3D.hpp:134-141 | the cross product is orthogonal to both operands, and v x v = 0 |
| Vector.EqualIsIdentity | include/Vector3D.hpp:310-327 | for exact caches, `==` (componentwise) holds exactly when the values are identical, and `!=` is its negation |
| Vector.Equal | include/Vector3D.hpp:310-314 | for exact caches, `==` (which compares components only) holds exactly when the two values are identical |
| Vector.Less | include/Vector3D.hpp:336-342 | `<` decides on z first: a smaller z makes it true, it never holds with a larger z, and it never holds between equal vectors |
| Vector.LessIsStrictTotalOrder | include/Vector3D.hpp:336-357 | lexicographic `<` on (z, y, x): exactly one of `<`, `==`, `>` holds, `>` is the converse of `<`, and `<` is irreflexive and transitive |
| Vector.NonStrictOrders | include/Vector3D.hpp:366-383 | `<=`, written as !(>), means "`<` or `==`"; `>=`, written as !(<), means "`>` or `==`" |
| Vector.LessEq | include/Vector3D.hpp:366-370 | `<=`, written as !(>), holds exactly when `<` or `==` holds |
| Positions.Split | src/Position.hpp:38-44 | one axis of the constructor: the cell is floor(x / 1e5), the offset lies in [0, 1e5), and cell * 1e5 + offset = x |
| Positions.FromComponents | src/Position.hpp:34-47 | the constructor yields a normal position whose coordinates are the arguments |
| Positions.FromVector | src/Position.hpp:54-59 | building from a vector gives a normal position at the vector's coordinates |
| Positions.ToVector | src/Position.hpp:96-99 | `toVector` returns the coordinates cell * 1e5 + offset, with an exact cache |
| Positions.X | src/Position.hpp:66-69 | for a normal position, `x()` is the coordinate from which the constructor recovers exactly the stored x cell and offset |
| Positions.Y | src/Position.hpp:76-79 | for a normal position, `y()` is the coordinate from which the constructor recovers exactly the stored y cell and offset |
| Positions.Z | src/Position.hpp:86-89 | for a normal position, `z()` is the coordinate from which the constructor recovers exactly the stored z cell and offset |
| Positions.Distance2 | src/Position.hpp:109-113 | the squared distance between positions is the sum of the squared differences of their coordinates `x()`, `y()`, `z()`. It is non-negative and zero exactly at equal coordinates |
| Positions.Difference | src/Position.hpp:139-148 | `p - q`, computed cell-wise and offset-wise, equals `p.toVector() - q.toVector()` |
| Positions.AddAxis | src/Position.hpp:160-175 | one axis of the intended `+=`: the coordinate moves by exactly d, the offset stays in [0, 1e5), and the extra carry is 0 or 1 |
| Positions.PlusAssign | src/Position.hpp:157-178 | the intended `+=` keeps the position normal and moves each coordinate by its own component |
| Positions.MinusAssign | src/Position.hpp:188-192 | `-=` keeps the position normal and moves each coordinate back by its component |
| Positions.AddAxisAsWritten | src/Position.hpp:160-175 | one axis of `+=` as written: the offset stays in [0, 1e5) when it and the component it reads are non-negative, and the coordinate moves by floor(d / 1e5) cells plus fmod of the component read |
| Positions.PlusAssignAsWritten | src/Position.hpp:157-178 | `+=` as written keeps a normal position normal when the x component is non-negative |
| Positions.MinusAssignAsWritten | src/Position.hpp:188-192 | `-=` as written keeps a normal position normal when the x component is non-positive |
| Positions.VectorRoundTrip | src/Position.hpp:34-99 | `Position(v).toVector() == v`, and a normal position is rebuilt exactly from its own coordinates |
| Positions.CellOf | src/Position.hpp:38-44 | the constructor recovers cell c and offset f from c * 1e5 + f when f lies in [0, 1e5) |
| Positions.SameCoordinates | src/Position.hpp:66-89 | two normal positions with the same coordinates are the same position |
| Positions.PlusMinusInverse | src/Position.hpp:157-192 | `+=` then `-=` of the same vector restores the position, and `q += (p - q)` lands exactly on p |
| Positions.AsWrittenAgrees | src/Position.hpp:157-178 | `+=` as written equals the intended operator for non-negative vectors whose y and z remainders match the x remainder |
| Positions.AsWrittenExactOnX | src/Position.hpp:160-162 | `+=` as written moves x by exactly a non-negative x component and keeps the x offset in [0, 1e5) |
| Positions.AxisAgrees | src/Position.hpp:160-162 | one axis as written equals the intended axis when the remainder read is that of the component, and both are non-negative |
| Positions.OriginIsDefault | src/Position.hpp:34-37 | the default constructor gives cell 0 and offset 0 on every axis |
| Positions.AsWrittenMovesOtherAxes | src/Position.hpp:164-169 | moving the origin by (50000, 0, 0) as written also moves y and z by 50000, where the intended operator leaves them at 0 |
| Positions.AsWrittenOvershootsNegative | src/Position.hpp:160-162 | moving the origin by (-1, 0, 0) as written lands at x = -200001, where the intended operator lands at -1 |
| Positions.MinusAsWrittenAgrees | src/Position.hpp:188-192 | `-=` as written equals the intended `-=` for non-positive vectors whose y and z remainders match the x remainder |
| Positions.MinusAsWrittenMisplaces | src/Position.hpp:188-192 | moving the origin back by (1, 0, 0) with `-=` as written lands at (-200001, -100001, -100001), where the intended `-=` lands at (-1, 0, 0) (`BackFromOrigin`) |
| Positions.BackFromOrigin | src/Position.hpp:188-192 | the intended `-=` moves the origin back to exactly -v on every axis |
| Kepler.CalcPeriod | src/KeplerOrbit.cpp:25-32 | the period is finite exactly when G M != 0 and a^3 / (G M) >= 0. It is then non-negative and obeys Kepler's third law, T^2 G M = 4 pi^2 a^3. With G M = 0 it is +inf for a > 0 and NaN otherwise |
| Kepler.New | src/KeplerOrbit.cpp:40-57 | the accessors return the six constructor arguments, mu = M G, and a finite period satisfies T^2 mu = 4 pi^2 a^3 |
| Kepler.AngularMomentum | src/KeplerOrbit.cpp:108-112 | h is finite exactly when mu a (1 - e^2) >= 0, and then it is non-negative with h^2 = mu a (1 - e^2). Otherwise it is NaN |
| Kepler.Apoapsis | src/KeplerOrbit.cpp:114-124 | the apoapsis is +inf exactly when e >= 1, and a (1 + e) otherwise |
| Kepler.Periapsis | src/KeplerOrbit.cpp:126-132 | the periapsis is a (1 - e) for e != -1, and NaN (0 / 0) for e = -1 |
| Kepler.ApsidesOrdered | src/KeplerOrbit.cpp:114-132 | on a closed orbit with a >= 0: periapsis <= apoapsis, with equality for a > 0 exactly when e = 0, and the two average to a |
| Kepler.MuIsParentPull | src/KeplerOrbit.cpp:54 | mu is the parent's pull: a negligible mass at distance d accelerates by mu / d^2 |
| Gravity.Force | src/Gravity.hpp:72-78 | the force is finite exactly for d != 0, and then F d^2 = G m1 m2. At d = 0 it is +inf for a positive product and NaN for a zero one |
| Gravity.Acceleration | src/Gravity.hpp:39-44 | the acceleration is finite exactly for d != 0, and then a d^2 = G M |
| Gravity.ForceVector | src/Gravity.hpp:89-95 | the vector force is absent (NaN in the source) exactly for a zero offset, and otherwise has an exact cache |
| Gravity.AccelerationVector | src/Gravity.hpp:55-60 | the vector acceleration is absent exactly for a zero offset |
| Gravity.ForceSymmetric | src/Gravity.hpp:72-78 | the force is symmetric in the masses and even in the distance |
| Gravity.InverseSquare | src/Gravity.hpp:72-78 | scaling the distance by k != 0 divides the force by k^2 |
| Gravity.ForceIsMassTimesAcceleration | src/Gravity.hpp:39-78 | the scalar force on mass m is m times the scalar acceleration |
| Gravity.ForceVectorLaw | src/Gravity.hpp:89-95 | the vector force f has squared magnitude (G m1 m2)^2 / \|off\|^4, and f . off = -G m1 m2 / \|off\|, so positive masses attract |
| Gravity.ForceVectorIsMassTimesAcceleration | src/Gravity.hpp:55-95 | the vector force on mass m is m times the vector acceleration |
| Bodies.NewBody | src/Body.cpp:21-29 | a new body has the given id and mass and the zero rotation `Rotation()` (axis (1, 0, 0), angle 0) |
| Bodies.SetAngularVelocity | src/Body.cpp:57-61 | `setAngularVelocity` replaces the spin and keeps id and mass |
| Bodies.SetAngularVelocityOverwrites | src/Body.cpp:57-61 | a second set overrides the first, and setting the old spin back restores the body |
| States.FromVectors | src/SolarSystem.cpp:56-57 | a state derived from vectors reads back its position, velocity and parent mass |
| SolarSystems.NewSystem | src/SolarSystem.cpp:22-36 | a new system is well formed at time 0 and holds exactly the root: no parent, no children, the placeholder state |
| SolarSystems.Tick | src/SolarSystem.cpp:42-46 | `tick` adds to the clock and leaves the tree and its invariant untouched |
| SolarSystems.TickAdds | src/SolarSystem.cpp:42-46 | ticking by a and then by b is ticking by a + b |
| SolarSystems.GetBody | src/SolarSystem.cpp:100-110 | `getBody` returns the stored body with the requested id, and fails exactly on an unknown id |
| SolarSystems.AddBody | src/SolarSystem.cpp:62-74 | adding fails on an unknown parent or a used id and succeeds otherwise. The result is well formed with one more node, a leaf with the parent link set, appended at the end of the parent's children. The clock, the root and every other node are unchanged |
| SolarSystems.AddPreservesWellFormed | src/SolarSystem.cpp:62-74 | the system with a fresh leaf added is well formed and has the shape `AddedLeaf` describes |
| SolarSystems.AddBodyFromVectors | src/SolarSystem.cpp:48-60 | the vector overload succeeds exactly when the parent is known and the id is fresh. An unknown parent gives `UnknownBody`, and a used id under a known parent gives `DuplicateBody`. On success the result is well formed and is the old system plus one leaf under the parent. Its state reads back the given position and velocity, derived against the parent's mass |
| SolarSystems.AddKeepsAbsolute | src/SolarSystem.cpp:62-74 | adding a body moves no existing body: absolute positions and velocities are unchanged |
| SolarSystems.AddPlacesLeaf | src/SolarSystem.cpp:62-74 | the new body sits at its parent's absolute position and velocity plus its relative ones |
| SolarSystems.AddBodyAsWritten | src/SolarSystem.cpp:62-74 | as written, adding succeeds exactly when the parent exists, and the id is then among the parent's children |
| SolarSystems.AddAsWrittenAgreesOnFreshId | src/SolarSystem.cpp:62-74 | with a fresh id, `addBody` as written is the intended operation |
| SolarSystems.AddAsWrittenBreaksTree | src/SolarSystem.cpp:69-73 | re-adding the root's id under the root succeeds as written and breaks the links, where the intended operation reports a duplicate |
| SolarSystems.Reparent | src/SolarSystem.cpp:87-92 | an orphaned child keeps its body and children, points at the grandparent, and its relative position and velocity absorb the removed node's |
| SolarSystems.RemoveBody | src/SolarSystem.cpp:76-98 | removing fails on an unknown id (`UnknownBody`) or the root (`InvalidOperation`) and succeeds otherwise. The result is well formed, with the same clock and root and exactly the other ids. The parent's children become its old children without the removed id, followed by the removed node's children. Each of those children points at the parent and has its relative position and velocity plus the removed node's. Every other node is unchanged |
| SolarSystems.RemoveKeepsAbsolute | src/SolarSystem.cpp:84-95 | removing a body moves no other body, its former children included: absolute positions and velocities are unchanged |
| SolarSystems.RemoveBodyAsWritten | src/SolarSystem.cpp:76-98 | as written, an unknown id fails and every non-root id is refused as "Remove root". Any success removes the root itself |
| SolarSystems.RemoveAsWrittenInverted | src/SolarSystem.cpp:79-92 | with one body under the root, removing it is refused as written but succeeds as intended, and removing the root dereferences the null parent. Removing a lone root succeeds as written and leaves a system that is not well formed |
| SolarSystems.RemoveLoopAsWritten | src/SolarSystem.cpp:84-97 | the loop of `removeBody` as written, run on a non-root body: the parent still lists the removed id, each child still names the removed node as its parent, and the result is not linked |
| SolarSystems.RemoveLoopLeavesDangling | src/SolarSystem.cpp:87-97 | removing the Earth from Sun, Earth, Moon through that loop leaves the Sun listing the missing Earth and the Moon pointing at it. The intended removal puts the Moon under the Sun |
| SolarSystems.SpliceShape | src/SolarSystem.cpp:84-97 | the splice that removes a node yields exactly the shape `Spliced` describes: the parent's new child list, the re-pointed orphans, and every other node unchanged |
| SolarSystems.RootSubtreeIsAll | src/SolarSystem.cpp:128-141 | in a well-formed system every body lies below the root, so climbing from any body and walking down covers the whole table |
| SolarSystems.Acyclic | src/SolarSystem.cpp:128-141 | no body is a proper descendant of its own descendant, so the climb terminates |
| RelativeTo.TreeRelativeToSpec | src/SolarSystem.cpp:150-164 | `getTreeRelativeTo(origin, id)` lists exactly the subtree of id, each body once, each at its absolute position shifted by origin + position(id) - absolute(id) |
| RelativeTo.TreeRelativeTo | src/SolarSystem.cpp:150-164 | `getTreeRelativeTo` starts with the body it is called on |
| RelativeTo.ChildTrees | src/SolarSystem.cpp:160-163 | the child loop yields at least one entry per child, the first child's body first |
| RelativeTo.ChildTreesSpec | src/SolarSystem.cpp:160-163 | the walk over distinct children lists exactly their subtrees, each body once, at positions shifted by origin - absolute(parent) |
| RelativeTo.ChildTreesAppend | src/SolarSystem.cpp:160-163 | walking a concatenation of children is concatenating the walks |
| RelativeTo.SiblingTrees | src/SolarSystem.cpp:131-135 | the sibling loop appends the subtrees of every child of the parent except node, in child order |
| RelativeTo.Climb | src/SolarSystem.cpp:120-141 | the climb up the parent chain yields the queried body's subtree followed by the `Remaining` part of the walk, with the queried body first |
| RelativeTo.ClimbStep | src/SolarSystem.cpp:128-141 | one step up the tree keeps the loop invariant. The list covers the parent's subtree once, every offset is taken from the queried body, and the origin moves by the parent's position |
| RelativeTo.GetRelativeTo | src/SolarSystem.cpp:112-144 | `getRelativeTo(id)` fails exactly on an unknown id. Otherwise it lists as many distinct bodies as the system holds, starting with id, each with its stored record and with offset absolute(b) - absolute(id) |
| RelativeTo.EveryBodyListed | src/SolarSystem.cpp:116-143 | a listing of that kind contains every body of the system |
| RelativeTo.OffsetsNearQuery | src/SolarSystem.cpp:120-141 | in a listing relative to q, q sits at the zero vector and each child of q at its own relative position |
| RelativeTo.OffsetsAntisymmetric | src/SolarSystem.cpp:120-141 | the offset of b relative to a is the negation of a relative to b |
| Scenario.Placements | src/test/gravitree_test.cpp:18-41 | the test's Sun, Earth, Moon and Mars form a well-formed tree. The Sun sits at the origin, the Earth and Mars at their own positions, and the Moon at its own position plus the Earth's |
| Scenario.AssembledIsSystem | src/test/gravitree_test.cpp:18-41 | the test's construction and three vector `addBody` calls succeed at every step and yield exactly the system the other scenario lemmas reason about |
| Scenario.SunEarthMoonMars | src/test/gravitree_test.cpp:43-46 | listing that system relative to the Sun gives four entries: the Sun at the origin, the Earth and Mars at their positions, and the Moon at (-3.626e8, 1.47095e11, 0) |

## Left out

- The derivation of orbital elements from vectors and back
  (`OrbitalState`): it is transcendental floating-point numerics.
  `States.FromVectors` keeps only its read-back of the vectors, which is all
  the tree relies on.
- The root's placeholder state (a degenerate `KeplerOrbit(0, 0, 0, 0, 0, 0)`)
  is modelled as zero position and velocity with parent mass 0.
  `getRelativeTo` does not depend on the root's own position.
- `std::sqrt` is a parameter, not a computed function.
- `magnitude`, `distance`, `toPolarCoordinates` (Vector3D and Position) are
  left out: they need real `sqrt`, `asin` or `atan2` beyond the parameter.
  `isValid` is left out because NaN and infinities in vector components are
  not modelled.
- IEEE rounding, signed zeros and overflow are not modelled. Every double
  operation is exact over the reals.
- Vector.Divide: requires s != 0. Dividing a vector by zero in the source
  fills it with infinities or NaN, which vectors of reals cannot hold.
- Gravity.ForceVector: a zero offset gives a vector of NaNs in the source;
  here it is `None`.
- Positions: the 64-bit cell counters are unbounded integers. Wrap-around
  past 2^63 cells is not modelled.
- Positions.MinusAssignAsWritten: its contract states only that the offsets
  stay normal for a non-positive x component. `MinusAsWrittenAgrees` gives the
  inputs on which it matches the intended `-=`, and `MinusAsWrittenMisplaces`
  gives one on which it does not.
- Positions.PlusAssignAsWritten: its contract states only that the offsets
  stay normal for a non-negative x component. The discrepancies for other
  inputs are stated by `AsWrittenMovesOtherAxes` and
  `AsWrittenOvershootsNegative`.
- The fine offsets of a position are three reals rather than a `Vector3D`.
  The source never reads that vector's cached length.
- `getBody` is modelled once. The const and non-const overloads return the
  same record.
- Pointer ownership (`unique_ptr`), the deleted copy operations and the
  iteration order of `std::map` do not affect the results modelled here.
- Body identities are integers, since the header that defines `id_type` is
  not part of this model. The tests key bodies by name; `Scenario` numbers
  them Sun 1, Earth 2, Moon 3, Mars 4.
- The KeplerOrbit tests that expect `period() == parentMass` and call a
  `velocity(trueAnomaly)` method do not match the code shown and are not
  modelled. Neither are the name-keyed `getSystemRelativeTo` and the older
  `Body` headers.
- The alternative leap-frog integrator, the output streams and the abstract
  `Shape` interface are not part of this model.
- RelativeTo.GetRelativeTo: its contract states "as many distinct bodies as
  the system holds, all of them known". That every body appears is the
  separate lemma `EveryBodyListed`.

## Findings

| source | as written | input that shows it | evidently intended | confidence | as-written member | corrected member |
|---|---|---|---|---|---|---|
| src/Position.hpp:165-169 | the y and z remainders use `std::fmod(other.x(), ...)` | the origin plus (50000, 0, 0) | each axis takes the remainder of its own component, so y and z stay at 0 | high, not executed | Positions.AsWrittenMovesOtherAxes | Positions.PlusAssign |
| src/Position.hpp:160-162 | the cell moves by `floor(d / 1e5)` but the offset by the truncating `fmod(d, 1e5)` | the origin plus (-1, 0, 0) lands at x = -200001 | the floored remainder, so the position moves by exactly d for either sign | high, not executed | Positions.AsWrittenOvershootsNegative | Positions.PlusMinusInverse |
| src/SolarSystem.cpp:79-97 | `if (node->parent != nullptr) throw` refuses every non-root body. The root then reaches `node->parent->body` at :91-92, which is null, and erasing the lone root leaves a system with no root. The loop behind the guard is wrong as well (next row) | a system with one body below the root: removing that body fails, and removing the root dereferences null | refuse the root and remove any other body: its children move to its parent, point back to it and keep their absolute states, and the parent stops listing the removed node | high, not executed | SolarSystems.RemoveAsWrittenInverted | SolarSystems.RemoveBody |
| src/SolarSystem.cpp:87-97 | the loop appends each child to the parent's children but never sets `child->parent`, and nothing removes the erased node from the parent's children | with the guard corrected, removing the Earth from Sun, Earth, Moon: the Sun still lists the Earth and the Moon still points at it, both dangling after `erase` | point each child at the parent and drop the removed node from the parent's children | high, not executed | SolarSystems.RemoveLoopLeavesDangling | SolarSystems.RemoveBody |
| src/SolarSystem.cpp:69-73 | the new node is pushed onto the parent's children before `map::emplace` silently ignores a duplicate id | re-adding the root's id under the root | refuse an id already in use and change nothing | high, not executed | SolarSystems.AddAsWrittenBreaksTree | SolarSystems.AddBody |
