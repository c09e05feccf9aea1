/**
 The orbital state a body holds relative to its parent, reduced to what the
 body tree uses of it: the relative position and velocity vectors, and the
 parent mass the state was derived against.  Deriving orbital elements from
 vectors (and back) is transcendental numerics that is not part of this
 model; the one property the tree relies on is that a state built from
 vectors reads those vectors back.
 */
module States {
  import opened Vector

  datatype OrbitalState = OrbitalState(position: Vector3D, velocity: Vector3D, parentMass: real)

  /** `OrbitalState::fromVectors(position, velocity, parentMass)`. */
  function FromVectors(position: Vector3D, velocity: Vector3D, parentMass: real): (s: OrbitalState)
    ensures s.position == position && s.velocity == velocity
    ensures s.parentMass == parentMass
  {
    OrbitalState(position, velocity, parentMass)
  }

  /** The placeholder state of the root: the degenerate orbit with every
      element and the parent mass zero, which sits at the origin at rest. */
  const RootState: OrbitalState := FromVectors(Zero, Zero, 0.0)
}
