/**
 The body record of src/Body.cpp and the rotation value of
 include/Rotation.hpp that it carries as its angular velocity.
 */
module Bodies {
  import opened Vector

  /** The identity of a body, assigned by the caller and unique within a system. */
  type BodyId = int

  /** A rotation of `angle` radians about `axis`. */
  datatype Rotation = Rotation(axis: Vector3D, angle: real)

  /** `Rotation()`: the rotation of magnitude zero, about the x axis. */
  const NoRotation: Rotation := Rotation(Vector3D(1.0, 0.0, 0.0, 1.0), 0.0)

  /** `Rotation::operator==`: axes equal componentwise and equal angles. */
  predicate SameRotation(r: Rotation, s: Rotation) {
    Equal(r.axis, s.axis) && r.angle == s.angle
  }

  datatype Body = Body(id: BodyId, mass: real, angularVelocity: Rotation)

  /** The constructor: a body with the given identity and mass that does not spin. */
  function NewBody(id: BodyId, mass: real): (b: Body)
    ensures b.id == id && b.mass == mass
    ensures SameRotation(b.angularVelocity, NoRotation)
    ensures b.angularVelocity.angle == 0.0
  {
    Body(id, mass, NoRotation)
  }

  /** `setAngularVelocity`: replaces the spin and leaves identity and mass alone. */
  function SetAngularVelocity(b: Body, w: Rotation): (r: Body)
    ensures r.id == b.id && r.mass == b.mass
    ensures r.angularVelocity == w
  {
    b.(angularVelocity := w)
  }

  /** Setting the spin twice keeps only the second, and setting it back to
      the old value restores the body. */
  lemma SetAngularVelocityOverwrites(b: Body, w1: Rotation, w2: Rotation)
    ensures SetAngularVelocity(SetAngularVelocity(b, w1), w2) == SetAngularVelocity(b, w2)
    ensures SetAngularVelocity(SetAngularVelocity(b, w1), b.angularVelocity) == b
  {
  }
}
