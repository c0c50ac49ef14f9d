/** A concrete rotational-velocity function for a single rotating frame: rigid-body
    rotation at angular velocity `omega` about the point `origin`. The utility only
    ever calls the frame's velocity as a pure function from a point to a vector;
    this is one instance of that function. */
module SrfModel {
  import opened Vectors

  /** Velocity of the frame at point `p`: `omega x (p - origin)`. */
  function RigidBodyVelocity(omega: Vec3, origin: Vec3, p: Vec3): Vec3 {
    Cross(omega, Sub(p, origin))
  }

  /** The frame velocity as the point-to-vector function the utility consumes. */
  function Velocity(omega: Vec3, origin: Vec3): Vec3 -> Vec3 {
    p => RigidBodyVelocity(omega, origin, p)
  }

  /** The frame velocity vanishes at the origin and is perpendicular both to the
      rotation axis and to the radius from the origin. */
  lemma RigidBodyVelocityProperties(omega: Vec3, origin: Vec3, p: Vec3)
    ensures RigidBodyVelocity(omega, origin, origin) == Zero
    ensures Dot(RigidBodyVelocity(omega, origin, p), omega) == 0.0
    ensures Dot(RigidBodyVelocity(omega, origin, p), Sub(p, origin)) == 0.0
  {
  }

  /** Unit-rate rotation about the z axis through the origin moves the point
      (x, y, z) with velocity (-y, x, 0). */
  lemma UnitZRotation(p: Vec3)
    ensures Velocity(Vec3(0.0, 0.0, 1.0), Zero)(p) == Vec3(-p.y, p.x, 0.0)
  {
  }
}
