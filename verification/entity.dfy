/** source/simulation/Entity.ts: a body paired with its disc geometry. */
module Entities {
  import opened Wrappers
  import opened Vectors
  import opened Discs
  import opened RigidBodies

  /** `1 / moment` in floating point: a finite inverse for a non-zero moment, and None for
      the infinity that a zero moment (a disc of radius 0) produces. */
  function InverseOf(moment: real): (r: Option<real>)
    ensures r.Some? <==> moment != 0.0
    ensures r.Some? ==> r.value * moment == 1.0
  {
    if moment == 0.0 then None else Some(1.0 / moment)
  }

  /** A simulated entity. The body and geometry are the ones it was built from; the inertia
      fields are derived from them once; the flags and applied loads are written by callers. */
  class Entity {
    const body: RigidBody
    const geometry: Disc
    const momentOfInertia: real
    const momentOfInertiaInverse: Option<real>

    var isStatic: bool
    var appliedForce: Vec
    var appliedTorque: real

    /** What the constructor establishes about the derived fields. */
    predicate Valid()
    {
      body.Valid() &&
      momentOfInertia == geometry.MomentOfInertia(body.mass) &&
      momentOfInertiaInverse == InverseOf(momentOfInertia)
    }

    constructor (body: RigidBody, geometry: Disc)
      requires body.Valid()
      ensures Valid()
      ensures this.body == body && this.geometry == geometry
      ensures !isStatic && appliedForce == Zero && appliedTorque == 0.0
    {
      this.body := body;
      this.geometry := geometry;
      var moment := geometry.MomentOfInertia(body.mass);
      this.momentOfInertia := moment;
      this.momentOfInertiaInverse := InverseOf(moment);
      isStatic := false;
      appliedForce := Zero;
      appliedTorque := 0.0;
    }

    /** A valid entity has a positive moment of inertia, hence a finite inverse, exactly when
        its disc has a non-zero radius. */
    lemma InertiaInverseFinite()
      requires Valid()
      ensures momentOfInertia >= 0.0
      ensures momentOfInertiaInverse.Some? <==> geometry.radius != 0.0
    {
      MomentOfInertiaSign(geometry, body.mass);
    }
  }
}
