/** source/simulation/RigidBody.ts: mass properties and the mutable motion state of a body. */
module RigidBodies {
  import opened Wrappers
  import opened Vectors

  /** Why the constructor refuses its arguments. */
  datatype BodyError = NonPositiveMass | NegativeElasticity

  /** The constructor's checks, in the order it makes them: the mass first, then the
      elasticity. Elasticities above 1 are accepted. */
  function CheckParameters(mass: real, elasticity: real): (r: Option<BodyError>)
    ensures r.None? <==> mass > 0.0 && elasticity >= 0.0
    ensures mass <= 0.0 ==> r == Some(NonPositiveMass)
    ensures r == Some(NegativeElasticity) <==> mass > 0.0 && elasticity < 0.0
  {
    if mass <= 0.0 then Some(NonPositiveMass)
    else if elasticity < 0.0 then Some(NegativeElasticity)
    else None
  }

  /** A rigid body: constant mass properties, and a position, rotation, velocity and angular
      velocity that the simulation overwrites. Vectors are held as values: the source never
      shares a body's vectors with anything else. */
  class RigidBody {
    const mass: real
    const massInverse: real
    const elasticity: real

    var position: Vec
    var rotation: real
    var velocity: Vec
    var angularVelocity: real

    /** The invariant the constructor establishes: a positive mass whose inverse is stored,
        and a non-negative elasticity. */
    predicate Valid()
    {
      mass > 0.0 && mass * massInverse == 1.0 && elasticity >= 0.0
    }

    /** The constructor once its checks have passed: a body at rest at the origin. */
    constructor (mass: real, elasticity: real)
      requires CheckParameters(mass, elasticity).None?
      ensures Valid()
      ensures this.mass == mass && this.elasticity == elasticity && this.massInverse == 1.0 / mass
      ensures position == Zero && rotation == 0.0 && velocity == Zero && angularVelocity == 0.0
    {
      this.mass := mass;
      this.massInverse := 1.0 / mass;
      this.elasticity := elasticity;
      position := Zero;
      rotation := 0.0;
      velocity := Zero;
      angularVelocity := 0.0;
    }

    /** `momentum`: mass times velocity, which the inverse mass maps back to the velocity. */
    function Momentum(): (p: Vec)
      reads this
      requires Valid()
      ensures p.Scale(massInverse) == velocity
      ensures velocity == Zero ==> p == Zero
    {
      velocity.Scale(mass)
    }

    /** `kinetic_energy`: half the mass times the squared speed; never negative, and half the
        dot product of momentum and velocity. */
    function KineticEnergy(): (e: real)
      reads this
      requires Valid()
      ensures e >= 0.0
      ensures e == 0.5 * Momentum().Dot(velocity)
    {
      0.5 * mass * velocity.LengthSquared()
    }
  }

  /** Constructing a body: a failure exactly when the checks fail, otherwise a fresh valid
      body at rest with the given mass and elasticity. */
  method Create(mass: real, elasticity: real) returns (r: Result<RigidBody, BodyError>)
    ensures r.Failure? <==> CheckParameters(mass, elasticity).Some?
    ensures r.Failure? ==> Some(r.error) == CheckParameters(mass, elasticity)
    ensures r.Success? ==> fresh(r.value) && r.value.Valid()
    ensures r.Success? ==> r.value.mass == mass && r.value.elasticity == elasticity
    ensures r.Success? ==> r.value.position == Zero && r.value.velocity == Zero
    ensures r.Success? ==> r.value.rotation == 0.0 && r.value.angularVelocity == 0.0
  {
    var check := CheckParameters(mass, elasticity);
    if check.Some? {
      return Failure(check.value);
    }
    var body := new RigidBody(mass, elasticity);
    return Success(body);
  }
}
