/** source/geometry/Disc.ts */
module Discs {
  import opened Vectors
  import opened Utilities

  /** A disc geometry; the radius is stored unchanged. */
  datatype Disc = Disc(radius: real) {

    /** The source sets the centre of mass to the uniform vector (radius, radius). */
    function CenterOfMass(): (c: Vec)
      ensures c.x == radius && c.y == radius
    {
      Uniform(radius)
    }

    /** Solid-disc moment of inertia for a body of the given mass. */
    function MomentOfInertia(mass: real): real
    {
      0.5 * mass * (radius * radius)
    }
  }

  /** The moment of inertia is never negative for a non-negative mass, and positive for a
      positive mass and a non-zero radius. */
  lemma MomentOfInertiaSign(d: Disc, mass: real)
    ensures mass >= 0.0 ==> d.MomentOfInertia(mass) >= 0.0
    ensures mass > 0.0 && d.radius != 0.0 ==> d.MomentOfInertia(mass) > 0.0
  {
    if mass > 0.0 && d.radius != 0.0 {
      var r := d.radius;
      if r > 0.0 { ProductPositive(r * r, r, r); } else { ProductPositive(r * r, -r, -r); }
      ProductPositive(d.MomentOfInertia(mass), 0.5 * mass, r * r);
    }
  }

  /** The moment of inertia is linear in the mass. */
  lemma MomentOfInertiaLinear(d: Disc, m1: real, m2: real, k: real)
    ensures d.MomentOfInertia(m1 + m2) == d.MomentOfInertia(m1) + d.MomentOfInertia(m2)
    ensures d.MomentOfInertia(k * m1) == k * d.MomentOfInertia(m1)
  {
  }
}
