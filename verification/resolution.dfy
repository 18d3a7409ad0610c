/** What the world relies on from source/collision/narrowphase/resolution.ts: the `Target`
    of an update, and the fact that an update changes only the targeted sides of a pair.
    How far `separate` pushes two discs apart and what velocities
    `apply_collision_response` computes (square roots and normalisation over floating
    point) are left to the functions passed in. */
module Resolution {
  import opened Vectors

  /** `Target`: the non-empty subsets of a pair. */
  datatype Target = First | Second | Both

  predicate MovesFirst(t: Target) { t != Second }
  predicate MovesSecond(t: Target) { t != First }

  /** `separate(c1, r1, c2, r2, padding, target)`, as the two centres it computes. */
  type Separator = (Vec, real, Vec, real, real, Target) -> (Vec, Vec)

  /** `apply_collision_response(x1, u1, m1, e1, x2, u2, m2, e2, target, distance)`, as the
      two velocities it computes. */
  type Responder = (Vec, Vec, real, real, Vec, Vec, real, real, Target, real) -> (Vec, Vec)

  /** What an update leaves of a pair of vectors: each targeted side takes the computed
      value, each other side keeps its own. */
  function Targeted(t: Target, old1: Vec, old2: Vec, computed: (Vec, Vec)): (r: (Vec, Vec))
    ensures MovesFirst(t) || r.0 == old1
    ensures MovesSecond(t) || r.1 == old2
    ensures t == Both ==> r == computed
  {
    (if MovesFirst(t) then computed.0 else old1, if MovesSecond(t) then computed.1 else old2)
  }
}
