/** source/collision/narrowphase/detection.ts, class CollisionTester: the time at which two
    moving discs first touch within a horizon, read off the roots of a quadratic. The
    quadratic solver of source/numerical_analysis/quadratic.ts is a parameter: it reports no
    root, one root or two roots. */
module CollisionTester {
  import opened Vectors
  import opened Utilities
  import opened Intersection

  /** What the solver reports: its count and the roots it wrote into the shared buffer. */
  datatype Roots = NoRoots | OneRoot(root: real) | TwoRoots(first: real, second: real)

  /** The solver, as an ordinary function of the three coefficients. */
  type Solver = (real, real, real) -> Roots

  /** The quadratic a*t*t + b*t + c. */
  datatype Quadratic = Quadratic(a: real, b: real, c: real) {
    function At(t: real): real
    {
      a * t * t + b * t + c
    }

    function Discriminant(): real
    {
      b * b - 4.0 * a * c
    }
  }

  /** Where a body moving at constant velocity v from c is after time t. */
  function PositionAt(c: Vec, v: Vec, t: real): Vec
  {
    c.Plus(v.Scale(t))
  }

  /** The coefficients `test_for_collision` hands to the solver: the squared relative speed,
      twice the dot product of the relative position and velocity, and the squared distance
      less the squared sum of the radii. Its value at t is how far the squared distance of
      the centres at time t exceeds the squared contact distance. */
  function CollisionQuadratic(c1: Vec, v1: Vec, r1: real, c2: Vec, v2: Vec, r2: real): (q: Quadratic)
    ensures q.a >= 0.0
  {
    GapQuadratic(c1.x - c2.x, v1.x - v2.x, c1.y - c2.y, v1.y - v2.y, Square(r1 + r2))
  }

  /** The quadratic in t of the squared distance of two points whose difference starts at
      (dcx, dcy) and changes at rate (dvx, dvy), less k. */
  function GapQuadratic(dcx: real, dvx: real, dcy: real, dvy: real, k: real): (q: Quadratic)
    ensures q.a >= 0.0
  {
    SquareNonNegative(dvx);
    SquareNonNegative(dvy);
    Quadratic(dvx * dvx + dvy * dvy, 2.0 * (dcx * dvx + dcy * dvy), dcx * dcx + dcy * dcy - k)
  }

  /** Bodies with different velocities give a positive leading coefficient: the solver is
      never asked to divide by zero for them. */
  lemma LeadingCoefficientPositive(c1: Vec, v1: Vec, r1: real, c2: Vec, v2: Vec, r2: real)
    requires v1 != v2
    ensures CollisionQuadratic(c1, v1, r1, c2, v2, r2).a > 0.0
  {
    var dvx, dvy := v1.x - v2.x, v1.y - v2.y;
    assert CollisionQuadratic(c1, v1, r1, c2, v2, r2).a == dvx * dvx + dvy * dvy;
    SquareNonNegative(dvx);
    SquareNonNegative(dvy);
    if dvx != 0.0 {
      SquarePositive(dvx, dvx * dvx);
    } else {
      assert dvy != 0.0;
      SquarePositive(dvy, dvy * dvy);
    }
  }

  lemma SquareNonNegative(x: real)
    ensures x * x >= 0.0
  {
    if x != 0.0 {
      SquarePositive(x, x * x);
    }
  }

  lemma SquarePositive(x: real, m: real)
    requires x != 0.0 && m == x * x
    ensures m > 0.0
  {
    if x > 0.0 {
      ProductPositive(m, x, x);
    } else {
      ProductPositive(m, -x, -x);
    }
  }

  /** The quadratic at t is the squared distance of the centres at time t less the squared
      sum of the radii. */
  lemma QuadraticIsGap(c1: Vec, v1: Vec, r1: real, c2: Vec, v2: Vec, r2: real, t: real)
    ensures CollisionQuadratic(c1, v1, r1, c2, v2, r2).At(t) ==
      PositionAt(c1, v1, t).DistanceSquaredTo(PositionAt(c2, v2, t)) - Square(r1 + r2)
  {
    CoefficientsGiveSeparation(c1, v1, r1, c2, v2, r2, t);
    DistanceOfPositions(c1, v1, c2, v2, t);
  }

  /** The squared distance at time t of two points whose difference starts at (dcx, dcy)
      and changes at rate (dvx, dvy). */
  function SquaredSeparation(dcx: real, dvx: real, dcy: real, dvy: real, t: real): real
  {
    (dcx + dvx * t) * (dcx + dvx * t) + (dcy + dvy * t) * (dcy + dvy * t)
  }

  lemma CoefficientsGiveSeparation(c1: Vec, v1: Vec, r1: real, c2: Vec, v2: Vec, r2: real, t: real)
    ensures CollisionQuadratic(c1, v1, r1, c2, v2, r2).At(t) ==
      SquaredSeparation(c1.x - c2.x, v1.x - v2.x, c1.y - c2.y, v1.y - v2.y, t) - Square(r1 + r2)
  {
    ScalarGap(c1.x - c2.x, v1.x - v2.x, c1.y - c2.y, v1.y - v2.y, Square(r1 + r2), t);
  }

  lemma ScalarGap(dcx: real, dvx: real, dcy: real, dvy: real, k: real, t: real)
    ensures GapQuadratic(dcx, dvx, dcy, dvy, k).At(t) ==
      SquaredSeparation(dcx, dvx, dcy, dvy, t) - k
  {
    GapComponent(dcx, dvx, t);
    GapComponent(dcy, dvy, t);
  }

  /** One coordinate of the expansion: (dc + dv*t)^2 = dv^2*t^2 + 2*dc*dv*t + dc^2. */
  lemma GapComponent(dc: real, dv: real, t: real)
    ensures (dc + dv * t) * (dc + dv * t) == dv * dv * t * t + 2.0 * dc * dv * t + dc * dc
  {
  }

  lemma DistanceOfPositions(c1: Vec, v1: Vec, c2: Vec, v2: Vec, t: real)
    ensures PositionAt(c1, v1, t).DistanceSquaredTo(PositionAt(c2, v2, t)) ==
      SquaredSeparation(c1.x - c2.x, v1.x - v2.x, c1.y - c2.y, v1.y - v2.y, t)
  {
    SquareOfApart(c1.x, v1.x, c2.x, v2.x, t);
    SquareOfApart(c1.y, v1.y, c2.y, v2.y, t);
  }

  lemma SquareOfApart(c1: real, v1: real, c2: real, v2: real, t: real)
    ensures ((c2 + v2 * t) - (c1 + v1 * t)) * ((c2 + v2 * t) - (c1 + v1 * t)) ==
      ((c1 - c2) + (v1 - v2) * t) * ((c1 - c2) + (v1 - v2) * t)
  {
    var d := (c1 - c2) + (v1 - v2) * t;
    assert (c2 + v2 * t) - (c1 + v1 * t) == -d;
    NegatedSquare(d);
  }

  /** So the quadratic is at most zero at t exactly when the discs intersect at time t. */
  lemma GapIffIntersect(c1: Vec, v1: Vec, r1: real, c2: Vec, v2: Vec, r2: real, t: real)
    ensures CollisionQuadratic(c1, v1, r1, c2, v2, r2).At(t) <= 0.0 <==>
      TestForIntersection(PositionAt(c1, v1, t), r1, PositionAt(c2, v2, t), r2)
  {
    QuadraticIsGap(c1, v1, r1, c2, v2, r2, t);
  }

  /** The root-selection rule after the solver has run: no root means no collision; two
      roots around zero (the discs already intersect) mean time 0; otherwise the smaller (or
      only) root counts when it lies in [0, dt]. */
  function SelectTime(roots: Roots, dt: real): (t: real)
    ensures roots.NoRoots? ==> t == -1.0
    ensures dt >= 0.0 ==> t == -1.0 || 0.0 <= t <= dt
    ensures roots.TwoRoots? ==>
      var (t1, t2) := MinMax(roots.first, roots.second);
      t == (if t1 < 0.0 <= t2 then 0.0 else if 0.0 <= t1 <= dt then t1 else -1.0)
    ensures roots.OneRoot? ==> t == (if 0.0 <= roots.root <= dt then roots.root else -1.0)
  {
    match roots
    case NoRoots => -1.0
    case OneRoot(x) => if 0.0 <= x && x <= dt then x else -1.0
    case TwoRoots(x, y) =>
      var (t1, t2) := MinMax(x, y);
      if t1 < 0.0 && t2 >= 0.0 then 0.0
      else if 0.0 <= t1 && t1 <= dt then t1 else -1.0
  }

  /** `CollisionTester.test_for_collision`: -1 when the discs do not meet within dt, else a
      time in [0, dt]. */
  function TestForCollision(c1: Vec, v1: Vec, r1: real, c2: Vec, v2: Vec, r2: real, dt: real, solve: Solver): (t: real)
    ensures dt >= 0.0 ==> t == -1.0 || 0.0 <= t <= dt
  {
    var q := CollisionQuadratic(c1, v1, r1, c2, v2, r2);
    SelectTime(solve(q.a, q.b, q.c), dt)
  }

  /** Swapping the two discs hands the solver the same coefficients. */
  lemma CollisionQuadraticSymmetric(c1: Vec, v1: Vec, r1: real, c2: Vec, v2: Vec, r2: real)
    ensures CollisionQuadratic(c2, v2, r2, c1, v1, r1) == CollisionQuadratic(c1, v1, r1, c2, v2, r2)
  {
    NegatedProduct(c1.x - c2.x, v1.x - v2.x);
    NegatedProduct(c1.y - c2.y, v1.y - v2.y);
    NegatedSquare(c1.x - c2.x);
    NegatedSquare(c1.y - c2.y);
    NegatedSquare(v1.x - v2.x);
    NegatedSquare(v1.y - v2.y);
    SquareOfSumSymmetric(r1, r2);
  }

  lemma NegatedProduct(a: real, b: real)
    ensures (-a) * (-b) == a * b
  {
  }

  /** So the collision test does not depend on the order of the two discs. */
  lemma TestForCollisionSymmetric(c1: Vec, v1: Vec, r1: real, c2: Vec, v2: Vec, r2: real, dt: real, solve: Solver)
    ensures TestForCollision(c2, v2, r2, c1, v1, r1, dt, solve) == TestForCollision(c1, v1, r1, c2, v2, r2, dt, solve)
  {
    CollisionQuadraticSymmetric(c1, v1, r1, c2, v2, r2);
  }

  /* ---------------------------------------------------------------- an exact solver */

  /** What `solve` in source/numerical_analysis/quadratic.ts computes over exact reals: no
      root for a negative discriminant, the double root -b/(2a) for a zero one, and the two
      distinct roots for a positive one. */
  predicate SolvesExactly(q: Quadratic, roots: Roots)
  {
    match roots
    case NoRoots => q.Discriminant() < 0.0
    case OneRoot(x) => q.Discriminant() == 0.0 && 2.0 * q.a * x == -q.b
    case TwoRoots(x, y) => q.Discriminant() > 0.0 && x != y && q.At(x) == 0.0 && q.At(y) == 0.0
  }

  /** Completing the square: 4a * q(t) = (2at + b)^2 - discriminant. */
  lemma CompleteSquare(q: Quadratic, t: real)
    ensures 4.0 * q.a * q.At(t) == (2.0 * q.a * t + q.b) * (2.0 * q.a * t + q.b) - q.Discriminant()
  {
  }

  /** With a negative discriminant and a > 0, the quadratic is positive everywhere. */
  lemma NoRootPositive(q: Quadratic, t: real)
    requires q.a > 0.0 && q.Discriminant() < 0.0
    ensures q.At(t) > 0.0
  {
    var s := 2.0 * q.a * t + q.b;
    CompleteSquare(q, t);
    SquareNonNegative(s);
    QuotientPositive(q.At(t), 4.0 * q.a, s * s - q.Discriminant());
  }

  /** With a zero discriminant and a > 0, the quadratic is non-negative and zero only at
      the double root. */
  lemma DoubleRootSign(q: Quadratic, x: real, t: real)
    requires q.a > 0.0 && q.Discriminant() == 0.0 && 2.0 * q.a * x == -q.b
    ensures q.At(t) >= 0.0
    ensures q.At(t) <= 0.0 <==> t == x
  {
    var s := 2.0 * q.a * t + q.b;
    var m := s * s - q.Discriminant();
    CompleteSquare(q, t);
    assert s == 2.0 * q.a * (t - x);
    if t != x {
      NonZeroProduct(2.0 * q.a, t - x, s);
      SquarePositive(s, s * s);
      QuotientPositive(q.At(t), 4.0 * q.a, m);
    } else {
      QuotientZero(q.At(t), 4.0 * q.a, m);
    }
  }

  /** Two distinct roots x and y factor the quadratic as a * (t - x) * (t - y). */
  lemma Factor(q: Quadratic, x: real, y: real, t: real)
    requires x != y && q.At(x) == 0.0 && q.At(y) == 0.0
    ensures q.At(t) == q.a * ((t - x) * (t - y))
  {
    assert (x - y) * (q.a * (x + y) + q.b) == q.At(x) - q.At(y);
    NonZeroFactor(q.a * (x + y) + q.b, x - y);
    assert q.b == -q.a * (x + y);
    assert q.c == q.a * x * y;
  }

  /** With a > 0 and roots x < y, the quadratic is at most zero exactly on [x, y]. */
  lemma BetweenRootsSign(q: Quadratic, x: real, y: real, t: real)
    requires q.a > 0.0 && x < y && q.At(x) == 0.0 && q.At(y) == 0.0
    ensures q.At(t) <= 0.0 <==> x <= t <= y
  {
    Factor(q, x, y, t);
    var p := (t - x) * (t - y);
    if t < x {
      ProductPositive(p, x - t, y - t);
      ProductPositive(q.At(t), q.a, p);
    } else if t > y {
      ProductPositive(p, t - x, t - y);
      ProductPositive(q.At(t), q.a, p);
    } else if t != x && t != y {
      ProductPositive(-p, t - x, y - t);
      ProductPositive(-q.At(t), q.a, -p);
    }
  }

  /** p > 0 when k > 0 and k * p is some m > 0. */
  lemma QuotientPositive(p: real, k: real, m: real)
    requires k > 0.0 && m > 0.0 && k * p == m
    ensures p > 0.0
  {
  }

  lemma QuotientZero(p: real, k: real, m: real)
    requires k > 0.0 && m == 0.0 && k * p == m
    ensures p == 0.0
  {
  }

  lemma NonZeroFactor(p: real, k: real)
    requires k != 0.0 && k * p == 0.0
    ensures p == 0.0
  {
  }

  lemma NonZeroProduct(a: real, b: real, m: real)
    requires a != 0.0 && b != 0.0 && m == a * b
    ensures m != 0.0
  {
  }

  /** Fed the exact roots of a quadratic with a > 0, the selection rule returns -1 when the
      quadratic stays positive on [0, dt], and otherwise the earliest t in [0, dt] at which
      it is at most zero. */
  lemma SelectTimeIsEarliest(q: Quadratic, roots: Roots, dt: real)
    requires q.a > 0.0 && SolvesExactly(q, roots) && dt >= 0.0
    ensures var t := SelectTime(roots, dt);
      (t == -1.0 ==> forall s :: 0.0 <= s <= dt ==> q.At(s) > 0.0) &&
      (t != -1.0 ==> 0.0 <= t <= dt && q.At(t) <= 0.0 && forall s :: 0.0 <= s < t ==> q.At(s) > 0.0)
  {
    var t := SelectTime(roots, dt);
    match roots
    case NoRoots =>
      forall s | 0.0 <= s <= dt
        ensures q.At(s) > 0.0
      {
        NoRootPositive(q, s);
      }
    case OneRoot(x) =>
      DoubleRootSign(q, x, t);
      forall s | 0.0 <= s <= dt && s != t
        ensures q.At(s) > 0.0
      {
        DoubleRootSign(q, x, s);
      }
    case TwoRoots(x, y) =>
      var (t1, t2) := MinMax(x, y);
      BetweenRootsSign(q, t1, t2, t);
      forall s | 0.0 <= s <= dt && (t == -1.0 || s < t)
        ensures q.At(s) > 0.0
      {
        BetweenRootsSign(q, t1, t2, s);
      }
  }

  /** Discs moving with the same velocity hand the solver a = b = 0, and their gap never
      changes. The source's `solve` then has a zero discriminant and returns -0 / (2 * 0),
      which is NaN and fails the range test. So for a solver result of that kind (no root,
      or one root outside [0, dt]), two overlapping discs moving together are reported as
      not colliding, although they intersect throughout [0, dt]. */
  lemma EqualVelocitiesMissOverlap(c1: Vec, r1: real, c2: Vec, r2: real, v: Vec, dt: real, solve: Solver)
    requires dt >= 0.0 && TestForIntersection(c1, r1, c2, r2)
    requires var q := CollisionQuadratic(c1, v, r1, c2, v, r2); var roots := solve(q.a, q.b, q.c);
      roots.NoRoots? || (roots.OneRoot? && !(0.0 <= roots.root <= dt))
    ensures var q := CollisionQuadratic(c1, v, r1, c2, v, r2); q.a == 0.0 && q.b == 0.0
    ensures TestForCollision(c1, v, r1, c2, v, r2, dt, solve) == -1.0
    ensures forall s :: 0.0 <= s <= dt ==>
      TestForIntersection(PositionAt(c1, v, s), r1, PositionAt(c2, v, s), r2)
  {
    var q := CollisionQuadratic(c1, v, r1, c2, v, r2);
    assert q.a == 0.0 && q.b == 0.0;
    GapIffIntersect(c1, v, r1, c2, v, r2, 0.0);
    assert PositionAt(c1, v, 0.0) == c1 && PositionAt(c2, v, 0.0) == c2;
    forall s | 0.0 <= s <= dt
      ensures TestForIntersection(PositionAt(c1, v, s), r1, PositionAt(c2, v, s), r2)
    {
      assert q.At(s) == q.At(0.0);
      GapIffIntersect(c1, v, r1, c2, v, r2, s);
    }
  }

  /** Fed an exact solver, `test_for_collision` on discs with different velocities returns
      -1 exactly when they do not intersect at any time in [0, dt], and otherwise the
      earliest time in [0, dt] at which they intersect. */
  lemma CollisionIsEarliestContact(c1: Vec, v1: Vec, r1: real, c2: Vec, v2: Vec, r2: real, dt: real, solve: Solver)
    requires dt >= 0.0 && v1 != v2
    requires var q := CollisionQuadratic(c1, v1, r1, c2, v2, r2); SolvesExactly(q, solve(q.a, q.b, q.c))
    ensures var t := TestForCollision(c1, v1, r1, c2, v2, r2, dt, solve);
      (t == -1.0 <==> forall s :: 0.0 <= s <= dt ==>
        !TestForIntersection(PositionAt(c1, v1, s), r1, PositionAt(c2, v2, s), r2)) &&
      (t != -1.0 ==>
         0.0 <= t <= dt &&
         TestForIntersection(PositionAt(c1, v1, t), r1, PositionAt(c2, v2, t), r2) &&
         forall s :: 0.0 <= s < t ==>
           !TestForIntersection(PositionAt(c1, v1, s), r1, PositionAt(c2, v2, s), r2))
  {
    var q := CollisionQuadratic(c1, v1, r1, c2, v2, r2);
    var t := TestForCollision(c1, v1, r1, c2, v2, r2, dt, solve);
    LeadingCoefficientPositive(c1, v1, r1, c2, v2, r2);
    SelectTimeIsEarliest(q, solve(q.a, q.b, q.c), dt);
    forall s
      ensures q.At(s) <= 0.0 <==> TestForIntersection(PositionAt(c1, v1, s), r1, PositionAt(c2, v2, s), r2)
    {
      GapIffIntersect(c1, v1, r1, c2, v2, r2, s);
    }
  }
}
