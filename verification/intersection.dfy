/** source/geometry/intersection.ts: the disc-overlap predicate. */
module Intersection {
  import opened Vectors
  import opened Utilities
  import opened BoundingBoxes

  /** Two discs intersect when the squared distance between their centres is at most the
      square of the sum of their radii; discs that just touch count as intersecting. */
  predicate TestForIntersection(c1: Vec, r1: real, c2: Vec, r2: real)
  {
    c1.DistanceSquaredTo(c2) <= Square(r1 + r2)
  }

  /** `Math.pow(x, 2)`. */
  function Square(x: real): (s: real)
    ensures s >= 0.0
  {
    x * x
  }

  /** The test does not depend on the order of the two discs. */
  lemma IntersectionSymmetric(c1: Vec, r1: real, c2: Vec, r2: real)
    ensures TestForIntersection(c1, r1, c2, r2) <==> TestForIntersection(c2, r2, c1, r1)
  {
    DistanceSquaredSymmetric(c1, c2);
    SquareOfSumSymmetric(r1, r2);
  }

  lemma SquareOfSumSymmetric(r1: real, r2: real)
    ensures Square(r2 + r1) == Square(r1 + r2)
  {
  }

  /** Discs whose centres are exactly the sum of the radii apart (squared) intersect. */
  lemma TouchingDiscsIntersect(c1: Vec, r1: real, c2: Vec, r2: real)
    requires c1.DistanceSquaredTo(c2) == Square(r1 + r2)
    ensures TestForIntersection(c1, r1, c2, r2)
  {
  }

  /** Concentric discs always intersect, whatever their radii. */
  lemma ConcentricDiscsIntersect(c: Vec, r1: real, r2: real)
    ensures TestForIntersection(c, r1, c, r2)
  {
    assert c.DistanceSquaredTo(c) == 0.0;
  }

  /** Discs further apart than the sum of their radii along one axis do not intersect. */
  lemma SeparatedDiscsDoNotIntersect(c1: Vec, r1: real, c2: Vec, r2: real)
    requires r1 >= 0.0 && r2 >= 0.0
    requires c2.x - c1.x > r1 + r2
    ensures !TestForIntersection(c1, r1, c2, r2)
  {
    var s := r1 + r2;
    var dx := c2.x - c1.x;
    var dy := c2.y - c1.y;
    SquareGrows(dx, s);
    assert dy * dy >= 0.0;
  }

  /** Intersecting discs of non-negative radius have overlapping bounding squares, so a
      spatial index keyed by those squares never separates an intersecting pair. */
  lemma IntersectingDiscsHaveOverlappingBoxes(c1: Vec, r1: real, c2: Vec, r2: real)
    requires r1 >= 0.0 && r2 >= 0.0
    requires TestForIntersection(c1, r1, c2, r2)
    ensures FromCenterAndRadius(c1.x, c1.y, r1).Overlaps(FromCenterAndRadius(c2.x, c2.y, r2))
  {
    var s := r1 + r2;
    var dx := c2.x - c1.x;
    var dy := c2.y - c1.y;
    assert dx * dx + dy * dy <= s * s;
    assert dy * dy >= 0.0;
    assert dx * dx >= 0.0;
    WithinSquare(dx, s);
    WithinSquare(dy, s);
  }

  /** If d lies beyond s >= 0 in absolute value, then d * d exceeds s * s. */
  lemma SquareGrows(d: real, s: real)
    requires s >= 0.0 && (d > s || d < -s)
    ensures d * d > s * s
  {
    if d > s {
      ProductPositive(d * d - s * s, d - s, d + s);
    } else {
      ProductPositive(d * d - s * s, -d - s, s - d);
    }
  }

  /** If d * d <= s * s with s >= 0, then -s <= d <= s. */
  lemma WithinSquare(d: real, s: real)
    requires s >= 0.0 && d * d <= s * s
    ensures -s <= d <= s
  {
    if d > s || d < -s {
      SquareGrows(d, s);
    }
  }
}
