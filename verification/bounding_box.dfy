/** source/spatial_partitions/BoundingBox.ts: axis-aligned boxes and their algebra. */
module BoundingBoxes {

  /** An axis-aligned box given by its four boundary coordinates. Nothing forces
      left <= right or bottom <= top: such boxes are the degenerate ones. */
  datatype Box = Box(left: real, right: real, bottom: real, top: real) {

    /** A box is degenerate when it has zero or negative area. */
    predicate IsDegenerate()
    {
      left >= right || bottom >= top
    }

    /** The closed overlap test: boxes that share only an edge or a corner overlap. */
    predicate Overlaps(other: Box)
    {
      other.left <= right && other.right >= left &&
      other.bottom <= top && other.top >= bottom
    }

    /** Whether `other` lies within this box, boundaries included. */
    predicate Contains(other: Box)
    {
      other.left >= left && other.right <= right &&
      other.bottom >= bottom && other.top <= top
    }

    /** Whether the box spans a (possibly empty-area) rectangle: left <= right, bottom <= top. */
    predicate IsProper()
    {
      left <= right && bottom <= top
    }
  }

  /** Builds a box from its four extents, stored verbatim. */
  function FromExtents(left: real, right: real, bottom: real, top: real): (b: Box)
    ensures b.left == left && b.right == right && b.bottom == bottom && b.top == top
  {
    Box(left, right, bottom, top)
  }

  /** Builds a box from a centre and a width and height: the centre is the midpoint and
      the sides have the given lengths. */
  function FromCenterAndSize(centerX: real, centerY: real, width: real, height: real): (b: Box)
    ensures b.right - b.left == width && b.top - b.bottom == height
    ensures b.left + b.right == 2.0 * centerX && b.bottom + b.top == 2.0 * centerY
    ensures width >= 0.0 && height >= 0.0 ==> b.IsProper()
  {
    var w2 := 0.5 * width;
    var h2 := 0.5 * height;
    Box(centerX - w2, centerX + w2, centerY - h2, centerY + h2)
  }

  /** Builds the square [cx - r, cx + r] x [cy - r, cy + r]. */
  function FromCenterAndRadius(centerX: real, centerY: real, radius: real): (b: Box)
    ensures b == FromCenterAndSize(centerX, centerY, 2.0 * radius, 2.0 * radius)
    ensures b.right - b.left == 2.0 * radius && b.top - b.bottom == 2.0 * radius
    ensures radius >= 0.0 ==> b.IsProper()
  {
    Box(centerX - radius, centerX + radius, centerY - radius, centerY + radius)
  }

  function Min(a: real, b: real): real { if a <= b then a else b }
  function Max(a: real, b: real): real { if a >= b then a else b }

  /** The union (bounding hull) of two boxes: it contains both and lies within every box
      that contains both. */
  function Union(first: Box, second: Box): (u: Box)
    ensures u.Contains(first) && u.Contains(second)
    ensures forall c: Box :: c.Contains(first) && c.Contains(second) ==> c.Contains(u)
  {
    Box(Min(first.left, second.left), Max(first.right, second.right),
        Min(first.bottom, second.bottom), Max(first.top, second.top))
  }

  /** The intersection of two boxes: it lies within both and contains every box that lies
      within both. It is computed even when the boxes do not overlap (then it is degenerate). */
  function Intersection(first: Box, second: Box): (i: Box)
    ensures first.Contains(i) && second.Contains(i)
    ensures forall c: Box :: first.Contains(c) && second.Contains(c) ==> i.Contains(c)
  {
    Box(Max(first.left, second.left), Min(first.right, second.right),
        Max(first.bottom, second.bottom), Min(first.top, second.top))
  }

  lemma UnionCommutative(a: Box, b: Box)
    ensures Union(a, b) == Union(b, a)
  {
  }

  lemma IntersectionCommutative(a: Box, b: Box)
    ensures Intersection(a, b) == Intersection(b, a)
  {
  }

  /** Overlap is symmetric, and closed: boxes sharing just an edge overlap. */
  lemma OverlapsSymmetric(a: Box, b: Box)
    ensures a.Overlaps(b) <==> b.Overlaps(a)
  {
  }

  lemma OverlapsClosed(left: real, middle: real, right: real, bottom: real, top: real)
    requires left < middle < right && bottom < top
    ensures Box(left, middle, bottom, top).Overlaps(Box(middle, right, bottom, top))
    ensures Intersection(Box(left, middle, bottom, top), Box(middle, right, bottom, top)).IsDegenerate()
  {
  }

  /** Boxes whose intersection is proper (left <= right and bottom <= top) overlap, so the
      intersection of boxes that do not overlap is degenerate; for proper boxes overlap is
      exactly a proper intersection. */
  lemma OverlapsIffIntersectionProper(a: Box, b: Box)
    ensures Intersection(a, b).IsProper() ==> a.Overlaps(b)
    ensures !a.Overlaps(b) ==> Intersection(a, b).IsDegenerate()
    ensures a.IsProper() && b.IsProper() ==> (a.Overlaps(b) <==> Intersection(a, b).IsProper())
  {
  }

  lemma ContainsReflexive(a: Box)
    ensures a.Contains(a)
  {
  }

  lemma ContainsTransitive(a: Box, b: Box, c: Box)
    requires a.Contains(b) && b.Contains(c)
    ensures a.Contains(c)
  {
  }

  /** A proper inner box overlaps every box containing it. */
  lemma ContainsImpliesOverlaps(outer: Box, inner: Box)
    requires outer.Contains(inner) && inner.IsProper()
    ensures outer.Overlaps(inner) && inner.Overlaps(outer)
  {
  }

  /** A box that overlaps `b` overlaps every box containing `b`. */
  lemma OverlapsMonotone(a: Box, b: Box, c: Box)
    requires a.Contains(b) && b.Overlaps(c)
    ensures a.Overlaps(c)
  {
  }
}
