/** The value-level specification of source/spatial_partitions/Quadtree.ts: the state of a
    whole tree as a datatype, each private recursive operation as a function on it, and the
    properties those operations keep. The linked nodes in Quadtrees are proved to follow it. */
module QuadtreeModel {
  import opened Wrappers
  import opened BoundingBoxes

  /** A node's state: a leaf holds its population array (holes are None) and its active
      count; an internal node holds its centre, its population count and its four children
      in the order SW, SE, NW, NE. */
  datatype Tree<E> =
    | Leaf(bounds: Box, population: seq<Option<E>>, count: int)
    | Node(bounds: Box, centerX: real, centerY: real, count: int, kids: seq<Tree<E>>)

  const SW: int := 0
  const SE: int := 1
  const NW: int := 2
  const NE: int := 3

  /* ---------------------------------------------------------------- geometry */

  /** The centre the constructor computes: left plus half the width, bottom plus half the height. */
  function CenterX(b: Box): real { b.left + 0.5 * (b.right - b.left) }
  function CenterY(b: Box): real { b.bottom + 0.5 * (b.top - b.bottom) }

  /** The bounds the constructor gives quadrant k: a box of half the width and height,
      centred a quarter of the width and height away from the centre. */
  function ChildBounds(b: Box, cx: real, cy: real, k: int): Box
  {
    var w2 := 0.5 * (b.right - b.left);
    var h2 := 0.5 * (b.top - b.bottom);
    var w4 := 0.5 * w2;
    var h4 := 0.5 * h2;
    if k == SW then FromCenterAndSize(cx - w4, cy - h4, w2, h2)
    else if k == SE then FromCenterAndSize(cx + w4, cy - h4, w2, h2)
    else if k == NW then FromCenterAndSize(cx - w4, cy + h4, w2, h2)
    else FromCenterAndSize(cx + w4, cy + h4, w2, h2)
  }

  /** The quadrants are exactly the four closed boxes cut out by the centre lines. */
  lemma ChildBoundsAreQuadrants(b: Box)
    ensures ChildBounds(b, CenterX(b), CenterY(b), SW) == Box(b.left, CenterX(b), b.bottom, CenterY(b))
    ensures ChildBounds(b, CenterX(b), CenterY(b), SE) == Box(CenterX(b), b.right, b.bottom, CenterY(b))
    ensures ChildBounds(b, CenterX(b), CenterY(b), NW) == Box(b.left, CenterX(b), CenterY(b), b.top)
    ensures ChildBounds(b, CenterX(b), CenterY(b), NE) == Box(CenterX(b), b.right, CenterY(b), b.top)
  {
  }

  /** The closed half-plane test by which `_for_each_overlapping_child` picks quadrant k. */
  predicate Selected(r: Box, cx: real, cy: real, k: int)
  {
    if k == SW then r.left <= cx && r.bottom <= cy
    else if k == SE then r.right >= cx && r.bottom <= cy
    else if k == NW then r.left <= cx && r.top >= cy
    else if k == NE then r.right >= cx && r.top >= cy
    else false
  }

  /** `_for_each_overlapping_child`: the quadrants visited, in the order visited (SW, NW, SE,
      NE, each only if its half-plane test passes). */
  function OverlappingChildren(r: Box, cx: real, cy: real): (ks: seq<int>)
    ensures forall k :: k in ks <==> 0 <= k < 4 && Selected(r, cx, cy, k)
    ensures forall i, j :: 0 <= i < j < |ks| ==> ks[i] != ks[j]
  {
    (if r.left <= cx then
       (if r.bottom <= cy then [SW] else []) + (if r.top >= cy then [NW] else [])
     else []) +
    (if r.right >= cx then
       (if r.bottom <= cy then [SE] else []) + (if r.top >= cy then [NE] else [])
     else [])
  }

  /** For a region that overlaps a proper node, the half-plane test selects a quadrant
      exactly when the region overlaps that quadrant's closed bounds. */
  lemma SelectedIffOverlaps(b: Box, r: Box, k: int)
    requires b.IsProper() && r.Overlaps(b) && 0 <= k < 4
    ensures Selected(r, CenterX(b), CenterY(b), k) <==> r.Overlaps(ChildBounds(b, CenterX(b), CenterY(b), k))
    ensures b.Contains(ChildBounds(b, CenterX(b), CenterY(b), k))
    ensures ChildBounds(b, CenterX(b), CenterY(b), k).IsProper()
  {
    ChildBoundsAreQuadrants(b);
  }

  /** Half-plane selection only grows with the region. */
  lemma SelectedMonotone(r: Box, big: Box, cx: real, cy: real, k: int)
    requires big.Contains(r) && Selected(r, cx, cy, k)
    ensures Selected(big, cx, cy, k)
  {
  }

  /* ---------------------------------------------------------------- construction */

  /** The tree the constructor builds: depth is clamped to at least 1, a node of depth 1 is
      a leaf with an empty two-slot array, and every other node has four empty children of
      depth one less. */
  function Build<E>(depth: int, b: Box): (t: Tree<E>)
    ensures t.bounds == b && t.count == 0 && WF(t) && Shaped(t)
    ensures HasDepth(t, if depth <= 1 then 1 else depth)
    decreases depth
  {
    if depth <= 1 then Leaf(b, [None, None], 0)
    else
      var cx := CenterX(b);
      var cy := CenterY(b);
      var kids := seq(4, k requires 0 <= k < 4 => Build(depth - 1, ChildBounds(b, cx, cy, k)));
      KidsCountZero(kids);
      Node(b, cx, cy, 0, kids)
  }

  /** The four children `Build` gives a node of depth at least 2, and the node it builds. */
  function BuildKids<E>(depth: int, b: Box): (kids: seq<Tree<E>>)
    requires depth > 1
    ensures |kids| == 4 && Build(depth, b) == Node(b, CenterX(b), CenterY(b), 0, kids)
    ensures forall k :: 0 <= k < 4 ==> kids[k] == Build(depth - 1, ChildBounds(b, CenterX(b), CenterY(b), k))
  {
    Build(depth, b).kids
  }

  /** Every node has uniform depth d >= 1 below it, and is a leaf exactly at depth 1. */
  predicate HasDepth<E>(t: Tree<E>, d: int)
  {
    d >= 1 && (t.Leaf? <==> d == 1) &&
    (t.Node? ==> forall k :: 0 <= k < |t.kids| ==> HasDepth(t.kids[k], d - 1))
  }

  /** The geometric shape the constructor gives a node and all its descendants. */
  predicate Shaped<E>(t: Tree<E>)
  {
    t.Node? ==>
      |t.kids| == 4 && t.centerX == CenterX(t.bounds) && t.centerY == CenterY(t.bounds) &&
      forall k :: 0 <= k < 4 ==>
        t.kids[k].bounds == ChildBounds(t.bounds, t.centerX, t.centerY, k) && Shaped(t.kids[k])
  }

  /** Two trees with the same nodes, bounds and centres (populations may differ). */
  predicate SameShape<E>(a: Tree<E>, b: Tree<E>)
  {
    a.bounds == b.bounds &&
    match a
    case Leaf(_, _, _) => b.Leaf?
    case Node(_, cx, cy, _, kids) =>
      b.Node? && b.centerX == cx && b.centerY == cy && |b.kids| == |kids| &&
      forall k :: 0 <= k < |kids| ==> SameShape(kids[k], b.kids[k])
  }

  /* ---------------------------------------------------------------- well-formedness */

  predicate NoDup<T(==)>(s: seq<T>)
  {
    forall i, j :: 0 <= i < j < |s| ==> s[i] != s[j]
  }

  /** A leaf's active prefix: the first `count` slots, all filled and pairwise distinct. */
  predicate LeafWF<E(==)>(population: seq<Option<E>>, count: int)
  {
    0 <= count <= |population| &&
    (forall i :: 0 <= i < count ==> population[i].Some?) &&
    NoDup(population[..count])
  }

  /** The sum of the children's population counts. */
  function KidsCount<E>(kids: seq<Tree<E>>): int
  {
    if |kids| == 0 then 0 else KidsCount(kids[..|kids| - 1]) + kids[|kids| - 1].count
  }

  /** The counting invariant: every leaf's active prefix is well formed, and every internal
      node's count is the sum of its children's counts. */
  predicate WF<E(==)>(t: Tree<E>)
  {
    match t
    case Leaf(_, pop, c) => LeafWF(pop, c)
    case Node(_, _, _, c, kids) => c == KidsCount(kids) && forall k :: 0 <= k < |kids| ==> WF(kids[k])
  }

  lemma KidsCountUpdate<E>(kids: seq<Tree<E>>, k: int, x: Tree<E>)
    requires 0 <= k < |kids|
    ensures KidsCount(kids[k := x]) == KidsCount(kids) - kids[k].count + x.count
  {
    if k < |kids| - 1 {
      KidsCountUpdate(kids[..|kids| - 1], k, x);
      assert kids[k := x][..|kids| - 1] == kids[..|kids| - 1][k := x];
    } else {
      assert kids[k := x][..|kids| - 1] == kids[..|kids| - 1];
    }
  }

  lemma KidsCountNonNegative<E>(kids: seq<Tree<E>>)
    requires forall k :: 0 <= k < |kids| ==> kids[k].count >= 0
    ensures KidsCount(kids) >= 0
    ensures forall k :: 0 <= k < |kids| ==> kids[k].count <= KidsCount(kids)
  {
    if |kids| > 0 {
      KidsCountNonNegative(kids[..|kids| - 1]);
    }
  }

  /** Counts are never negative in a well-formed tree. */
  lemma {:induction false} CountNonNegative<E>(t: Tree<E>)
    requires WF(t)
    ensures t.count >= 0
    ensures t.Node? ==> forall k :: 0 <= k < |t.kids| ==> 0 <= t.kids[k].count <= t.count
  {
    if t.Node? {
      forall k | 0 <= k < |t.kids| {
        CountNonNegative(t.kids[k]);
      }
      KidsCountNonNegative(t.kids);
    }
  }

  /* ---------------------------------------------------------------- leaf operations */

  /** `indexOf`: the first slot holding `x`, or -1; holes never match. */
  function IndexOf<E(==)>(pop: seq<Option<E>>, x: E): (i: int)
    ensures -1 <= i < |pop|
    ensures i == -1 <==> Some(x) !in pop
    ensures i >= 0 ==> pop[i] == Some(x) && Some(x) !in pop[..i]
  {
    if |pop| == 0 then -1
    else if pop[0] == Some(x) then 0
    else
      var j := IndexOf(pop[1..], x);
      if j == -1 then -1
      else
        assert pop[..j + 1] == [pop[0]] + pop[1..][..j];
        j + 1
  }

  /** Whether `x` is among a leaf's active entries. */
  predicate IsActive<E(==)>(pop: seq<Option<E>>, count: int, x: E)
  {
    0 <= count <= |pop| && Some(x) in pop[..count]
  }

  /** The test `_associate` and `_disassociate` make: indexOf finds `x` before `count`. */
  lemma IndexOfActive<E>(pop: seq<Option<E>>, count: int, x: E)
    requires 0 <= count <= |pop|
    ensures var i := IndexOf(pop, x); (i != -1 && i < count) <==> IsActive(pop, count, x)
  {
    var i := IndexOf(pop, x);
    if i != -1 && i < count {
      assert pop[..count][i] == Some(x);
    }
    if IsActive(pop, count, x) {
      var j :| 0 <= j < count && pop[..count][j] == Some(x);
      assert pop[j] == Some(x);
    }
  }

  /** `_add`: write into slot `count` when the array is longer than the active prefix,
      otherwise push; then increment the count. */
  function LeafAdd<E>(pop: seq<Option<E>>, count: int, x: E): (r: (seq<Option<E>>, int))
    requires 0 <= count <= |pop|
    ensures r.1 == count + 1 && r.1 <= |r.0|
    ensures r.0[..r.1] == pop[..count] + [Some(x)]
    ensures count < |pop| ==> |r.0| == |pop|
    ensures count == |pop| ==> |r.0| == |pop| + 1
  {
    if count < |pop| then (pop[count := Some(x)], count + 1)
    else (pop + [Some(x)], count + 1)
  }

  /** `_remove`: splice the slot out unless it is the last active one, then decrement. */
  function LeafRemove<E>(pop: seq<Option<E>>, count: int, i: int): (r: (seq<Option<E>>, int))
    requires 0 <= i < count <= |pop|
    ensures r.1 == count - 1 && 0 <= r.1 <= |r.0|
    ensures r.0[..r.1] == pop[..i] + pop[i + 1..count]
  {
    if i < count - 1 then
      var p := pop[..i] + pop[i + 1..];
      assert p[..count - 1] == pop[..i] + pop[i + 1..count];
      (p, count - 1)
    else
      assert pop[i + 1..count] == [];
      (pop, count - 1)
  }

  /** The leaf case of `_associate`: add `x` unless it is already active. */
  function LeafAssociate<E(==)>(pop: seq<Option<E>>, count: int, x: E): (r: (seq<Option<E>>, int))
    requires 0 <= count <= |pop|
  {
    var i := IndexOf(pop, x);
    if i == -1 || i >= count then LeafAdd(pop, count, x) else (pop, count)
  }

  /** The leaf case of `_disassociate`: remove `x` if it is active. */
  function LeafDisassociate<E(==)>(pop: seq<Option<E>>, count: int, x: E): (r: (seq<Option<E>>, int))
    requires 0 <= count <= |pop|
  {
    var i := IndexOf(pop, x);
    if i != -1 && i < count then LeafRemove(pop, count, i) else (pop, count)
  }

  /** Adding a new entry keeps the active prefix well formed, and makes exactly `x` newly active. */
  lemma LeafAssociateSpec<E>(pop: seq<Option<E>>, count: int, x: E)
    requires LeafWF(pop, count)
    ensures var r := LeafAssociate(pop, count, x);
      LeafWF(r.0, r.1) &&
      (forall y :: IsActive(r.0, r.1, y) <==> IsActive(pop, count, y) || y == x) &&
      (IsActive(pop, count, x) ==> r == (pop, count)) &&
      (!IsActive(pop, count, x) ==> r.0[..r.1] == pop[..count] + [Some(x)])
  {
    IndexOfActive(pop, count, x);
    var r := LeafAssociate(pop, count, x);
    if !IsActive(pop, count, x) {
      var s := pop[..count] + [Some(x)];
      assert r.0[..r.1] == s;
      forall i, j | 0 <= i < j < |s|
        ensures s[i] != s[j]
      {
        if j == count {
          assert s[i] == pop[..count][i];
        }
      }
      forall y
        ensures IsActive(r.0, r.1, y) <==> IsActive(pop, count, y) || y == x
      {
        assert Some(y) in s <==> Some(y) in pop[..count] || Some(y) == Some(x);
      }
    }
  }

  /** Removing an entry keeps the active prefix well formed, and makes exactly `x` inactive. */
  lemma LeafDisassociateSpec<E>(pop: seq<Option<E>>, count: int, x: E)
    requires LeafWF(pop, count)
    ensures var r := LeafDisassociate(pop, count, x);
      LeafWF(r.0, r.1) &&
      (forall y :: IsActive(r.0, r.1, y) <==> IsActive(pop, count, y) && y != x) &&
      (!IsActive(pop, count, x) ==> r == (pop, count)) &&
      (IsActive(pop, count, x) ==> r.1 == count - 1)
  {
    IndexOfActive(pop, count, x);
    var r := LeafDisassociate(pop, count, x);
    if IsActive(pop, count, x) {
      var i := IndexOf(pop, x);
      var a := pop[..count];
      assert r.0[..r.1] == a[..i] + a[i + 1..];
      assert a[i] == Some(x);
      SpliceDistinct(a, i);
      forall m | 0 <= m < r.1
        ensures r.0[m].Some?
      {
        assert r.0[m] == r.0[..r.1][m];
      }
    }
  }

  /** Splicing slot i out of a duplicate-free run of entries leaves a duplicate-free run
      holding every entry but that one. */
  lemma SpliceDistinct<E>(a: seq<Option<E>>, i: int)
    requires NoDup(a) && 0 <= i < |a| && forall m :: 0 <= m < |a| ==> a[m].Some?
    ensures var s := a[..i] + a[i + 1..];
      NoDup(s) && (forall m :: 0 <= m < |s| ==> s[m].Some?) &&
      forall y :: Some(y) in s <==> Some(y) in a && Some(y) != a[i]
  {
    var s := a[..i] + a[i + 1..];
    forall m | 0 <= m < |s|
      ensures s[m] == if m < i then a[m] else a[m + 1]
    {
    }
    forall y
      ensures Some(y) in s <==> Some(y) in a && Some(y) != a[i]
    {
      if Some(y) in s {
        var m :| 0 <= m < |s| && s[m] == Some(y);
      }
      if Some(y) in a && Some(y) != a[i] {
        var m :| 0 <= m < |a| && a[m] == Some(y);
        if m < i { assert s[m] == Some(y); } else { assert s[m - 1] == Some(y); }
      }
    }
  }

  /* ---------------------------------------------------------------- shape */

  lemma SameShapeReflexive<E>(t: Tree<E>)
    ensures SameShape(t, t)
  {
  }

  lemma SameShapeReflexiveAll<E>(kids: seq<Tree<E>>)
    ensures forall k :: 0 <= k < |kids| ==> SameShape(kids[k], kids[k])
  {
    forall k | 0 <= k < |kids| {
      SameShapeReflexive(kids[k]);
    }
  }

  lemma SameShapeTransitive<E>(a: Tree<E>, b: Tree<E>, c: Tree<E>)
    requires SameShape(a, b) && SameShape(b, c)
    ensures SameShape(a, c)
  {
  }

  lemma SameShapeKeepsShaped<E>(a: Tree<E>, b: Tree<E>)
    requires SameShape(a, b) && Shaped(a)
    ensures Shaped(b)
  {
  }

  /* ---------------------------------------------------------------- the private operations */

  /** `_associate`: in a leaf, add the entity unless it is already active; in an internal
      node, recurse into the quadrants the region selects and add up the changes. */
  function Associate<E(==)>(t: Tree<E>, e: E, r: Box): (t2: Tree<E>)
    requires WF(t)
    ensures WF(t2) && SameShape(t, t2)
  {
    match t
    case Leaf(b, pop, c) =>
      LeafAssociateSpec(pop, c, e);
      var p := LeafAssociate(pop, c, e);
      Leaf(b, p.0, p.1)
    case Node(b, cx, cy, c, kids) =>
      SameShapeReflexiveAll(kids);
      var kids2 := seq(|kids|, k requires 0 <= k < |kids| =>
        if Selected(r, cx, cy, k) then Associate(kids[k], e, r) else kids[k]);
      Node(b, cx, cy, c + KidsCount(kids2) - KidsCount(kids), kids2)
  }

  /** `_disassociate`: in a leaf, remove the entity if it is active; in an internal node,
      recurse into the quadrants the region selects and add up the (negative) changes. */
  function Disassociate<E(==)>(t: Tree<E>, e: E, r: Box): (t2: Tree<E>)
    requires WF(t)
    ensures WF(t2) && SameShape(t, t2)
  {
    match t
    case Leaf(b, pop, c) =>
      LeafDisassociateSpec(pop, c, e);
      var p := LeafDisassociate(pop, c, e);
      Leaf(b, p.0, p.1)
    case Node(b, cx, cy, c, kids) =>
      SameShapeReflexiveAll(kids);
      var kids2 := seq(|kids|, k requires 0 <= k < |kids| =>
        if Selected(r, cx, cy, k) then Disassociate(kids[k], e, r) else kids[k]);
      Node(b, cx, cy, c + KidsCount(kids2) - KidsCount(kids), kids2)
  }

  /** `_move`: an internal node lying inside the intersection is left alone, otherwise the
      walk follows the union; a leaf lying around the union, or overlapping both regions, is
      left alone; a leaf overlapping only the previous region loses the entity, and one
      overlapping only the current region gains it. */
  function Move<E(==)>(t: Tree<E>, e: E, previous: Box, current: Box, union: Box, inter: Box): (t2: Tree<E>)
    requires WF(t)
    ensures WF(t2) && SameShape(t, t2)
  {
    match t
    case Leaf(b, pop, c) =>
      SameShapeReflexive(t);
      LeafAssociateSpec(pop, c, e);
      LeafDisassociateSpec(pop, c, e);
      var overlapsPrevious := previous.Overlaps(b);
      var overlapsCurrent := current.Overlaps(b);
      if b.Contains(union) || (overlapsPrevious && overlapsCurrent) then t
      else if overlapsPrevious then
        var p := LeafDisassociate(pop, c, e);
        Leaf(b, p.0, p.1)
      else if overlapsCurrent then
        var p := LeafAssociate(pop, c, e);
        Leaf(b, p.0, p.1)
      else t
    case Node(b, cx, cy, c, kids) =>
      if inter.Contains(b) then SameShapeReflexive(t); t
      else
        SameShapeReflexiveAll(kids);
        var kids2 := seq(|kids|, k requires 0 <= k < |kids| =>
          if Selected(union, cx, cy, k) then Move(kids[k], e, previous, current, union, inter)
          else kids[k]);
        Node(b, cx, cy, c + KidsCount(kids2) - KidsCount(kids), kids2)
  }

  /** `_clear`: a node whose count is already zero is left alone; otherwise every child is
      cleared and the count set to zero (a leaf's array is kept). */
  function Clear<E(==)>(t: Tree<E>): (t2: Tree<E>)
    requires WF(t)
    ensures WF(t2) && SameShape(t, t2) && t2.count == 0
  {
    if t.count == 0 then SameShapeReflexive(t); t
    else
      match t
      case Leaf(b, pop, _) => Leaf(b, pop, 0)
      case Node(b, cx, cy, _, kids) =>
        var kids2 := seq(|kids|, k requires 0 <= k < |kids| => Clear(kids[k]));
        KidsCountZero(kids2);
        Node(b, cx, cy, 0, kids2)
  }

  lemma KidsCountZero<E>(kids: seq<Tree<E>>)
    requires forall k :: 0 <= k < |kids| ==> kids[k].count == 0
    ensures KidsCount(kids) == 0
  {
  }

  /* ---------------------------------------------------------------- the public operations */

  datatype QuadtreeError = NotRoot

  /** `add` on the root: associate only when the region overlaps the root bounds, and report
      whether it did. */
  function Add<E(==)>(t: Tree<E>, e: E, r: Box): (result: (Tree<E>, bool))
    requires WF(t)
    ensures result.1 <==> r.Overlaps(t.bounds)
    ensures !result.1 ==> result.0 == t
    ensures WF(result.0) && SameShape(t, result.0)
  {
    SameShapeReflexive(t);
    if r.Overlaps(t.bounds) then (Associate(t, e, r), true) else (t, false)
  }

  /** `remove` on the root: disassociate only when the region overlaps the root bounds. */
  function Remove<E(==)>(t: Tree<E>, e: E, r: Box): (result: (Tree<E>, bool))
    requires WF(t)
    ensures result.1 <==> r.Overlaps(t.bounds)
    ensures !result.1 ==> result.0 == t
    ensures WF(result.0) && SameShape(t, result.0)
  {
    SameShapeReflexive(t);
    if r.Overlaps(t.bounds) then (Disassociate(t, e, r), true) else (t, false)
  }

  /** `move` on the root: when the current region misses the root, disassociate with the
      previous region and report false; otherwise, when the two regions' intersection is
      degenerate, disassociate then associate; otherwise take the pruned `_move` walk. */
  function MoveRoot<E(==)>(t: Tree<E>, e: E, previous: Box, current: Box): (result: (Tree<E>, bool))
    requires WF(t)
    ensures result.1 <==> current.Overlaps(t.bounds)
    ensures WF(result.0) && SameShape(t, result.0)
  {
    if current.Overlaps(t.bounds) then
      var inter := Intersection(previous, current);
      if inter.IsDegenerate() then
        var t1 := Disassociate(t, e, previous);
        var t2 := Associate(t1, e, current);
        SameShapeTransitive(t, t1, t2);
        (t2, true)
      else (Move(t, e, previous, current, Union(previous, current), inter), true)
    else (Disassociate(t, e, previous), false)
  }

  /** `clear` on the root. */
  function ClearRoot<E(==)>(t: Tree<E>): (t2: Tree<E>)
    requires WF(t)
    ensures WF(t2) && SameShape(t, t2)
  {
    Clear(t)
  }

  /* ---------------------------------------------------------------- one child at a time */

  /** The three walks `_for_each_overlapping_child` drives, each with the callback it is
      given: recursing into `_associate`, `_disassociate` or `_move`. */
  datatype Walk<E> =
    | AssociateWalk(e: E, region: Box)
    | DisassociateWalk(e: E, region: Box)
    | MoveWalk(e: E, previous: Box, current: Box, union: Box, inter: Box)

  /** The region whose half-plane test picks the children: the union, for a move. */
  function WalkRegion<E>(w: Walk<E>): Box
  {
    if w.MoveWalk? then w.union else w.region
  }

  function ApplyWalk<E(==)>(w: Walk<E>, t: Tree<E>): (t2: Tree<E>)
    requires WF(t)
    ensures WF(t2) && SameShape(t, t2)
  {
    match w
    case AssociateWalk(e, r) => Associate(t, e, r)
    case DisassociateWalk(e, r) => Disassociate(t, e, r)
    case MoveWalk(e, p, c, u, i) => Move(t, e, p, c, u, i)
  }

  /** The children once the walk has visited the first `i` of the selected quadrants `ks`. */
  function WalkedKids<E(==)>(w: Walk<E>, kids: seq<Tree<E>>, ks: seq<int>, i: int): (kids2: seq<Tree<E>>)
    requires forall k :: 0 <= k < |kids| ==> WF(kids[k])
    requires 0 <= i <= |ks|
    ensures |kids2| == |kids| && forall k :: 0 <= k < |kids| ==> WF(kids2[k])
  {
    seq(|kids|, k requires 0 <= k < |kids| => if k in ks[..i] then ApplyWalk(w, kids[k]) else kids[k])
  }

  /** Visiting the next selected quadrant finds it untouched and updates only it. */
  lemma WalkedKidsStep<E>(w: Walk<E>, kids: seq<Tree<E>>, ks: seq<int>, i: int)
    requires forall k :: 0 <= k < |kids| ==> WF(kids[k])
    requires NoDup(ks) && 0 <= i < |ks| && 0 <= ks[i] < |kids|
    ensures WalkedKids(w, kids, ks, i)[ks[i]] == kids[ks[i]]
    ensures WalkedKids(w, kids, ks, i)[ks[i] := ApplyWalk(w, kids[ks[i]])] == WalkedKids(w, kids, ks, i + 1)
  {
    assert ks[..i + 1] == ks[..i] + [ks[i]];
    assert ks[i] !in ks[..i];
  }

  /** The children with exactly the quadrants the region's half-plane test selects walked. */
  function SelectedKids<E(==)>(w: Walk<E>, kids: seq<Tree<E>>, cx: real, cy: real): (kids2: seq<Tree<E>>)
    requires forall k :: 0 <= k < |kids| ==> WF(kids[k])
    ensures |kids2| == |kids| && forall k :: 0 <= k < |kids| ==> WF(kids2[k])
  {
    seq(|kids|, k requires 0 <= k < |kids| =>
      if Selected(WalkRegion(w), cx, cy, k) then ApplyWalk(w, kids[k]) else kids[k])
  }

  /** Once the walk has visited every quadrant `_for_each_overlapping_child` lists, exactly
      the selected quadrants have been walked. */
  lemma WalkedKidsSelected<E>(w: Walk<E>, kids: seq<Tree<E>>, cx: real, cy: real)
    requires forall k :: 0 <= k < |kids| ==> WF(kids[k])
    requires |kids| == 4
    ensures var ks := OverlappingChildren(WalkRegion(w), cx, cy);
      WalkedKids(w, kids, ks, |ks|) == SelectedKids(w, kids, cx, cy)
  {
    var ks := OverlappingChildren(WalkRegion(w), cx, cy);
    assert ks[..|ks|] == ks;
  }

  /** Each kind of walk, at an internal node it does not stop at, walks the selected
      children and moves the count by their changes. */
  lemma ApplyWalkNode<E>(w: Walk<E>, t: Tree<E>)
    requires WF(t) && t.Node?
    requires !(w.MoveWalk? && w.inter.Contains(t.bounds))
    ensures var kids2 := SelectedKids(w, t.kids, t.centerX, t.centerY);
      ApplyWalk(w, t) == Node(t.bounds, t.centerX, t.centerY, t.count + KidsCount(kids2) - KidsCount(t.kids), kids2)
  {
    var kids2 := SelectedKids(w, t.kids, t.centerX, t.centerY);
    var t2 := ApplyWalk(w, t);
    assert t2.Node? && |t2.kids| == |kids2|;
    forall k | 0 <= k < |kids2|
      ensures t2.kids[k] == kids2[k]
    {
      WalkKid(w, t, k);
    }
    assert t2.kids == kids2;
  }

  /** One child of a walked internal node. */
  lemma WalkKid<E>(w: Walk<E>, t: Tree<E>, k: int)
    requires WF(t) && t.Node? && 0 <= k < |t.kids|
    requires !(w.MoveWalk? && w.inter.Contains(t.bounds))
    ensures ApplyWalk(w, t).kids[k] ==
      if Selected(WalkRegion(w), t.centerX, t.centerY, k) then ApplyWalk(w, t.kids[k]) else t.kids[k]
  {
  }

  /** An internal node's walk is the walk of its selected children, in the order
      `_for_each_overlapping_child` visits them, with the count moved by their changes
      (unless a move stops at a node inside the intersection). */
  lemma WalkNode<E>(w: Walk<E>, t: Tree<E>)
    requires WF(t) && t.Node? && |t.kids| == 4
    requires !(w.MoveWalk? && w.inter.Contains(t.bounds))
    ensures var ks := OverlappingChildren(WalkRegion(w), t.centerX, t.centerY);
      var kids2 := WalkedKids(w, t.kids, ks, |ks|);
      ApplyWalk(w, t) == Node(t.bounds, t.centerX, t.centerY, t.count + KidsCount(kids2) - KidsCount(t.kids), kids2)
  {
    WalkedKidsSelected(w, t.kids, t.centerX, t.centerY);
    ApplyWalkNode(w, t);
  }

  /** The children once `_clear` has visited the first `i` of them. */
  function ClearedKids<E(==)>(kids: seq<Tree<E>>, i: int): (kids2: seq<Tree<E>>)
    requires forall k :: 0 <= k < |kids| ==> WF(kids[k])
    ensures |kids2| == |kids| && forall k :: 0 <= k < |kids| ==> WF(kids2[k])
  {
    seq(|kids|, k requires 0 <= k < |kids| => if k < i then Clear(kids[k]) else kids[k])
  }

  lemma ClearedKidsStep<E>(kids: seq<Tree<E>>, i: int)
    requires forall k :: 0 <= k < |kids| ==> WF(kids[k])
    requires 0 <= i < |kids|
    ensures ClearedKids(kids, i)[i] == kids[i]
    ensures ClearedKids(kids, i)[i := Clear(kids[i])] == ClearedKids(kids, i + 1)
  {
  }

  /** Clearing a non-empty internal node clears every child and zeroes the count. */
  lemma ClearNode<E>(t: Tree<E>)
    requires WF(t) && t.Node? && t.count != 0
    ensures Clear(t) == Node(t.bounds, t.centerX, t.centerY, 0, ClearedKids(t.kids, |t.kids|))
  {
  }

  /* ---------------------------------------------------------------- leaves and membership */

  /** A path of quadrant indices from a node down to one of its leaves. */
  predicate IsLeafPath<E>(t: Tree<E>, p: seq<int>)
  {
    match t
    case Leaf(_, _, _) => p == []
    case Node(_, _, _, _, kids) => |p| > 0 && 0 <= p[0] < |kids| && IsLeafPath(kids[p[0]], p[1..])
  }

  /** The bounds of the leaf at the end of a path. */
  function LeafBoundsAt<E>(t: Tree<E>, p: seq<int>): Box
    requires IsLeafPath(t, p)
  {
    match t
    case Leaf(b, _, _) => b
    case Node(_, _, _, _, kids) => LeafBoundsAt(kids[p[0]], p[1..])
  }

  /** Whether `x` is active in the leaf at the end of path `p`. */
  predicate ActiveAt<E(==)>(t: Tree<E>, p: seq<int>, x: E)
  {
    match t
    case Leaf(_, pop, c) => p == [] && IsActive(pop, c, x)
    case Node(_, _, _, _, kids) => |p| > 0 && 0 <= p[0] < |kids| && ActiveAt(kids[p[0]], p[1..], x)
  }

  /** Whether the half-plane walk for region `r` reaches the leaf at the end of path `p`. */
  predicate Reached<E>(t: Tree<E>, r: Box, p: seq<int>)
  {
    match t
    case Leaf(_, _, _) => p == []
    case Node(_, cx, cy, _, kids) =>
      |p| > 0 && 0 <= p[0] < |kids| && Selected(r, cx, cy, p[0]) && Reached(kids[p[0]], r, p[1..])
  }

  lemma {:induction false} ActiveAtIsLeafPath<E>(t: Tree<E>, p: seq<int>, x: E)
    requires ActiveAt(t, p, x)
    ensures IsLeafPath(t, p)
  {
    if t.Node? {
      ActiveAtIsLeafPath(t.kids[p[0]], p[1..], x);
    }
  }

  lemma {:induction false} ReachedIsLeafPath<E>(t: Tree<E>, r: Box, p: seq<int>)
    requires Reached(t, r, p)
    ensures IsLeafPath(t, p)
  {
    if t.Node? {
      ReachedIsLeafPath(t.kids[p[0]], r, p[1..]);
    }
  }

  /** Trees of the same shape have the same leaves, leaf bounds and walks. */
  lemma {:induction false} SameShapePaths<E>(a: Tree<E>, b: Tree<E>, r: Box, p: seq<int>)
    requires SameShape(a, b)
    ensures IsLeafPath(a, p) <==> IsLeafPath(b, p)
    ensures IsLeafPath(a, p) ==> LeafBoundsAt(a, p) == LeafBoundsAt(b, p)
    ensures Reached(a, r, p) <==> Reached(b, r, p)
  {
    if a.Node? && |p| > 0 && 0 <= p[0] < |a.kids| {
      SameShapePaths(a.kids[p[0]], b.kids[p[0]], r, p[1..]);
    }
  }

  /** Every leaf of a shaped node with proper bounds is a proper box inside the node. */
  lemma {:induction false} LeafInside<E>(t: Tree<E>, p: seq<int>)
    requires Shaped(t) && t.bounds.IsProper() && IsLeafPath(t, p)
    ensures t.bounds.Contains(LeafBoundsAt(t, p)) && LeafBoundsAt(t, p).IsProper()
  {
    if t.Node? {
      var k := p[0];
      SelectedIffOverlaps(t.bounds, t.bounds, k);
      LeafInside(t.kids[k], p[1..]);
    }
  }

  /** For a region overlapping a shaped node with proper bounds, the half-plane walk reaches
      exactly the leaves whose closed bounds the region overlaps. */
  lemma {:induction false} ReachedIffOverlaps<E>(t: Tree<E>, r: Box, p: seq<int>)
    requires Shaped(t) && t.bounds.IsProper() && IsLeafPath(t, p) && r.Overlaps(t.bounds)
    ensures Reached(t, r, p) <==> r.Overlaps(LeafBoundsAt(t, p))
  {
    if t.Node? {
      var k := p[0];
      var kid := t.kids[k];
      SelectedIffOverlaps(t.bounds, r, k);
      LeafInside(kid, p[1..]);
      if Selected(r, t.centerX, t.centerY, k) {
        ReachedIffOverlaps(kid, r, p[1..]);
      } else if r.Overlaps(LeafBoundsAt(t, p)) {
        OverlapsSymmetric(r, LeafBoundsAt(t, p));
        OverlapsMonotone(kid.bounds, LeafBoundsAt(t, p), r);
        OverlapsSymmetric(r, kid.bounds);
      }
    }
  }

  /** A region overlapping some leaf of a node overlaps the node. */
  lemma OverlapsLeafOverlapsRoot<E>(t: Tree<E>, r: Box, p: seq<int>)
    requires Shaped(t) && t.bounds.IsProper() && IsLeafPath(t, p) && r.Overlaps(LeafBoundsAt(t, p))
    ensures r.Overlaps(t.bounds)
  {
    LeafInside(t, p);
  }

  /** `_associate` makes `e` active in exactly the leaves its walk reaches, and changes
      nothing else. */
  lemma {:induction false} AssociateMembership<E>(t: Tree<E>, e: E, r: Box)
    requires WF(t)
    ensures forall p, x :: ActiveAt(Associate(t, e, r), p, x) <==> ActiveAt(t, p, x) || (x == e && Reached(t, r, p))
  {
    var t2 := Associate(t, e, r);
    match t
    case Leaf(_, pop, c) =>
      LeafAssociateSpec(pop, c, e);
    case Node(_, cx, cy, _, kids) =>
      forall p, x
        ensures ActiveAt(t2, p, x) <==> ActiveAt(t, p, x) || (x == e && Reached(t, r, p))
      {
        if |p| > 0 && 0 <= p[0] < |kids| && Selected(r, cx, cy, p[0]) {
          AssociateMembership(kids[p[0]], e, r);
        }
      }
  }

  /** `_disassociate` makes `e` inactive in exactly the leaves its walk reaches, and changes
      nothing else. */
  lemma {:induction false} DisassociateMembership<E>(t: Tree<E>, e: E, r: Box)
    requires WF(t)
    ensures forall p, x :: ActiveAt(Disassociate(t, e, r), p, x) <==> ActiveAt(t, p, x) && !(x == e && Reached(t, r, p))
  {
    var t2 := Disassociate(t, e, r);
    match t
    case Leaf(_, pop, c) =>
      LeafDisassociateSpec(pop, c, e);
    case Node(_, cx, cy, _, kids) =>
      forall p, x
        ensures ActiveAt(t2, p, x) <==> ActiveAt(t, p, x) && !(x == e && Reached(t, r, p))
      {
        if |p| > 0 && 0 <= p[0] < |kids| && Selected(r, cx, cy, p[0]) {
          DisassociateMembership(kids[p[0]], e, r);
        }
      }
  }

  /** After `add(e, r)` on a tree where `e` is absent, `e` is active in exactly the leaves
      whose closed bounds overlap `r`, and every other entity stays where it was. */
  lemma AddPlacesEntity<E>(t: Tree<E>, e: E, r: Box)
    requires WF(t) && Shaped(t) && t.bounds.IsProper()
    requires forall p :: !ActiveAt(t, p, e)
    ensures forall p :: IsLeafPath(t, p) ==> (ActiveAt(Add(t, e, r).0, p, e) <==> r.Overlaps(LeafBoundsAt(t, p)))
    ensures forall p, x :: x != e ==> (ActiveAt(Add(t, e, r).0, p, x) <==> ActiveAt(t, p, x))
  {
    AssociateMembership(t, e, r);
    forall p | IsLeafPath(t, p)
      ensures ActiveAt(Add(t, e, r).0, p, e) <==> r.Overlaps(LeafBoundsAt(t, p))
    {
      if r.Overlaps(t.bounds) {
        ReachedIffOverlaps(t, r, p);
      } else if r.Overlaps(LeafBoundsAt(t, p)) {
        OverlapsLeafOverlapsRoot(t, r, p);
      }
    }
  }

  /** `remove(e, r)` makes `e` inactive in exactly the leaves whose closed bounds overlap `r`,
      and every other entity stays where it was. */
  lemma RemoveTakesEntity<E>(t: Tree<E>, e: E, r: Box)
    requires WF(t) && Shaped(t) && t.bounds.IsProper()
    ensures forall p :: IsLeafPath(t, p) ==>
      (ActiveAt(Remove(t, e, r).0, p, e) <==> ActiveAt(t, p, e) && !r.Overlaps(LeafBoundsAt(t, p)))
    ensures forall p, x :: x != e ==> (ActiveAt(Remove(t, e, r).0, p, x) <==> ActiveAt(t, p, x))
  {
    DisassociateMembership(t, e, r);
    forall p | IsLeafPath(t, p)
      ensures ActiveAt(Remove(t, e, r).0, p, e) <==> ActiveAt(t, p, e) && !r.Overlaps(LeafBoundsAt(t, p))
    {
      if r.Overlaps(t.bounds) {
        ReachedIffOverlaps(t, r, p);
      } else if r.Overlaps(LeafBoundsAt(t, p)) {
        OverlapsLeafOverlapsRoot(t, r, p);
      }
    }
  }

  /* ---------------------------------------------------------------- move */

  /** Whether the leaves holding `e` are exactly those whose bounds overlap `r`. */
  ghost predicate MatchesRegion<E>(t: Tree<E>, e: E, r: Box)
  {
    forall p :: IsLeafPath(t, p) ==> (ActiveAt(t, p, e) <==> r.Overlaps(LeafBoundsAt(t, p)))
  }

  lemma MatchesRegionKid<E>(t: Tree<E>, e: E, r: Box, k: int)
    requires t.Node? && 0 <= k < |t.kids| && MatchesRegion(t, e, r)
    ensures MatchesRegion(t.kids[k], e, r)
  {
    forall q | IsLeafPath(t.kids[k], q)
      ensures ActiveAt(t.kids[k], q, e) <==> r.Overlaps(LeafBoundsAt(t.kids[k], q))
    {
      var p := [k] + q;
      assert p[0] == k && p[1..] == q;
      assert IsLeafPath(t, p);
    }
  }

  /** A region that misses a node misses every leaf below it, and so does any region the
      first one contains. */
  lemma MissesBelow<E>(t: Tree<E>, big: Box, r: Box, p: seq<int>)
    requires Shaped(t) && t.bounds.IsProper() && IsLeafPath(t, p)
    requires !big.Overlaps(t.bounds) && big.Contains(r)
    ensures !r.Overlaps(LeafBoundsAt(t, p))
  {
    if r.Overlaps(LeafBoundsAt(t, p)) {
      OverlapsLeafOverlapsRoot(t, r, p);
      OverlapsSymmetric(r, t.bounds);
      OverlapsMonotone(big, r, t.bounds);
    }
  }

  /** The pruned `_move` walk, started on a node that the union overlaps, leaves `e` active in
      exactly the leaves the current region overlaps, provided `e` was active in exactly the
      leaves the previous region overlaps and the two regions overlap with positive area. */
  lemma {:induction false} MoveFollowsCurrent<E>(t: Tree<E>, e: E, previous: Box, current: Box)
    requires WF(t) && Shaped(t) && t.bounds.IsProper()
    requires !Intersection(previous, current).IsDegenerate()
    requires Union(previous, current).Overlaps(t.bounds)
    requires MatchesRegion(t, e, previous)
    ensures var t2 := Move(t, e, previous, current, Union(previous, current), Intersection(previous, current));
      MatchesRegion(t2, e, current) &&
      forall p, x :: x != e ==> (ActiveAt(t2, p, x) <==> ActiveAt(t, p, x))
  {
    var union := Union(previous, current);
    var inter := Intersection(previous, current);
    var t2 := Move(t, e, previous, current, union, inter);
    assert previous.IsProper() && current.IsProper();
    forall p
      ensures IsLeafPath(t, p) <==> IsLeafPath(t2, p)
      ensures IsLeafPath(t, p) ==> LeafBoundsAt(t, p) == LeafBoundsAt(t2, p)
    {
      SameShapePaths(t, t2, union, p);
    }
    match t
    case Leaf(b, pop, c) =>
      LeafAssociateSpec(pop, c, e);
      LeafDisassociateSpec(pop, c, e);
      assert IsLeafPath(t, []);
      if b.Contains(union) {
        ContainsTransitive(b, union, previous);
        ContainsTransitive(b, union, current);
        ContainsImpliesOverlaps(b, previous);
        ContainsImpliesOverlaps(b, current);
      }
    case Node(b, cx, cy, _, kids) =>
      if inter.Contains(b) {
        forall p | IsLeafPath(t, p)
          ensures ActiveAt(t2, p, e) <==> current.Overlaps(LeafBoundsAt(t2, p))
        {
          LeafInside(t, p);
          var leaf := LeafBoundsAt(t, p);
          ContainsTransitive(inter, b, leaf);
          ContainsTransitive(previous, inter, leaf);
          ContainsTransitive(current, inter, leaf);
          ContainsImpliesOverlaps(previous, leaf);
          ContainsImpliesOverlaps(current, leaf);
        }
      } else {
        forall p, x | IsLeafPath(t, p)
          ensures ActiveAt(t2, p, e) <==> current.Overlaps(LeafBoundsAt(t2, p))
          ensures x != e ==> (ActiveAt(t2, p, x) <==> ActiveAt(t, p, x))
        {
          var k := p[0];
          SelectedIffOverlaps(b, union, k);
          if Selected(union, cx, cy, k) {
            MatchesRegionKid(t, e, previous, k);
            MoveFollowsCurrent(kids[k], e, previous, current);
            assert IsLeafPath(kids[k], p[1..]);
          } else {
            OverlapsSymmetric(union, kids[k].bounds);
            MissesBelow(kids[k], union, previous, p[1..]);
            MissesBelow(kids[k], union, current, p[1..]);
          }
        }
        forall p, x | !IsLeafPath(t, p)
          ensures !ActiveAt(t2, p, x) && !ActiveAt(t, p, x)
        {
          if ActiveAt(t2, p, x) { ActiveAtIsLeafPath(t2, p, x); }
          if ActiveAt(t, p, x) { ActiveAtIsLeafPath(t, p, x); }
        }
      }
  }

  /** When `e` is active exactly where the previous region overlaps, disassociating it with
      that region leaves it active nowhere. */
  lemma DisassociateMatchedEmpties<E>(t: Tree<E>, e: E, previous: Box)
    requires WF(t) && Shaped(t) && t.bounds.IsProper() && MatchesRegion(t, e, previous)
    ensures forall p :: !ActiveAt(Disassociate(t, e, previous), p, e)
  {
    DisassociateMembership(t, e, previous);
    forall p | ActiveAt(t, p, e)
      ensures Reached(t, previous, p)
    {
      ActiveAtIsLeafPath(t, p, e);
      OverlapsLeafOverlapsRoot(t, previous, p);
      ReachedIffOverlaps(t, previous, p);
    }
  }

  /** `remove(e, previous)` followed by `add(e, current)` leaves `e` active in exactly the
      leaves the current region overlaps, when it was active exactly where the previous
      region overlaps. */
  lemma RemoveThenAddPlaces<E>(t: Tree<E>, e: E, previous: Box, current: Box)
    requires WF(t) && Shaped(t) && t.bounds.IsProper()
    requires MatchesRegion(t, e, previous)
    ensures var a := Add(Remove(t, e, previous).0, e, current).0;
      SameShape(t, a) && MatchesRegion(a, e, current) &&
      forall p, x :: x != e ==> (ActiveAt(a, p, x) <==> ActiveAt(t, p, x))
  {
    var removed := Remove(t, e, previous).0;
    var a := Add(removed, e, current).0;
    SameShapeKeepsShaped(t, removed);
    SameShapeTransitive(t, removed, a);
    RemoveTakesEntity(t, e, previous);
    forall p | true
      ensures !ActiveAt(removed, p, e)
    {
      if ActiveAt(removed, p, e) {
        ActiveAtIsLeafPath(removed, p, e);
        SameShapePaths(t, removed, previous, p);
      }
    }
    AddPlacesEntity(removed, e, current);
    forall p | IsLeafPath(a, p)
      ensures ActiveAt(a, p, e) <==> current.Overlaps(LeafBoundsAt(a, p))
    {
      SameShapePaths(removed, a, current, p);
    }
  }

  /** `move` takes one of three paths; on each it leaves `e` active in exactly the leaves the
      current region overlaps when it was active exactly where the previous region overlaps. */
  lemma MoveRootPlaces<E>(t: Tree<E>, e: E, previous: Box, current: Box)
    requires WF(t) && Shaped(t) && t.bounds.IsProper()
    requires MatchesRegion(t, e, previous)
    ensures var m := MoveRoot(t, e, previous, current).0;
      SameShape(t, m) && MatchesRegion(m, e, current) &&
      forall p, x :: x != e ==> (ActiveAt(m, p, x) <==> ActiveAt(t, p, x))
  {
    var m := MoveRoot(t, e, previous, current).0;
    var t1 := Disassociate(t, e, previous);
    DisassociateMembership(t, e, previous);
    DisassociateMatchedEmpties(t, e, previous);
    if current.Overlaps(t.bounds) {
      if Intersection(previous, current).IsDegenerate() {
        AssociateMembership(t1, e, current);
        forall p | IsLeafPath(m, p)
          ensures ActiveAt(m, p, e) <==> current.Overlaps(LeafBoundsAt(m, p))
        {
          SameShapePaths(t, m, current, p);
          SameShapePaths(t, t1, current, p);
          ReachedIffOverlaps(t, current, p);
        }
      } else {
        OverlapsMonotone(Union(previous, current), current, t.bounds);
        MoveFollowsCurrent(t, e, previous, current);
      }
    } else {
      forall p | IsLeafPath(m, p)
        ensures ActiveAt(m, p, e) <==> current.Overlaps(LeafBoundsAt(m, p))
      {
        SameShapePaths(t, m, current, p);
        if current.Overlaps(LeafBoundsAt(t, p)) {
          OverlapsLeafOverlapsRoot(t, current, p);
        }
      }
    }
  }

  /** Two trees of the shape of `t` that agree with `t` on every entity but `e`, and both
      hold `e` exactly where `r` overlaps, have the same membership. */
  lemma SameMembership<E>(t: Tree<E>, a: Tree<E>, b: Tree<E>, e: E, r: Box)
    requires SameShape(t, a) && SameShape(t, b)
    requires MatchesRegion(a, e, r) && MatchesRegion(b, e, r)
    requires forall p, x :: x != e ==> (ActiveAt(a, p, x) <==> ActiveAt(t, p, x))
    requires forall p, x :: x != e ==> (ActiveAt(b, p, x) <==> ActiveAt(t, p, x))
    ensures forall p, x :: ActiveAt(a, p, x) <==> ActiveAt(b, p, x)
  {
    forall p, x
      ensures ActiveAt(a, p, x) <==> ActiveAt(b, p, x)
    {
      SameShapePaths(t, a, r, p);
      SameShapePaths(t, b, r, p);
      if ActiveAt(a, p, x) { ActiveAtIsLeafPath(a, p, x); }
      if ActiveAt(b, p, x) { ActiveAtIsLeafPath(b, p, x); }
    }
  }

  /** The pruned `move` agrees with `remove(e, previous)` followed by `add(e, current)` on
      every leaf's membership, provided `e` was active in exactly the leaves the previous
      region overlaps. */
  lemma MoveMatchesRemoveThenAdd<E>(t: Tree<E>, e: E, previous: Box, current: Box)
    requires WF(t) && Shaped(t) && t.bounds.IsProper()
    requires MatchesRegion(t, e, previous)
    ensures MatchesRegion(MoveRoot(t, e, previous, current).0, e, current)
    ensures forall p, x :: ActiveAt(MoveRoot(t, e, previous, current).0, p, x) <==>
                           ActiveAt(Add(Remove(t, e, previous).0, e, current).0, p, x)
  {
    RemoveThenAddPlaces(t, e, previous, current);
    MoveRootPlaces(t, e, previous, current);
    SameMembership(t, MoveRoot(t, e, previous, current).0, Add(Remove(t, e, previous).0, e, current).0, e, current);
  }

  /* ---------------------------------------------------------------- add then remove */

  /** A tree with every leaf's array cut down to its active prefix: what the tree holds,
      forgetting the stale slots past each leaf's count. */
  function Abstract<E>(t: Tree<E>): (a: Tree<E>)
    ensures a.count == t.count
  {
    match t
    case Leaf(b, pop, c) => Leaf(b, if 0 <= c <= |pop| then pop[..c] else pop, c)
    case Node(b, cx, cy, c, kids) =>
      Node(b, cx, cy, c, seq(|kids|, k requires 0 <= k < |kids| => Abstract(kids[k])))
  }

  lemma KidsCountSame<E>(a: seq<Tree<E>>, b: seq<Tree<E>>)
    requires |a| == |b| && forall k :: 0 <= k < |a| ==> a[k].count == b[k].count
    ensures KidsCount(a) == KidsCount(b)
  {
    if |a| > 0 {
      KidsCountSame(a[..|a| - 1], b[..|b| - 1]);
    }
  }

  lemma AbsentInKid<E>(t: Tree<E>, e: E, k: int)
    requires t.Node? && 0 <= k < |t.kids| && forall p :: !ActiveAt(t, p, e)
    ensures forall q :: !ActiveAt(t.kids[k], q, e)
  {
    forall q
      ensures !ActiveAt(t.kids[k], q, e)
    {
      var p := [k] + q;
      assert p[0] == k && p[1..] == q;
      assert !ActiveAt(t, p, e);
    }
  }

  /** `_associate` then `_disassociate` of an absent entity with the same region restores
      every node's count and every leaf's active entries, in order. */
  lemma {:induction false} AssociateDisassociateRestores<E>(t: Tree<E>, e: E, r: Box)
    requires WF(t) && forall p :: !ActiveAt(t, p, e)
    ensures Abstract(Disassociate(Associate(t, e, r), e, r)) == Abstract(t)
  {
    var t1 := Associate(t, e, r);
    var t2 := Disassociate(t1, e, r);
    match t
    case Leaf(b, pop, c) =>
      assert !ActiveAt(t, [], e);
      LeafRoundTrip(pop, c, e);
    case Node(b, cx, cy, c, kids) =>
      var kids1 := t1.kids;
      var kids2 := t2.kids;
      forall k | 0 <= k < |kids|
        ensures Abstract(kids2[k]) == Abstract(kids[k])
      {
        if Selected(r, cx, cy, k) {
          AbsentInKid(t, e, k);
          AssociateDisassociateRestores(kids[k], e, r);
        }
      }
      KidsCountSame(kids2, kids);
      assert Abstract(t2).kids == Abstract(t).kids;
  }

  /** In one leaf, associating an inactive entity and then disassociating it leaves the
      active prefix as it was. */
  lemma LeafRoundTrip<E>(pop: seq<Option<E>>, c: int, e: E)
    requires LeafWF(pop, c) && !IsActive(pop, c, e)
    ensures var p1 := LeafAssociate(pop, c, e);
      var p2 := LeafDisassociate(p1.0, p1.1, e);
      p2.1 == c && p2.0[..c] == pop[..c]
  {
    LeafAssociateSpec(pop, c, e);
    var p1 := LeafAssociate(pop, c, e).0;
    assert p1[..c + 1] == pop[..c] + [Some(e)];
    assert p1[c] == p1[..c + 1][c];
    assert p1[..c] == p1[..c + 1][..c];
  }

  /** `add(e, r)` followed by `remove(e, r)` on a tree where `e` is absent restores every
      node's count and every leaf's active entries, in order (the arrays may keep a stale
      slot past the count). */
  lemma AddThenRemoveRestores<E>(t: Tree<E>, e: E, r: Box)
    requires WF(t) && forall p :: !ActiveAt(t, p, e)
    ensures Abstract(Remove(Add(t, e, r).0, e, r).0) == Abstract(t)
  {
    if r.Overlaps(t.bounds) {
      AssociateDisassociateRestores(t, e, r);
    }
  }

  /* ---------------------------------------------------------------- emptiness and clear */

  lemma KidsCountPositive<E>(kids: seq<Tree<E>>)
    requires KidsCount(kids) > 0
    ensures exists k :: 0 <= k < |kids| && kids[k].count > 0
  {
    if kids[|kids| - 1].count <= 0 {
      KidsCountPositive(kids[..|kids| - 1]);
      var k :| 0 <= k < |kids| - 1 && kids[..|kids| - 1][k].count > 0;
      assert kids[k].count > 0;
    }
  }

  /** A well-formed node of count zero holds nothing active below it. */
  lemma {:induction false} ZeroCountEmpty<E>(t: Tree<E>, p: seq<int>, x: E)
    requires WF(t) && t.count == 0
    ensures !ActiveAt(t, p, x)
  {
    if t.Node? && |p| > 0 && 0 <= p[0] < |t.kids| {
      var kids := t.kids;
      CountNonNegative(t);
      KidsCountZero(kids);
      ZeroCountEmpty(kids[p[0]], p[1..], x);
    }
  }

  /** A well-formed node of positive count holds some entity active at some leaf path. */
  lemma {:induction false} PositiveCountActive<E>(t: Tree<E>) returns (p: seq<int>, x: E)
    requires WF(t) && t.count > 0
    ensures ActiveAt(t, p, x)
  {
    if t.Leaf? {
      var pop, c := t.population, t.count;
      assert pop[..c][0] == pop[0];
      p, x := [], pop[0].value;
    } else {
      var kids := t.kids;
      KidsCountPositive(kids);
      var k :| 0 <= k < |kids| && kids[k].count > 0;
      var q, y := PositiveCountActive(kids[k]);
      p, x := [k] + q, y;
      assert p[0] == k && p[1..] == q;
    }
  }

  /** A well-formed node has count zero exactly when no leaf below it holds anything active. */
  lemma EmptyIffZeroCount<E>(t: Tree<E>)
    requires WF(t)
    ensures t.count == 0 <==> forall p: seq<int>, x: E :: !ActiveAt(t, p, x)
  {
    CountNonNegative(t);
    if t.count == 0 {
      forall p, x
        ensures !ActiveAt(t, p, x)
      {
        ZeroCountEmpty(t, p, x);
      }
    } else {
      var p, x := PositiveCountActive(t);
      assert exists p: seq<int>, x: E :: ActiveAt(t, p, x);
    }
  }

  /** `clear` leaves no entity active anywhere and keeps the tree well formed. */
  lemma ClearEmpties<E>(t: Tree<E>)
    requires WF(t)
    ensures WF(ClearRoot(t)) && ClearRoot(t).count == 0
    ensures forall p, x :: !ActiveAt(ClearRoot(t), p, x)
  {
    EmptyIffZeroCount(ClearRoot(t));
  }

  /* ---------------------------------------------------------------- construction, proved */

  /** The constructor's tree is shaped, well formed, empty, of uniform depth max(depth, 1),
      and covers the given bounds. */
  lemma {:induction false} BuildSpec<E>(depth: int, b: Box)
    ensures var t := Build<E>(depth, b);
      t.bounds == b && WF(t) && Shaped(t) && t.count == 0 &&
      HasDepth(t, if depth < 1 then 1 else depth) &&
      (t.Leaf? <==> depth <= 1) &&
      forall p, x :: !ActiveAt(t, p, x)
    decreases depth
  {
    var t := Build<E>(depth, b);
    if depth > 1 {
      forall k | 0 <= k < 4 {
        BuildSpec<E>(depth - 1, ChildBounds(b, CenterX(b), CenterY(b), k));
      }
      KidsCountZero(t.kids);
    } else {
      assert NoDup(t.population[..0]);
    }
    EmptyIffZeroCount(t);
  }

  /* ---------------------------------------------------------------- leaf traversal */

  function Flatten<T>(ss: seq<seq<T>>): seq<T>
  {
    if |ss| == 0 then [] else ss[0] + Flatten(ss[1..])
  }

  /** All leaves below a node, children in the order SW, SE, NW, NE. */
  function AllLeaves<E>(t: Tree<E>): seq<Tree<E>>
  {
    match t
    case Leaf(_, _, _) => [t]
    case Node(_, _, _, _, kids) => Flatten(seq(|kids|, k requires 0 <= k < |kids| => AllLeaves(kids[k])))
  }

  /** The leaves whose count is at least `threshold`, in order. */
  function FilterAtLeast<E>(leaves: seq<Tree<E>>, threshold: int): seq<Tree<E>>
  {
    if |leaves| == 0 then []
    else (if leaves[0].count >= threshold then [leaves[0]] else []) + FilterAtLeast(leaves[1..], threshold)
  }

  /** `for_each_leaf_with_at_least`: the leaves the callback is invoked on, in order; a
      node whose count is below the threshold is skipped with everything below it. */
  function VisitAtLeast<E>(t: Tree<E>, threshold: int): seq<Tree<E>>
  {
    if t.count < threshold then []
    else match t
      case Leaf(_, _, _) => [t]
      case Node(_, _, _, _, kids) =>
        Flatten(seq(|kids|, k requires 0 <= k < |kids| => VisitAtLeast(kids[k], threshold)))
  }

  /** The runs the traversal produces for each child of a node, in order. */
  function VisitKids<E>(kids: seq<Tree<E>>, threshold: int): (ss: seq<seq<Tree<E>>>)
    ensures |ss| == |kids|
    ensures forall k :: 0 <= k < |kids| ==> ss[k] == VisitAtLeast(kids[k], threshold)
  {
    seq(|kids|, k requires 0 <= k < |kids| => VisitAtLeast(kids[k], threshold))
  }

  /** A node that reaches the threshold yields its children's runs one after the other. */
  lemma VisitNode<E>(t: Tree<E>, threshold: int)
    requires t.Node? && t.count >= threshold
    ensures VisitAtLeast(t, threshold) == Flatten(VisitKids(t.kids, threshold))
  {
  }

  lemma FilterAppend<E>(a: seq<Tree<E>>, b: seq<Tree<E>>, threshold: int)
    ensures FilterAtLeast(a + b, threshold) == FilterAtLeast(a, threshold) + FilterAtLeast(b, threshold)
  {
    if |a| > 0 {
      assert (a + b)[1..] == a[1..] + b;
      FilterAppend(a[1..], b, threshold);
    } else {
      assert a + b == b;
    }
  }

  lemma FilterFlatten<E>(ss: seq<seq<Tree<E>>>, threshold: int)
    ensures FilterAtLeast(Flatten(ss), threshold) ==
            Flatten(seq(|ss|, i requires 0 <= i < |ss| => FilterAtLeast(ss[i], threshold)))
  {
    if |ss| > 0 {
      FilterAppend(ss[0], Flatten(ss[1..]), threshold);
      FilterFlatten(ss[1..], threshold);
      var m := seq(|ss|, i requires 0 <= i < |ss| => FilterAtLeast(ss[i], threshold));
      assert m[1..] == seq(|ss[1..]|, i requires 0 <= i < |ss[1..]| => FilterAtLeast(ss[1..][i], threshold));
    }
  }

  lemma FlattenAppend<T>(a: seq<seq<T>>, b: seq<seq<T>>)
    ensures Flatten(a + b) == Flatten(a) + Flatten(b)
  {
    if |a| > 0 {
      assert (a + b)[1..] == a[1..] + b;
      FlattenAppend(a[1..], b);
    } else {
      assert a + b == b;
    }
  }

  /** Flattening one more element of a list of runs appends that run. */
  lemma FlattenStep<T>(ss: seq<seq<T>>, i: int)
    requires 0 <= i < |ss|
    ensures Flatten(ss[..i + 1]) == Flatten(ss[..i]) + ss[i]
  {
    FlattenAppend(ss[..i], [ss[i]]);
    assert ss[..i + 1] == ss[..i] + [ss[i]];
    assert Flatten([ss[i]]) == ss[i] + Flatten([ss[i]][1..]);
  }

  lemma InFlatten<T>(ss: seq<seq<T>>, x: T)
    requires x in Flatten(ss)
    ensures exists i :: 0 <= i < |ss| && x in ss[i]
  {
    if x !in ss[0] {
      InFlatten(ss[1..], x);
      var i :| 0 <= i < |ss[1..]| && x in ss[1..][i];
      assert x in ss[i + 1];
    }
  }

  lemma FilterNone<E>(leaves: seq<Tree<E>>, threshold: int)
    requires forall l :: l in leaves ==> l.count < threshold
    ensures FilterAtLeast(leaves, threshold) == []
  {
    if |leaves| > 0 {
      assert leaves[0] in leaves;
      FilterNone(leaves[1..], threshold);
    }
  }

  /** Every leaf below a well-formed node is a leaf whose count lies between 0 and the node's. */
  lemma {:induction false} LeavesBelowCount<E>(t: Tree<E>)
    requires WF(t)
    ensures forall l :: l in AllLeaves(t) ==> l.Leaf? && 0 <= l.count <= t.count
  {
    CountNonNegative(t);
    if t.Node? {
      var kids := t.kids;
      var ss := seq(|kids|, k requires 0 <= k < |kids| => AllLeaves(kids[k]));
      forall l | l in AllLeaves(t)
        ensures l.Leaf? && 0 <= l.count <= t.count
      {
        InFlatten(ss, l);
        var k :| 0 <= k < |ss| && l in ss[k];
        LeavesBelowCount(kids[k]);
      }
    }
  }

  /** The pruned traversal visits exactly the leaves whose count is at least the threshold,
      in SW, SE, NW, NE order: pruning a node whose count is below the threshold loses no
      leaf, since in a well-formed tree no leaf outnumbers its ancestors. */
  lemma {:induction false} VisitIsFilter<E>(t: Tree<E>, threshold: int)
    requires WF(t)
    ensures VisitAtLeast(t, threshold) == FilterAtLeast(AllLeaves(t), threshold)
  {
    if t.count < threshold {
      LeavesBelowCount(t);
      FilterNone(AllLeaves(t), threshold);
    } else if t.Node? {
      var kids := t.kids;
      var ss := seq(|kids|, k requires 0 <= k < |kids| => AllLeaves(kids[k]));
      FilterFlatten(ss, threshold);
      forall k | 0 <= k < |kids| {
        VisitIsFilter(kids[k], threshold);
      }
      assert seq(|kids|, k requires 0 <= k < |kids| => VisitAtLeast(kids[k], threshold)) ==
             seq(|ss|, i requires 0 <= i < |ss| => FilterAtLeast(ss[i], threshold));
    }
  }

  /* ---------------------------------------------------------------- which entities are held */

  /** Every entity active anywhere in the tree is one of `s`. */
  ghost predicate ActiveWithin<E>(t: Tree<E>, s: set<E>)
  {
    match t
    case Leaf(_, pop, c) => forall i :: 0 <= i < c && i < |pop| && pop[i].Some? ==> pop[i].value in s
    case Node(_, _, _, _, kids) => forall k :: 0 <= k < |kids| ==> ActiveWithin(kids[k], s)
  }

  /** An entity active at some leaf of a tree within `s` is in `s`. */
  lemma {:induction false} ActiveIsWithin<E>(t: Tree<E>, s: set<E>, p: seq<int>, x: E)
    requires ActiveWithin(t, s) && ActiveAt(t, p, x)
    ensures x in s
  {
    match t
    case Leaf(_, pop, c) =>
      var i :| 0 <= i < |pop[..c]| && pop[..c][i] == Some(x);
      assert pop[i] == Some(x);
    case Node(_, _, _, _, kids) =>
      ActiveIsWithin(kids[p[0]], s, p[1..], x);
  }

  /** A well-formed tree whose active entities all lie in `s` is within `s`. */
  lemma {:induction false} WithinFromActive<E>(t: Tree<E>, s: set<E>)
    requires WF(t)
    requires forall p, x :: ActiveAt(t, p, x) ==> x in s
    ensures ActiveWithin(t, s)
  {
    match t
    case Leaf(_, pop, c) =>
      forall i | 0 <= i < c && i < |pop| && pop[i].Some?
        ensures pop[i].value in s
      {
        assert pop[..c][i] == pop[i];
        assert ActiveAt(t, [], pop[i].value);
      }
    case Node(_, _, _, _, kids) =>
      forall k | 0 <= k < |kids|
        ensures ActiveWithin(kids[k], s)
      {
        forall q, x | ActiveAt(kids[k], q, x)
          ensures x in s
        {
          var p := [k] + q;
          assert p[0] == k && p[1..] == q;
          assert ActiveAt(t, p, x);
        }
        WithinFromActive(kids[k], s);
      }
  }

  /** The pruned `_move` walk changes where no entity but `e` is active. */
  lemma {:induction false} MoveOthers<E>(t: Tree<E>, e: E, previous: Box, current: Box, union: Box, inter: Box)
    requires WF(t)
    ensures forall p, x :: x != e ==>
      (ActiveAt(Move(t, e, previous, current, union, inter), p, x) <==> ActiveAt(t, p, x))
  {
    var t2 := Move(t, e, previous, current, union, inter);
    match t
    case Leaf(_, pop, c) =>
      LeafAssociateSpec(pop, c, e);
      LeafDisassociateSpec(pop, c, e);
    case Node(b, cx, cy, _, kids) =>
      if !inter.Contains(b) {
        forall p, x | x != e
          ensures ActiveAt(t2, p, x) <==> ActiveAt(t, p, x)
        {
          if |p| > 0 && 0 <= p[0] < |kids| && Selected(union, cx, cy, p[0]) {
            MoveOthers(kids[p[0]], e, previous, current, union, inter);
          }
        }
      }
  }

  /** `add(e, r)` brings in no entity but `e`. */
  lemma AddStaysWithin<E>(t: Tree<E>, s: set<E>, e: E, r: Box)
    requires WF(t) && ActiveWithin(t, s)
    ensures ActiveWithin(Add(t, e, r).0, s + {e})
  {
    var a := Add(t, e, r).0;
    forall p, x | ActiveAt(a, p, x)
      ensures x in s + {e}
    {
      if r.Overlaps(t.bounds) {
        AssociateMembership(t, e, r);
      }
      if x != e {
        ActiveIsWithin(t, s, p, x);
      }
    }
    WithinFromActive(a, s + {e});
  }

  /** `remove(e, r)` brings in no entity. */
  lemma RemoveStaysWithin<E>(t: Tree<E>, s: set<E>, e: E, r: Box)
    requires WF(t) && ActiveWithin(t, s)
    ensures ActiveWithin(Remove(t, e, r).0, s)
  {
    var a := Remove(t, e, r).0;
    forall p, x | ActiveAt(a, p, x)
      ensures x in s
    {
      if r.Overlaps(t.bounds) {
        DisassociateMembership(t, e, r);
      }
      ActiveIsWithin(t, s, p, x);
    }
    WithinFromActive(a, s);
  }

  /** `move(e, previous, current)` brings in no entity but `e`. */
  lemma MoveStaysWithin<E>(t: Tree<E>, s: set<E>, e: E, previous: Box, current: Box)
    requires WF(t) && ActiveWithin(t, s)
    ensures ActiveWithin(MoveRoot(t, e, previous, current).0, s + {e})
  {
    var m := MoveRoot(t, e, previous, current).0;
    var inter := Intersection(previous, current);
    forall p, x | ActiveAt(m, p, x) && x != e
      ensures x in s
    {
      if !current.Overlaps(t.bounds) {
        DisassociateMembership(t, e, previous);
      } else if inter.IsDegenerate() {
        var t1 := Disassociate(t, e, previous);
        AssociateMembership(t1, e, current);
        DisassociateMembership(t, e, previous);
      } else {
        MoveOthers(t, e, previous, current, Union(previous, current), inter);
      }
      ActiveIsWithin(t, s, p, x);
    }
    WithinFromActive(m, s + {e});
  }

  /** After `clear` no entity is held at all. */
  lemma ClearStaysWithin<E>(t: Tree<E>)
    requires WF(t)
    ensures ActiveWithin(ClearRoot(t), {})
  {
    ClearEmpties(t);
    WithinFromActive(ClearRoot(t), {});
  }

  /** The nodes the traversal visits are well-formed leaves holding at least `threshold`
      entities. */
  lemma {:induction false} VisitedLeaf<E>(t: Tree<E>, threshold: int, l: Tree<E>)
    requires WF(t) && l in VisitAtLeast(t, threshold)
    ensures l.Leaf? && LeafWF(l.population, l.count) && l.count >= threshold
  {
    if t.Node? {
      var kids := t.kids;
      var ss := seq(|kids|, k requires 0 <= k < |kids| => VisitAtLeast(kids[k], threshold));
      InFlatten(ss, l);
      var k :| 0 <= k < |ss| && l in ss[k];
      VisitedLeaf(kids[k], threshold, l);
    }
  }

  /** The leaves the traversal visits hold only entities the whole tree holds. */
  lemma {:induction false} VisitedWithin<E>(t: Tree<E>, threshold: int, s: set<E>, l: Tree<E>)
    requires ActiveWithin(t, s) && l in VisitAtLeast(t, threshold)
    ensures ActiveWithin(l, s)
  {
    if t.Node? {
      var kids := t.kids;
      var ss := seq(|kids|, k requires 0 <= k < |kids| => VisitAtLeast(kids[k], threshold));
      InFlatten(ss, l);
      var k :| 0 <= k < |ss| && l in ss[k];
      VisitedWithin(kids[k], threshold, s, l);
    }
  }
}
