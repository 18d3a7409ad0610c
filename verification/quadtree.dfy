/** source/spatial_partitions/Quadtree.ts: the tree as linked nodes whose counts and leaf
    arrays are updated in place. Every method is proved to move the nodes' state exactly as
    the corresponding function of QuadtreeModel moves the value `Model()`. */
module Quadtrees {
  import opened Wrappers
  import opened BoundingBoxes
  import opened QuadtreeModel

  class Quadtree<E(==)> {
    const depth: int
    const isLeaf: bool
    const isRoot: bool
    const bounds: Box
    const centerX: real
    const centerY: real
    /** The four quadrants SW, SE, NW, NE of an internal node; empty in a leaf. */
    const children: seq<Quadtree<E>>
    /** Every node strictly below this one. */
    ghost const Repr: set<Quadtree<E>>

    /** A leaf's growable array (holes are None); unused in an internal node. */
    var population: seq<Option<E>>
    var populationCount: int

    ghost function Footprint(): set<Quadtree<E>>
    {
      {this} + Repr
    }

    /** The shape the constructor gives a node: it is a leaf exactly at depth 1, and an
        internal node has four non-root quadrant children of depth one less whose subtrees
        are disjoint. It mentions no mutable field, so no update can break it. */
    ghost predicate Valid()
      decreases depth, 0
    {
      depth >= 1 && (isLeaf <==> depth == 1) && this !in Repr &&
      (isLeaf ==> children == [] && Repr == {}) &&
      (!isLeaf ==> |children| == 4 && Siblings(children, Repr, depth - 1))
    }

    /** Nodes of depth d that are valid, lie inside r, and have pairwise disjoint subtrees. */
    static ghost predicate Siblings(cs: seq<Quadtree<E>>, r: set<Quadtree<E>>, d: int)
      decreases d, 1
    {
      (forall k :: 0 <= k < |cs| ==> cs[k].Footprint() <= r && cs[k].depth == d && cs[k].Valid()) &&
      (forall j, k :: 0 <= j < k < |cs| ==> cs[j].Footprint() !! cs[k].Footprint())
    }

    /** A child sits inside this node's representation, one level down, and is valid. */
    ghost predicate Below(c: Quadtree<E>)
    {
      c.Footprint() <= Repr && this !in c.Footprint() && c.depth == depth - 1 && c.Valid()
    }

    /** The state of the subtree as a value. */
    ghost function Model(): Tree<E>
      reads Footprint()
      requires Valid()
      decreases depth
    {
      if isLeaf then Leaf(bounds, population, populationCount)
      else Node(bounds, centerX, centerY, populationCount, KidModels())
    }

    ghost function KidModels(): (kids: seq<Tree<E>>)
      reads Repr
      requires Valid() && !isLeaf
      ensures |kids| == 4
      decreases depth, 0
    {
      assert Siblings(children, Repr, depth - 1);
      assert Below(children[0]) && Below(children[1]) && Below(children[2]) && Below(children[3]);
      [children[0].Model(), children[1].Model(), children[2].Model(), children[3].Model()]
    }

    /** The constants the constructor gives the subtree: every centre is the middle of its
        bounds, every quadrant has the bounds ChildBounds gives it, and no child is a root. */
    ghost predicate Shaped()
      decreases depth, 1
    {
      centerX == CenterX(bounds) && centerY == CenterY(bounds) &&
      (!isLeaf ==> depth >= 1 && |children| == 4 && ShapedQuadrants(children, bounds, depth - 1))
    }

    /** Each of `cs` is a shaped non-root node of depth d with the bounds of its quadrant of b. */
    static ghost predicate ShapedQuadrants(cs: seq<Quadtree<E>>, b: Box, d: int)
      decreases d, 2
    {
      forall k :: 0 <= k < |cs| ==>
        cs[k].bounds == ChildBounds(b, CenterX(b), CenterY(b), k) && !cs[k].isRoot &&
        cs[k].depth == d && cs[k].Shaped()
    }

    /** The state the constructor leaves every node of `r` in: nothing counted, and each leaf
        array two holes. */
    static ghost predicate Blank(r: set<Quadtree<E>>)
      reads r
    {
      forall n :: n in r ==> n.populationCount == 0 && (n.isLeaf ==> n.population == [None, None])
    }

    /** The constructor: the depth is clamped to at least 1; a node of depth 1 is a leaf with
        a two-slot array of holes, any other node builds its four quadrants below it. */
    constructor (depth: int, bounds: Box, isRoot: bool)
      ensures Valid() && Shaped() && Blank(Footprint()) && fresh(Repr)
      ensures this.isRoot == isRoot && this.bounds == bounds
      ensures this.depth == if depth < 1 then 1 else depth
      decreases depth, 2
    {
      var d := if depth < 1 then 1 else depth;
      this.depth := d;
      this.isLeaf := d == 1;
      this.bounds := bounds;
      var w2 := 0.5 * (bounds.right - bounds.left);
      var h2 := 0.5 * (bounds.top - bounds.bottom);
      var x := bounds.left + w2;
      var y := bounds.bottom + h2;
      this.centerX := x;
      this.centerY := y;
      this.isRoot := isRoot;
      if d != 1 {
        var cs, r := NewQuadrants(d - 1, bounds, x, y, w2, h2);
        this.children := cs;
        this.Repr := r;
        this.population := [];
      } else {
        this.children := [];
        this.Repr := {};
        this.population := [None, None];
      }
      this.populationCount := 0;
      new;
      assert Blank(Repr);
    }

    /** The constructor's array of quadrants SW, SE, NW, NE below a node of the given bounds,
        centre and half-size. */
    static method NewQuadrants(d: int, bounds: Box, x: real, y: real, w2: real, h2: real)
      returns (cs: seq<Quadtree<E>>, ghost r: set<Quadtree<E>>)
      requires d >= 1 && x == CenterX(bounds) && y == CenterY(bounds)
      requires w2 == 0.5 * (bounds.right - bounds.left) && h2 == 0.5 * (bounds.top - bounds.bottom)
      ensures |cs| == 4 && Siblings(cs, r, d) && ShapedQuadrants(cs, bounds, d) && Blank(r) && fresh(r)
      decreases d + 1, 1
    {
      var w4 := 0.5 * w2;
      var h4 := 0.5 * h2;
      cs, r := AddQuadrant([], {}, d, bounds, FromCenterAndSize(x - w4, y - h4, w2, h2));
      cs, r := AddQuadrant(cs, r, d, bounds, FromCenterAndSize(x + w4, y - h4, w2, h2));
      cs, r := AddQuadrant(cs, r, d, bounds, FromCenterAndSize(x - w4, y + h4, w2, h2));
      cs, r := AddQuadrant(cs, r, d, bounds, FromCenterAndSize(x + w4, y + h4, w2, h2));
    }

    /** One entry of the constructor's array of quadrants: a new non-root node of depth `d`
        over `box`, which must be the bounds of the next quadrant of `b`. */
    static method AddQuadrant(cs: seq<Quadtree<E>>, ghost r: set<Quadtree<E>>, d: int, b: Box, box: Box)
      returns (cs2: seq<Quadtree<E>>, ghost r2: set<Quadtree<E>>)
      requires d >= 1 && |cs| < 4 && box == ChildBounds(b, CenterX(b), CenterY(b), |cs|)
      requires Siblings(cs, r, d) && ShapedQuadrants(cs, b, d) && Blank(r)
      ensures Siblings(cs2, r2, d) && ShapedQuadrants(cs2, b, d) && Blank(r2)
      ensures |cs2| == |cs| + 1 && r <= r2 && fresh(r2 - r)
      decreases d + 1, 0
    {
      var c := new Quadtree(d, box, false);
      assert c.Footprint() !! r;
      cs2 := cs + [c];
      r2 := r + c.Footprint();
    }

    /** A node as the constructor leaves it holds the tree `Build` describes. */
    lemma BlankModel()
      requires Valid() && Shaped() && Blank(Footprint())
      ensures Model() == Build(depth, bounds)
      decreases depth
    {
      if !isLeaf {
        forall k | 0 <= k < 4
          ensures children[k].Model() == BuildKids(depth, bounds)[k]
        {
          assert Below(children[k]);
          children[k].BlankModel();
        }
        assert KidModels() == BuildKids(depth, bounds);
      }
    }

    /** `is_empty`: whether the count is zero, which for a well-formed tree means that no
        leaf below holds anything (EmptyIffZeroCount). */
    function IsEmpty(): (b: bool)
      reads this, Repr
      requires Valid()
      ensures b <==> Model().count == 0
    {
      populationCount == 0
    }

    /* ------------------------------------------------------------ the public operations */

    /** `clear`: refused on a non-root node; otherwise every count below is reset. */
    method Clear() returns (error: Option<QuadtreeError>)
      requires Valid() && WF(Model())
      modifies Footprint()
      ensures !isRoot ==> error == Some(NotRoot) && Model() == old(Model())
      ensures isRoot ==> error == None && Model() == ClearRoot(old(Model()))
    {
      if !isRoot {
        return Some(NotRoot);
      }
      ClearCounts();
      return None;
    }

    /** `add`: refused on a non-root node; otherwise associates the entity with the region
        when the region overlaps the root bounds, and reports whether it did. */
    method Add(e: E, region: Box) returns (r: Result<bool, QuadtreeError>)
      requires Valid() && WF(Model())
      modifies Footprint()
      ensures !isRoot ==> r == Failure(NotRoot) && Model() == old(Model())
      ensures isRoot ==> r == Success(QuadtreeModel.Add(old(Model()), e, region).1)
      ensures isRoot ==> Model() == QuadtreeModel.Add(old(Model()), e, region).0
    {
      if !isRoot {
        return Failure(NotRoot);
      }
      if region.Overlaps(bounds) {
        var _ := Associate(e, region);
        return Success(true);
      } else {
        return Success(false);
      }
    }

    /** `remove`: refused on a non-root node; otherwise disassociates the entity from the
        region when the region overlaps the root bounds, and reports whether it did. */
    method Remove(e: E, region: Box) returns (r: Result<bool, QuadtreeError>)
      requires Valid() && WF(Model())
      modifies Footprint()
      ensures !isRoot ==> r == Failure(NotRoot) && Model() == old(Model())
      ensures isRoot ==> r == Success(QuadtreeModel.Remove(old(Model()), e, region).1)
      ensures isRoot ==> Model() == QuadtreeModel.Remove(old(Model()), e, region).0
    {
      if !isRoot {
        return Failure(NotRoot);
      }
      if region.Overlaps(bounds) {
        var _ := Disassociate(e, region);
        return Success(true);
      } else {
        return Success(false);
      }
    }

    /** `move`: refused on a non-root node; otherwise re-files the entity from the previous
        region to the current one, and reports whether the current region overlaps the root. */
    method Move(e: E, previous: Box, current: Box) returns (r: Result<bool, QuadtreeError>)
      requires Valid() && WF(Model())
      modifies Footprint()
      ensures !isRoot ==> r == Failure(NotRoot) && Model() == old(Model())
      ensures isRoot ==> r == Success(MoveRoot(old(Model()), e, previous, current).1)
      ensures isRoot ==> Model() == MoveRoot(old(Model()), e, previous, current).0
    {
      if !isRoot {
        return Failure(NotRoot);
      }
      if current.Overlaps(bounds) {
        var inter := Intersection(previous, current);
        if inter.IsDegenerate() {
          var _ := Disassociate(e, previous);
          var _ := Associate(e, current);
        } else {
          var union := Union(previous, current);
          var _ := MoveEntity(e, previous, current, union, inter);
        }
        return Success(true);
      } else {
        var _ := Disassociate(e, previous);
        return Success(false);
      }
    }

    /** `for_each_leaf_with_at_least`: the leaves the callback would be invoked on, in the
        order it would be invoked on them. */
    method LeavesWithAtLeast(threshold: int) returns (leaves: seq<Quadtree<E>>)
      requires Valid()
      ensures |leaves| == |VisitAtLeast(Model(), threshold)|
      ensures forall i :: 0 <= i < |leaves| ==> HoldsLeaf(leaves[i], VisitAtLeast(Model(), threshold)[i])
      decreases depth, 1
    {
      if populationCount < threshold {
        return [];
      } else if isLeaf {
        return [this];
      }
      VisitNode(Model(), threshold);
      leaves := LeavesOfChildren(threshold);
    }

    /** The `forEach` over the children in `for_each_leaf_with_at_least`. */
    method LeavesOfChildren(threshold: int) returns (leaves: seq<Quadtree<E>>)
      requires Valid() && !isLeaf
      ensures |leaves| == |Flatten(VisitKids(KidModels(), threshold))|
      ensures forall i :: 0 <= i < |leaves| ==>
        HoldsLeaf(leaves[i], Flatten(VisitKids(KidModels(), threshold))[i])
      decreases depth, 0
    {
      ghost var ss := VisitKids(KidModels(), threshold);
      ghost var visited: seq<Tree<E>> := [];
      leaves := [];
      var i := 0;
      while i < 4
        invariant 0 <= i <= 4
        invariant visited == Flatten(ss[..i])
        invariant |leaves| == |visited|
        invariant forall m :: 0 <= m < |leaves| ==> HoldsLeaf(leaves[m], visited[m])
      {
        var below := children[i].LeavesWithAtLeast(threshold);
        forall m | 0 <= m < |below|
          ensures HoldsLeaf(below[m], ss[i][m])
        {
          HoldsLeafBelow(i, below[m], ss[i][m]);
        }
        FlattenStep(ss, i);
        visited := visited + ss[i];
        leaves := leaves + below;
        i := i + 1;
      }
      assert ss[..4] == ss;
    }

    /** `leaf` is a valid leaf of this subtree whose state is `t`. */
    ghost predicate HoldsLeaf(leaf: Quadtree<E>, t: Tree<E>)
      reads Footprint()
    {
      leaf in Footprint() && leaf.Valid() && leaf.isLeaf && leaf.Model() == t
    }

    lemma HoldsLeafBelow(k: int, leaf: Quadtree<E>, t: Tree<E>)
      requires Valid() && !isLeaf && 0 <= k < 4 && children[k].HoldsLeaf(leaf, t)
      ensures HoldsLeaf(leaf, t)
    {
      assert Below(children[k]);
    }

    /* ------------------------------------------------------------ the private operations */

    /** `_clear`. */
    method ClearCounts()
      requires Valid() && WF(Model())
      modifies Footprint()
      ensures Model() == QuadtreeModel.Clear(old(Model()))
      decreases depth, 2
    {
      ghost var t := Model();
      if populationCount == 0 {
        assert t.count == 0;
        return;
      } else if !isLeaf {
        ClearChildren();
        ClearNode(t);
        populationCount := 0;
        assert Model() == Node(bounds, centerX, centerY, 0, KidModels());
      } else {
        populationCount := 0;
      }
    }

    /** The `forEach` over the children in `_clear`. */
    method ClearChildren()
      requires Valid() && !isLeaf && forall k :: 0 <= k < 4 ==> WF(KidModels()[k])
      modifies Repr
      ensures KidModels() == ClearedKids(old(KidModels()), 4)
      decreases depth, 1
    {
      ghost var kids := KidModels();
      var i := 0;
      while i < 4
        invariant 0 <= i <= 4
        invariant KidModels() == ClearedKids(kids, i)
      {
        ClearedKidsStep(kids, i);
        ClearChild(i);
        i := i + 1;
      }
    }

    /** The `forEach` callback in `_clear`. */
    method ClearChild(k: int)
      requires Valid() && !isLeaf && 0 <= k < 4 && WF(KidModels()[k])
      modifies children[k].Footprint()
      ensures KidModels() == old(KidModels())[k := QuadtreeModel.Clear(old(KidModels())[k])]
      decreases depth, 0
    {
      children[k].ClearCounts();
    }

    /** `_associate`: the change in count is returned. */
    method Associate(e: E, r: Box) returns (n: int)
      requires Valid() && WF(Model())
      modifies Footprint()
      ensures Model() == QuadtreeModel.Associate(old(Model()), e, r)
      ensures n == Model().count - old(Model()).count
      decreases depth, 3
    {
      if !isLeaf {
        n := WalkBelow(AssociateWalk(e, r));
        return;
      }
      var i := IndexOf(population, e);
      if i == -1 || i >= populationCount {
        AddEntry(e);
        return 1;
      } else {
        return 0;
      }
    }

    /** `_disassociate`: the change in count is returned. */
    method Disassociate(e: E, r: Box) returns (n: int)
      requires Valid() && WF(Model())
      modifies Footprint()
      ensures Model() == QuadtreeModel.Disassociate(old(Model()), e, r)
      ensures n == Model().count - old(Model()).count
      decreases depth, 3
    {
      if !isLeaf {
        n := WalkBelow(DisassociateWalk(e, r));
        return;
      }
      var i := IndexOf(population, e);
      if i != -1 && i < populationCount {
        RemoveEntry(i);
        return -1;
      } else {
        return 0;
      }
    }

    /** `_move`: the change in count is returned. */
    method MoveEntity(e: E, previous: Box, current: Box, union: Box, inter: Box) returns (n: int)
      requires Valid() && WF(Model())
      modifies Footprint()
      ensures Model() == QuadtreeModel.Move(old(Model()), e, previous, current, union, inter)
      ensures n == Model().count - old(Model()).count
      decreases depth, 3
    {
      if !isLeaf {
        if inter.Contains(bounds) {
          return 0;
        }
        n := WalkBelow(MoveWalk(e, previous, current, union, inter));
        return;
      }
      if bounds.Contains(union) {
        return 0;
      }
      var overlapsPrevious := previous.Overlaps(bounds);
      var overlapsCurrent := current.Overlaps(bounds);
      if overlapsPrevious && overlapsCurrent {
        return 0;
      }
      if overlapsPrevious {
        var i := IndexOf(population, e);
        if i != -1 && i < populationCount {
          RemoveEntry(i);
          return -1;
        }
      }
      if overlapsCurrent {
        var i := IndexOf(population, e);
        if i == -1 || i >= populationCount {
          AddEntry(e);
          return 1;
        }
      }
      return 0;
    }

    /** The internal-node half of `_associate`, `_disassociate` and `_move`: the walk goes
        on into the selected quadrants and the node's count takes the sum of their changes. */
    method WalkBelow(w: Walk<E>) returns (n: int)
      requires Valid() && !isLeaf && WF(Model())
      requires !(w.MoveWalk? && w.inter.Contains(bounds))
      modifies Footprint()
      ensures Model() == ApplyWalk(w, old(Model()))
      ensures n == Model().count - old(Model()).count
      decreases depth, 2
    {
      ghost var t := Model();
      n := ForEachOverlappingChild(w);
      ApplyWalkNode(w, t);
      populationCount := populationCount + n;
      assert Model() == Node(bounds, centerX, centerY, populationCount, KidModels());
    }

    /** `_associate`, `_disassociate` or `_move`, as the walk says. */
    method Walk(w: Walk<E>) returns (n: int)
      requires Valid() && WF(Model())
      modifies Footprint()
      ensures Model() == ApplyWalk(w, old(Model()))
      ensures n == Model().count - old(Model()).count
      decreases depth, 4
    {
      match w
      case AssociateWalk(e, r) =>
        n := Associate(e, r);
      case DisassociateWalk(e, r) =>
        n := Disassociate(e, r);
      case MoveWalk(e, previous, current, union, inter) =>
        n := MoveEntity(e, previous, current, union, inter);
    }

    /** `_for_each_overlapping_child` with the summing callback of `_associate`,
        `_disassociate` or `_move`: it visits the quadrants the region's half-plane tests
        select, in the order SW, NW, SE, NE, and returns the sum of their changes. */
    method ForEachOverlappingChild(w: Walk<E>) returns (n: int)
      requires Valid() && !isLeaf && forall k :: 0 <= k < 4 ==> WF(KidModels()[k])
      modifies Repr
      ensures KidModels() == SelectedKids(w, old(KidModels()), centerX, centerY)
      ensures n == KidsCount(KidModels()) - KidsCount(old(KidModels()))
      decreases depth, 1
    {
      var ks := OverlappingChildren(WalkRegion(w), centerX, centerY);
      ghost var kids := KidModels();
      n := 0;
      var i := 0;
      while i < |ks|
        invariant 0 <= i <= |ks|
        invariant KidModels() == WalkedKids(w, kids, ks, i)
        invariant n == KidsCount(KidModels()) - KidsCount(kids)
      {
        WalkedKidsStep(w, kids, ks, i);
        ghost var before := KidModels();
        var c := WalkChild(w, ks[i]);
        KidsCountUpdate(before, ks[i], KidModels()[ks[i]]);
        n := n + c;
        i := i + 1;
      }
      WalkedKidsSelected(w, kids, centerX, centerY);
    }

    /** The callback: the walk continues in child `k`, and its change is returned. */
    method WalkChild(w: Walk<E>, k: int) returns (c: int)
      requires Valid() && !isLeaf && 0 <= k < 4 && WF(KidModels()[k])
      modifies children[k].Footprint()
      ensures KidModels() == old(KidModels())[k := ApplyWalk(w, old(KidModels())[k])]
      ensures c == KidModels()[k].count - old(KidModels())[k].count
      decreases depth, 0
    {
      assert Siblings(children, Repr, depth - 1);
      ghost var before := KidModels();
      c := children[k].Walk(w);
      forall j | 0 <= j < 4 && j != k
        ensures children[j].Model() == before[j]
      {
        assert children[j].Footprint() !! children[k].Footprint();
      }
      assert KidModels() == before[k := children[k].Model()];
    }

    /** `_add` (on a leaf): the entry goes into slot `populationCount`, reusing the slot when
        the array is longer and pushing otherwise. */
    method AddEntry(e: E)
      requires Valid() && isLeaf && 0 <= populationCount <= |population|
      modifies this
      ensures (population, populationCount) == LeafAdd(old(population), old(populationCount), e)
    {
      if populationCount < |population| {
        population := population[populationCount := Some(e)];
      } else {
        population := population + [Some(e)];
      }
      populationCount := populationCount + 1;
    }

    /** `_remove` (on a leaf): the entry at `index` is spliced out unless it is the last
        active one, and the count drops by one. */
    method RemoveEntry(index: int)
      requires Valid() && isLeaf && 0 <= index < populationCount <= |population|
      modifies this
      ensures (population, populationCount) == LeafRemove(old(population), old(populationCount), index)
    {
      if index < populationCount - 1 {
        population := population[..index] + population[index + 1..];
      }
      populationCount := populationCount - 1;
    }
  }
}
