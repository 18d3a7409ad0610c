/** source/collision/broadphase/QuadtreeBroadphase.ts: the broadphase as a root quadtree of
    entities, each kept under the square around its disc. */
module QuadtreeBroadphases {
  import opened Wrappers
  import opened Vectors
  import opened BoundingBoxes
  import opened Entities
  import opened QuadtreeModel
  import opened Quadtrees

  /** The constructor's refusal of a tree that is not an empty root. */
  datatype BroadphaseError = NotAnEmptyRoot

  /** The square around a disc of the given radius centred at `position`. */
  function RegionAt(position: Vec, radius: real): (b: Box)
    ensures b.left == position.x - radius && b.right == position.x + radius
    ensures b.bottom == position.y - radius && b.top == position.y + radius
  {
    FromCenterAndRadius(position.x, position.y, radius)
  }

  /** The region the tree uses for an entity where it is now. */
  function Region(e: Entity): Box
    reads e.body
  {
    RegionAt(e.body.position, e.geometry.radius)
  }

  /** The entities of a leaf's active prefix, in order: the group the callback receives. */
  function Members(population: seq<Option<Entity>>, count: int): (m: seq<Entity>)
    requires LeafWF(population, count)
    ensures |m| == count
    ensures forall i :: 0 <= i < count ==> population[i] == Some(m[i])
  {
    seq(count, i requires 0 <= i < count => population[i].value)
  }

  /** A group lists each entity of its leaf once, and only entities the tree holds. */
  lemma MembersWithin(l: Tree<Entity>, s: set<Entity>)
    requires l.Leaf? && LeafWF(l.population, l.count) && ActiveWithin(l, s)
    ensures var m := Members(l.population, l.count);
      NoDup(m) && forall i :: 0 <= i < |m| ==> m[i] in s
  {
    var m := Members(l.population, l.count);
    forall i, j | 0 <= i < j < |m|
      ensures m[i] != m[j]
    {
      assert l.population[..l.count][i] != l.population[..l.count][j];
    }
  }

  class QuadtreeBroadphase {
    const tree: Quadtree<Entity>

    /** The tree is a root node in its counting invariant. */
    ghost predicate Valid()
      reads tree.Footprint()
    {
      tree.Valid() && tree.isRoot && WF(tree.Model())
    }

    constructor (tree: Quadtree<Entity>)
      requires tree.Valid() && tree.isRoot && WF(tree.Model())
      ensures this.tree == tree
    {
      this.tree := tree;
    }

    /** The constructor: refuses a tree that is not a root or is not empty. */
    static method Create(tree: Quadtree<Entity>) returns (r: Result<QuadtreeBroadphase, BroadphaseError>)
      requires tree.Valid() && WF(tree.Model())
      ensures r.Failure? <==> !tree.isRoot || tree.Model().count != 0
      ensures r.Success? ==> fresh(r.value) && r.value.tree == tree && r.value.Valid()
    {
      var empty := tree.IsEmpty();
      if !tree.isRoot || !empty {
        return Failure(NotAnEmptyRoot);
      }
      var b := new QuadtreeBroadphase(tree);
      return Success(b);
    }

    /** `clear`: empties the tree. */
    method Clear()
      requires Valid()
      modifies tree.Footprint()
      ensures Valid() && tree.Model() == ClearRoot(old(tree.Model()))
    {
      var _ := tree.Clear();
    }

    /** `add`: keeps the entity under its current region; the tree's answer whether the
        region met its bounds is dropped. */
    method Add(e: Entity)
      requires Valid()
      modifies tree.Footprint()
      ensures Valid() && tree.Model() == QuadtreeModel.Add(old(tree.Model()), e, Region(e)).0
    {
      var _ := tree.Add(e, Region(e));
    }

    /** `remove`: drops the entity from the leaves under its current region. */
    method Remove(e: Entity)
      requires Valid()
      modifies tree.Footprint()
      ensures Valid() && tree.Model() == QuadtreeModel.Remove(old(tree.Model()), e, Region(e)).0
    {
      var _ := tree.Remove(e, Region(e));
    }

    /** `update`: moves the entity from the square around its previous position to the one
        around its current position. */
    method Update(e: Entity, previous: Vec)
      requires Valid()
      modifies tree.Footprint()
      ensures Valid()
      ensures tree.Model() == MoveRoot(old(tree.Model()), e, RegionAt(previous, e.geometry.radius), Region(e)).0
    {
      var _ := tree.Move(e, RegionAt(previous, e.geometry.radius), Region(e));
    }

    /** `for_each_potential_collision_group`: one group per leaf holding at least two
        entities, in the tree's leaf order, each the leaf's active prefix. */
    method Groups() returns (groups: seq<seq<Entity>>)
      requires Valid()
      ensures |groups| == |VisitAtLeast(tree.Model(), 2)|
      ensures forall i :: 0 <= i < |groups| ==>
        var l := VisitAtLeast(tree.Model(), 2)[i];
        l.Leaf? && LeafWF(l.population, l.count) && l.count >= 2 &&
        groups[i] == Members(l.population, l.count)
    {
      ghost var t := tree.Model();
      ghost var visited := VisitAtLeast(t, 2);
      var leaves := tree.LeavesWithAtLeast(2);
      groups := [];
      var i := 0;
      while i < |leaves|
        invariant i <= |leaves| && |groups| == i
        invariant forall m :: 0 <= m < i ==>
          visited[m].Leaf? && LeafWF(visited[m].population, visited[m].count) &&
          visited[m].count >= 2 && groups[m] == Members(visited[m].population, visited[m].count)
      {
        VisitedLeaf(t, 2, visited[i]);
        var leaf := leaves[i];
        assert leaf.Model() == visited[i];
        groups := groups + [Members(leaf.population, leaf.populationCount)];
        i := i + 1;
      }
    }
  }
}
