/** source/collision/broadphase/Broadphase.ts: the operations a world asks of its
    broadphase, dispatched to the naive list or the quadtree. */
module Broadphases {
  import opened Vectors
  import opened Entities
  import opened QuadtreeModel
  import opened NaiveBroadphases
  import opened QuadtreeBroadphases

  /** A group handed to the world: no entity twice, and every entity one of `s`. */
  ghost predicate GroupWithin(group: seq<Entity>, s: set<Entity>)
  {
    NoDup(group) && forall i :: 0 <= i < |group| ==> group[i] in s
  }

  datatype Broadphase = Naive(naive: NaiveBroadphase) | Spatial(spatial: QuadtreeBroadphase)
  {
    /** The objects the operations update. */
    ghost function Repr(): set<object>
    {
      match this
      case Naive(b) => {b}
      case Spatial(b) => b.tree.Footprint()
    }

    ghost predicate Valid()
      reads Repr()
    {
      Naive? || spatial.Valid()
    }

    /** Every entity held is one of `s`; the naive list holds each at most once. */
    ghost predicate Within(s: set<Entity>)
      reads Repr()
      requires Valid()
    {
      match this
      case Naive(b) => GroupWithin(b.entities, s)
      case Spatial(b) => ActiveWithin(b.tree.Model(), s)
    }

    /** `clear`: afterwards nothing is held. */
    method Clear()
      requires Valid()
      modifies Repr()
      ensures Valid() && Within({})
      ensures Naive? ==> naive.entities == []
      ensures Spatial? ==> spatial.tree.Model() == ClearRoot(old(spatial.tree.Model()))
    {
      match this
      case Naive(b) =>
        b.Clear();
      case Spatial(b) =>
        ClearStaysWithin(b.tree.Model());
        b.Clear();
    }

    /** `add`: afterwards the held entities are among the earlier ones and `e`. */
    method Add(e: Entity, ghost s: set<Entity>)
      requires Valid() && Within(s) && (Naive? ==> e !in naive.entities)
      modifies Repr()
      ensures Valid() && Within(s + {e})
      ensures Naive? ==> naive.entities == old(naive.entities) + [e]
      ensures Spatial? ==> spatial.tree.Model() == QuadtreeModel.Add(old(spatial.tree.Model()), e, old(Region(e))).0
    {
      match this
      case Naive(b) =>
        b.Add(e);
      case Spatial(b) =>
        AddStaysWithin(b.tree.Model(), s, e, Region(e));
        b.Add(e);
    }

    /** `remove`: afterwards the held entities are among the earlier ones. */
    method Remove(e: Entity, ghost s: set<Entity>)
      requires Valid() && Within(s)
      modifies Repr()
      ensures Valid() && Within(s)
      ensures Naive? ==> naive.entities == Removed(old(naive.entities), e)
      ensures Spatial? ==> spatial.tree.Model() == QuadtreeModel.Remove(old(spatial.tree.Model()), e, old(Region(e))).0
    {
      match this
      case Naive(b) =>
        RemovedKeepsGroup(b.entities, e, s);
        b.Remove(e);
      case Spatial(b) =>
        RemoveStaysWithin(b.tree.Model(), s, e, Region(e));
        b.Remove(e);
    }

    /** `update`: the naive list ignores it; the quadtree moves the entity from the square
        around `previous` to the one around its current position. */
    method Update(e: Entity, previous: Vec, ghost s: set<Entity>)
      requires Valid() && Within(s) && e in s
      modifies Repr()
      ensures Valid() && Within(s)
      ensures Naive? ==> naive.entities == old(naive.entities)
      ensures Spatial? ==>
        spatial.tree.Model() == MoveRoot(old(spatial.tree.Model()), e, RegionAt(previous, e.geometry.radius), old(Region(e))).0
    {
      match this
      case Naive(b) =>
        b.Update(e, previous);
      case Spatial(b) =>
        MoveStaysWithin(b.tree.Model(), s, e, RegionAt(previous, e.geometry.radius), Region(e));
        assert s + {e} == s;
        b.Update(e, previous);
    }

    /** `for_each_potential_collision_group`: the groups the callback receives, in order.
        The naive list is one group, even when empty; the quadtree gives one group per leaf
        holding at least two entities. Every group lists held entities, each once. */
    method Groups(ghost s: set<Entity>) returns (groups: seq<seq<Entity>>)
      requires Valid() && Within(s)
      ensures Naive? ==> groups == [naive.entities]
      ensures Spatial? ==> |groups| == |VisitAtLeast(spatial.tree.Model(), 2)|
      ensures Spatial? ==> forall i :: 0 <= i < |groups| ==>
        var l := VisitAtLeast(spatial.tree.Model(), 2)[i];
        l.Leaf? && LeafWF(l.population, l.count) && l.count >= 2 &&
        groups[i] == Members(l.population, l.count)
      ensures forall i :: 0 <= i < |groups| ==> GroupWithin(groups[i], s)
    {
      match this
      case Naive(b) =>
        groups := b.Groups();
      case Spatial(b) =>
        groups := b.Groups();
        forall i | 0 <= i < |groups|
          ensures GroupWithin(groups[i], s)
        {
          var l := VisitAtLeast(b.tree.Model(), 2)[i];
          VisitedWithin(b.tree.Model(), 2, s, l);
          MembersWithin(l, s);
        }
    }
  }

  /** Removing from a list of distinct entities of `s` leaves such a list. */
  lemma RemovedKeepsGroup(list: seq<Entity>, e: Entity, s: set<Entity>)
    requires GroupWithin(list, s)
    ensures GroupWithin(Removed(list, e), s)
  {
    if e in list {
      var i := NaiveBroadphases.IndexOf(list, e);
      assert Removed(list, e) == list[..i] + list[i + 1..];
      SplicedKeepsGroup(list, i, s);
    } else if list != [] {
      var r := list[..|list| - 1];
      assert Removed(list, e) == r;
      forall a | 0 <= a < |r|
        ensures r[a] in s
      {
        assert r[a] == list[a];
      }
    }
  }

  /** Splicing one position out of a list of distinct entities of `s` leaves such a list. */
  lemma SplicedKeepsGroup(list: seq<Entity>, i: nat, s: set<Entity>)
    requires GroupWithin(list, s) && i < |list|
    ensures GroupWithin(list[..i] + list[i + 1..], s)
  {
    var r := list[..i] + list[i + 1..];
    forall a | 0 <= a < |r|
      ensures r[a] == list[if a < i then a else a + 1]
    {
    }
    forall a, b | 0 <= a < b < |r|
      ensures r[a] != r[b]
    {
      var a', b' := if a < i then a else a + 1, if b < i then b else b + 1;
      assert a' < b';
    }
  }
}
