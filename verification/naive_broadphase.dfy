/** source/collision/broadphase/NaiveBroadphase.ts: no culling at all. The broadphase is a
    flat list of entities, and the only group it reports is the whole list. */
module NaiveBroadphases {
  import opened Entities
  import opened Vectors

  /** `indexOf`: the first position of x in s, or -1. */
  function IndexOf<T(==)>(s: seq<T>, x: T): (i: int)
    ensures -1 <= i < |s|
    ensures i == -1 <==> x !in s
    ensures i >= 0 ==> s[i] == x && x !in s[..i]
  {
    if |s| == 0 then -1
    else if s[0] == x then 0
    else
      var j := IndexOf(s[1..], x);
      if j == -1 then -1
      else
        assert s[..j + 1] == [s[0]] + s[1..][..j];
        j + 1
  }

  /** `splice(i, 1)`: a position in range loses its element; -1 counts from the end, so it
      drops the last element (of a non-empty list). */
  function Spliced<T>(s: seq<T>, i: int): (r: seq<T>)
    requires -1 <= i < |s|
  {
    if i >= 0 then s[..i] + s[i + 1..]
    else if |s| == 0 then s
    else s[..|s| - 1]
  }

  /** What `remove(x)` leaves of the list s. */
  function Removed<T(==)>(s: seq<T>, x: T): seq<T>
  {
    Spliced(s, IndexOf(s, x))
  }

  /** Removing a present entity deletes its first occurrence and keeps the others in order. */
  lemma RemovedPresent<T>(s: seq<T>, x: T)
    requires x in s
    ensures var i := IndexOf(s, x);
      0 <= i < |s| && s[i] == x && x !in s[..i] &&
      Removed(s, x) == s[..i] + s[i + 1..] &&
      multiset(Removed(s, x)) == multiset(s) - multiset{x}
  {
    var i := IndexOf(s, x);
    SplicedCount(s, i);
  }

  /** Splicing out position i removes one copy of s[i]. */
  lemma SplicedCount<T>(s: seq<T>, i: nat)
    requires i < |s|
    ensures multiset(s[..i] + s[i + 1..]) == multiset(s) - multiset{s[i]}
  {
    var before, after := s[..i], s[i + 1..];
    assert s == before + [s[i]] + after;
    assert multiset(s) == multiset(before) + multiset{s[i]} + multiset(after);
  }

  /** Removing an absent entity from a non-empty list drops the list's last element. */
  lemma RemovedAbsent<T>(s: seq<T>, x: T)
    requires x !in s && s != []
    ensures Removed(s, x) == s[..|s| - 1]
  {
  }

  /** Adding an entity that is not yet listed and then removing it restores the list. */
  lemma AddThenRemove<T>(s: seq<T>, x: T)
    requires x !in s
    ensures Removed(s + [x], x) == s
  {
    RemovedPresent(s + [x], x);
    assert (s + [x])[..|s|] == s;
  }

  class NaiveBroadphase {
    var entities: seq<Entity>

    constructor ()
      ensures entities == []
    {
      entities := [];
    }

    /** `clear`. */
    method Clear()
      modifies this
      ensures entities == []
    {
      entities := [];
    }

    /** `add`: appends, without looking for a duplicate. */
    method Add(e: Entity)
      modifies this
      ensures entities == old(entities) + [e]
    {
      entities := entities + [e];
    }

    /** `remove`: splices out the first occurrence, or the last element when absent. */
    method Remove(e: Entity)
      modifies this
      ensures entities == Removed(old(entities), e)
    {
      var i := IndexOf(entities, e);
      entities := Spliced(entities, i);
    }

    /** `update`: the list does not depend on positions, so a move changes nothing. */
    method Update(e: Entity, previous: Vec)
      ensures entities == old(entities)
    {
    }

    /** `for_each_potential_collision_group`: one group, the whole list (even when empty). */
    method Groups() returns (groups: seq<seq<Entity>>)
      ensures groups == [entities]
    {
      groups := [entities];
    }
  }
}
