/** source/simulation/World.ts: the set of spawned entities, the snapshot array a step runs
    over, and the step itself: separation of intersecting bodies, then either simple or
    piecewise integration, then the rest clamp. */
module Worlds {
  import opened Wrappers
  import opened Vectors
  import opened Discs
  import opened RigidBodies
  import opened Entities
  import opened Buffers
  import opened CollisionTester
  import opened PairScans
  import opened Detection
  import opened Resolution
  import opened QuadtreeModel
  import opened QuadtreeBroadphases
  import opened Broadphases
  import opened BoundingBoxes

  /** The mass a static body enters a collision response with: 10^14. */
  const STATIC_MASS: real := 100000000000000.0
  /** A piecewise step stops once less than this much time is left. */
  const MIN_TIME_STEP_SIZE: real := 0.001
  /** The gap `separate` leaves between two discs. */
  const SEPARATION_PADDING: real := 0.001
  /** A squared speed below this is treated as rest. */
  const REST_VELOCITY_THRESHOLD: real := 0.001

  /** `despawn` of an entity that is not in the world. */
  datatype WorldError = NotSpawned

  /* ------------------------------------------------------------ rules on values */

  /** The target `_separate` chooses, and `_collide` uses after putting a static entity
      first: Second when a is static, First when b is static, Both otherwise. */
  function TargetFor(aStatic: bool, bStatic: bool): (t: Target)
    ensures aStatic ==> t == Second
    ensures !(aStatic && bStatic) ==> (MovesFirst(t) <==> !aStatic) && (MovesSecond(t) <==> !bStatic)
  {
    if aStatic then Second else if bStatic then First else Both
  }

  /** The rest clamp: a velocity whose squared length is below the threshold becomes zero. */
  function Clamped(v: Vec): (w: Vec)
    ensures w == Zero || w.LengthSquared() >= REST_VELOCITY_THRESHOLD
    ensures w == v || w == Zero
    ensures v.LengthSquared() >= REST_VELOCITY_THRESHOLD ==> w == v
  {
    if v.LengthSquared() < REST_VELOCITY_THRESHOLD then Zero else v
  }

  /** Clamping twice is clamping once. */
  lemma ClampedIdempotent(v: Vec)
    ensures Clamped(Clamped(v)) == Clamped(v)
  {
    if Clamped(v) == Zero {
      assert Zero.LengthSquared() == 0.0;
    }
  }

  /** A velocity is at rest or clear of the threshold. */
  predicate Settled(v: Vec)
  {
    v == Zero || v.LengthSquared() >= REST_VELOCITY_THRESHOLD
  }

  /** `_step_entity` on position and velocity: semi-implicit Euler under the applied force
      `force`, with inverse mass `inverse`, over `dt`. */
  function Advanced(position: Vec, velocity: Vec, force: Vec, inverse: real, dt: real): (r: (Vec, Vec))
    ensures r.1.Minus(velocity) == force.Scale(dt * inverse)
    ensures force == Zero ==> r == (position.Plus(velocity.Scale(dt)), velocity)
    ensures dt == 0.0 ==> r == (position, velocity)
  {
    var half, full := force.Scale(0.5 * dt * inverse), force.Scale(dt * inverse);
    assert force == Zero ==> half == Zero && full == Zero && velocity.Plus(Zero) == velocity;
    (position.Plus(velocity.Plus(half).Scale(dt)), velocity.Plus(full))
  }

  /** `_step_entity` on rotation and angular velocity, for a finite inverse moment of
      inertia `inverse`: the torque's angular acceleration over `dt`. */
  function Spun(rotation: real, spin: real, torque: real, inverse: real, dt: real): (r: (real, real))
    ensures r.1 - spin == torque * inverse * dt
    ensures torque == 0.0 ==> r == (rotation + spin * dt, spin)
    ensures dt == 0.0 ==> r == (rotation, spin)
  {
    var adt := torque * inverse * dt;
    assert torque == 0.0 ==> adt == 0.0 && 0.5 * dt * adt == 0.0;
    assert dt == 0.0 ==> adt == 0.0 && spin * dt == 0.0;
    (rotation + spin * dt + 0.5 * dt * adt, spin + adt)
  }

  /* ------------------------------------------------------------ pairs of entities */

  /** What `_separate` and `_collide` read of an entity and its body. */
  datatype Particle = Particle(isStatic: bool, position: Vec, velocity: Vec, mass: real,
                               elasticity: real, radius: real)

  /** The positions `_separate(a, b)` leaves: the target keeps a static side in place, and
      the sides it moves take what `separate` computes. */
  function Separated(a: Particle, b: Particle, separate: Separator): (r: (Vec, Vec))
    requires !(a.isStatic && b.isStatic)
    ensures a.isStatic ==> r.0 == a.position
    ensures b.isStatic ==> r.1 == b.position
    ensures !a.isStatic ==>
      r.0 == separate(a.position, a.radius, b.position, b.radius, SEPARATION_PADDING, TargetFor(a.isStatic, b.isStatic)).0
    ensures !b.isStatic ==>
      r.1 == separate(a.position, a.radius, b.position, b.radius, SEPARATION_PADDING, TargetFor(a.isStatic, b.isStatic)).1
  {
    var t := TargetFor(a.isStatic, b.isStatic);
    Targeted(t, a.position, b.position,
             separate(a.position, a.radius, b.position, b.radius, SEPARATION_PADDING, t))
  }

  /** `_collide` once a static side, if any, has been put first: a static first side enters
      the response with `STATIC_MASS` and zero velocity and only the second side changes;
      otherwise both change. R is the sum of the radii. */
  function Responded(first: Particle, second: Particle, respond: Responder): (r: (Vec, Vec))
  {
    var R := first.radius + second.radius;
    if first.isStatic then
      Targeted(Second, first.velocity, second.velocity,
               respond(first.position, Zero, STATIC_MASS, first.elasticity,
                       second.position, second.velocity, second.mass, second.elasticity, Second, R))
    else
      Targeted(Both, first.velocity, second.velocity,
               respond(first.position, first.velocity, first.mass, first.elasticity,
                       second.position, second.velocity, second.mass, second.elasticity, Both, R))
  }

  /** The velocities `_collide(a, b)` leaves: a static b is swapped to the front; a static
      side keeps its velocity, and the other side takes the response computed against a
      body of mass `STATIC_MASS` at rest. */
  function Collided(a: Particle, b: Particle, respond: Responder): (r: (Vec, Vec))
    requires !(a.isStatic && b.isStatic)
    ensures a.isStatic ==>
      r.0 == a.velocity &&
      r.1 == respond(a.position, Zero, STATIC_MASS, a.elasticity, b.position, b.velocity,
                     b.mass, b.elasticity, Second, a.radius + b.radius).1
    ensures b.isStatic ==>
      r.1 == b.velocity &&
      r.0 == respond(b.position, Zero, STATIC_MASS, b.elasticity, a.position, a.velocity,
                     a.mass, a.elasticity, Second, b.radius + a.radius).1
    ensures !a.isStatic && !b.isStatic ==>
      r == respond(a.position, a.velocity, a.mass, a.elasticity, b.position, b.velocity,
                   b.mass, b.elasticity, Both, a.radius + b.radius)
  {
    if b.isStatic then
      var r := Responded(b, a, respond);
      (r.1, r.0)
    else
      Responded(a, b, respond)
  }

  /** The order of the two entities does not matter to `_collide` when one is static: each
      side ends with the same velocity. */
  lemma CollidedSwapsWithStatic(a: Particle, b: Particle, respond: Responder)
    requires a.isStatic != b.isStatic
    ensures Collided(b, a, respond) == (Collided(a, b, respond).1, Collided(a, b, respond).0)
  {
  }

  /* ------------------------------------------------------------ the dirty map */

  /** `_dirty_entities`: a JavaScript Map, as its keys in insertion order and the position
      kept for each. */
  datatype Dirty = Dirty(keys: seq<Entity>, at: map<Entity, Vec>)
  {
    ghost predicate Valid()
    {
      NoDup(keys) && (forall i :: 0 <= i < |keys| ==> keys[i] in at) &&
      (forall e :: e in at ==> e in keys)
    }
  }

  /** `dirty_set.set(e, p)`: a new key goes to the end; a key already present keeps its
      place and takes the new position. */
  function Set(d: Dirty, e: Entity, p: Vec): (r: Dirty)
    requires d.Valid()
    ensures r.Valid() && r.at == d.at[e := p]
    ensures e in d.at ==> r.keys == d.keys
    ensures e !in d.at ==> r.keys == d.keys + [e]
  {
    if e in d.at then Dirty(d.keys, d.at[e := p])
    else
      assert forall i :: 0 <= i < |d.keys| ==> d.keys[i] != e;
      Dirty(d.keys + [e], d.at[e := p])
  }

  /** The separation pass's use of `set` replaces the position recorded at the entity's
      first separation by the one before its latest: marking p and then q keeps q. */
  lemma SetKeepsLatest(d: Dirty, e: Entity, p: Vec, q: Vec)
    requires d.Valid() && e !in d.at && p != q
    ensures Set(Set(d, e, p), e, q).at[e] == q != p
  {
  }

  /** Marking an entity only when it is not yet a key: the position it had when first
      marked stays. */
  function SetIfAbsent(d: Dirty, e: Entity, p: Vec): (r: Dirty)
    requires d.Valid()
    ensures r.Valid() && e in r.at
    ensures e in d.at ==> r == d
    ensures e !in d.at ==> r.keys == d.keys + [e] && r.at == d.at[e := p]
  {
    if e in d.at then d else Set(d, e, p)
  }

  /** Marking p and then q keeps p. */
  lemma SetIfAbsentKeepsFirst(d: Dirty, e: Entity, p: Vec, q: Vec)
    requires d.Valid() && e !in d.at
    ensures SetIfAbsent(SetIfAbsent(d, e, p), e, q).at[e] == p
  {
  }

  /** A tree built with depth 2 is a node over four empty leaves on its quadrants. */
  lemma BuildTwo<E>(b: Box)
    ensures Build<E>(2, b) ==
      Node(b, CenterX(b), CenterY(b), 0,
        [Leaf(ChildBounds(b, CenterX(b), CenterY(b), SW), [None, None], 0),
         Leaf(ChildBounds(b, CenterX(b), CenterY(b), SE), [None, None], 0),
         Leaf(ChildBounds(b, CenterX(b), CenterY(b), NW), [None, None], 0),
         Leaf(ChildBounds(b, CenterX(b), CenterY(b), NE), [None, None], 0)])
  {
    var kids: seq<Tree<E>> := BuildKids(2, b);
  }

  /** Four empty leaves on the quadrants of [0, 4] x [0, 4], split at (2, 2). */
  function Quadrants<E>(): Tree<E>
  {
    Node(Box(0.0, 4.0, 0.0, 4.0), 2.0, 2.0, 0,
      [Leaf(Box(0.0, 2.0, 0.0, 2.0), [None, None], 0), Leaf(Box(2.0, 4.0, 0.0, 2.0), [None, None], 0),
       Leaf(Box(0.0, 2.0, 2.0, 4.0), [None, None], 0), Leaf(Box(2.0, 4.0, 2.0, 4.0), [None, None], 0)])
  }

  /** That is the constructor's tree of depth 2 over [0, 4] x [0, 4]. */
  lemma BuildQuadrants<E>()
    ensures Build<E>(2, Box(0.0, 4.0, 0.0, 4.0)) == Quadrants<E>()
  {
    var b := Box(0.0, 4.0, 0.0, 4.0);
    BuildTwo<E>(b);
    ChildBoundsAreQuadrants(b);
  }

  /** No entity is listed anywhere in it. */
  lemma QuadrantsEmpty<E>(p: seq<int>, x: E)
    ensures !ActiveAt(Quadrants<E>(), p, x)
  {
  }

  /** The walk for the box around (1, 1) with radius 0.5 reaches the south-west leaf only. */
  lemma ReachedSouthWest<E>(p: seq<int>)
    ensures Reached(Quadrants<E>(), RegionAt(Vec(1.0, 1.0), 0.5), p) <==> p == [SW]
  {
    assert RegionAt(Vec(1.0, 1.0), 0.5) == Box(0.5, 1.5, 0.5, 1.5);
    if |p| > 0 {
      assert p == [p[0]] + p[1..];
    }
  }

  /** The walk for the box around (3, 1) with radius 0.5 does not reach the south-west leaf. */
  lemma MissedSouthWest<E>()
    ensures !Reached(Quadrants<E>(), RegionAt(Vec(3.0, 1.0), 0.5), [SW])
  {
    assert RegionAt(Vec(3.0, 1.0), 0.5) == Box(2.5, 3.5, 0.5, 1.5);
  }

  /** The walk for the box around (3, 3) with radius 0.5 reaches the north-east leaf only. */
  lemma ReachedNorthEast<E>(p: seq<int>)
    ensures Reached(Quadrants<E>(), RegionAt(Vec(3.0, 3.0), 0.5), p) <==> p == [NE]
  {
    assert RegionAt(Vec(3.0, 3.0), 0.5) == Box(2.5, 3.5, 2.5, 3.5);
    if |p| > 0 {
      assert p == [p[0]] + p[1..];
    }
  }

  /** On that tree, an entity added around (1, 1) with radius 0.5 is listed in the south-west
      leaf and nowhere else. */
  lemma AddedSouthWest<E>(x: E, p: seq<int>)
    ensures var t := Add(Build(2, Box(0.0, 4.0, 0.0, 4.0)), x, RegionAt(Vec(1.0, 1.0), 0.5)).0;
      SameShape(Build<E>(2, Box(0.0, 4.0, 0.0, 4.0)), t) && (ActiveAt(t, p, x) <==> p == [SW])
  {
    var b, r := Box(0.0, 4.0, 0.0, 4.0), RegionAt(Vec(1.0, 1.0), 0.5);
    BuildQuadrants<E>();
    assert r.Overlaps(b);
    AssociateMembership(Quadrants<E>(), x, r);
    QuadrantsEmpty(p, x);
    ReachedSouthWest<E>(p);
  }

  /** Trees of the same shape have their children over the same boxes. */
  lemma SameShapeKidBounds<E>(a: Tree<E>, b: Tree<E>, k: int)
    requires SameShape(a, b) && a.Node? && 0 <= k < |a.kids|
    ensures b.Node? && |b.kids| == |a.kids| && b.kids[k].bounds == a.kids[k].bounds
  {
    assert SameShape(a.kids[k], b.kids[k]);
  }

  /** Where the entity is listed after the move below, path by path. */
  lemma LatestMarkListing<E>(x: E, p: seq<int>)
    ensures var t := Add(Build(2, Box(0.0, 4.0, 0.0, 4.0)), x, RegionAt(Vec(1.0, 1.0), 0.5)).0;
      var moved := MoveRoot(t, x, RegionAt(Vec(3.0, 1.0), 0.5), RegionAt(Vec(3.0, 3.0), 0.5)).0;
      ActiveAt(moved, p, x) <==> p == [SW] || p == [NE]
  {
    var previous, now := RegionAt(Vec(3.0, 1.0), 0.5), RegionAt(Vec(3.0, 3.0), 0.5);
    assert previous == Box(2.5, 3.5, 0.5, 1.5) && now == Box(2.5, 3.5, 2.5, 3.5);
    BuildQuadrants<E>();
    var q: Tree<E> := Quadrants();
    var t := Add(q, x, RegionAt(Vec(1.0, 1.0), 0.5)).0;
    AddedSouthWest(x, p);
    assert BoundingBoxes.Intersection(previous, now).IsDegenerate() && now.Overlaps(t.bounds);
    var t1 := Disassociate(t, x, previous);
    assert MoveRoot(t, x, previous, now).0 == Associate(t1, x, now);
    SameShapeTransitive(q, t, t1);
    DisassociateMembership(t, x, previous);
    AssociateMembership(t1, x, now);
    SameShapePaths(q, t, previous, p);
    SameShapePaths(q, t1, now, p);
    ReachedNorthEast<E>(p);
    if p == [SW] {
      MissedSouthWest<E>();
    }
  }

  /** After that move the root still has four children, the south-west one over
      [0, 2] x [0, 2]. */
  lemma LatestMarkSouthWestBounds<E>(x: E)
    ensures var t := Add(Build(2, Box(0.0, 4.0, 0.0, 4.0)), x, RegionAt(Vec(1.0, 1.0), 0.5)).0;
      var moved := MoveRoot(t, x, RegionAt(Vec(3.0, 1.0), 0.5), RegionAt(Vec(3.0, 3.0), 0.5)).0;
      moved.Node? && |moved.kids| == 4 && moved.kids[SW].bounds == Box(0.0, 2.0, 0.0, 2.0)
  {
    var previous, now := RegionAt(Vec(3.0, 1.0), 0.5), RegionAt(Vec(3.0, 3.0), 0.5);
    assert previous == Box(2.5, 3.5, 0.5, 1.5) && now == Box(2.5, 3.5, 2.5, 3.5);
    BuildQuadrants<E>();
    var q: Tree<E> := Quadrants();
    var t := Add(q, x, RegionAt(Vec(1.0, 1.0), 0.5)).0;
    AddedSouthWest(x, []);
    assert BoundingBoxes.Intersection(previous, now).IsDegenerate() && now.Overlaps(t.bounds);
    var t1 := Disassociate(t, x, previous);
    var moved := Associate(t1, x, now);
    assert MoveRoot(t, x, previous, now).0 == moved;
    SameShapeTransitive(q, t, t1);
    SameShapeTransitive(q, t1, moved);
    SameShapeKidBounds(q, moved, SW);
  }

  /** What keeping the latest mark costs the quadtree broadphase: an entity added around
      (1, 1), radius 0.5, to the depth-2 tree over [0, 4] x [0, 4], that the separation pass
      pushes to (3, 1) and then to (3, 3), is moved from the region around (3, 1). The
      south-west leaf, which its region no longer overlaps, still lists it beside the
      north-east leaf. */
  lemma LatestMarkLeavesStaleLeaf<E>(x: E)
    ensures var now := RegionAt(Vec(3.0, 3.0), 0.5);
      var t := Add(Build(2, Box(0.0, 4.0, 0.0, 4.0)), x, RegionAt(Vec(1.0, 1.0), 0.5)).0;
      var moved := MoveRoot(t, x, RegionAt(Vec(3.0, 1.0), 0.5), now).0;
      (forall p :: ActiveAt(moved, p, x) <==> p == [SW] || p == [NE])
      && !now.Overlaps(moved.kids[SW].bounds)
  {
    LatestMarkSouthWestBounds(x);
    assert RegionAt(Vec(3.0, 3.0), 0.5) == Box(2.5, 3.5, 2.5, 3.5);
    forall p
      ensures var t := Add(Build(2, Box(0.0, 4.0, 0.0, 4.0)), x, RegionAt(Vec(1.0, 1.0), 0.5)).0;
        var moved := MoveRoot(t, x, RegionAt(Vec(3.0, 1.0), 0.5), RegionAt(Vec(3.0, 3.0), 0.5)).0;
        ActiveAt(moved, p, x) <==> p == [SW] || p == [NE]
    {
      LatestMarkListing(x, p);
    }
  }

  /** Moving it from the region around the first mark, as the corrected map does, leaves it
      in the north-east leaf only. */
  lemma FirstMarkMovesCleanly<E>(x: E)
    ensures var t := Add(Build(2, Box(0.0, 4.0, 0.0, 4.0)), x, RegionAt(Vec(1.0, 1.0), 0.5)).0;
      var moved := MoveRoot(t, x, RegionAt(Vec(1.0, 1.0), 0.5), RegionAt(Vec(3.0, 3.0), 0.5)).0;
      forall p :: ActiveAt(moved, p, x) <==> p == [NE]
  {
    var previous, now := RegionAt(Vec(1.0, 1.0), 0.5), RegionAt(Vec(3.0, 3.0), 0.5);
    assert previous == Box(0.5, 1.5, 0.5, 1.5) && now == Box(2.5, 3.5, 2.5, 3.5);
    BuildQuadrants<E>();
    var q: Tree<E> := Quadrants();
    var t := Add(q, x, previous).0;
    AddedSouthWest(x, []);
    assert BoundingBoxes.Intersection(previous, now).IsDegenerate() && now.Overlaps(t.bounds);
    var t1 := Disassociate(t, x, previous);
    var moved := Associate(t1, x, now);
    assert MoveRoot(t, x, previous, now).0 == moved;
    SameShapeTransitive(q, t, t1);
    forall p
      ensures ActiveAt(moved, p, x) <==> p == [NE]
    {
      AddedSouthWest(x, p);
      DisassociateMembership(t, x, previous);
      AssociateMembership(t1, x, now);
      SameShapePaths(q, t, previous, p);
      SameShapePaths(q, t1, now, p);
      ReachedSouthWest<E>(p);
      ReachedNorthEast<E>(p);
    }
  }

  /* ------------------------------------------------------------ the earliest contact */

  /** The smallest of `t` and the times in `ts`. */
  function MinTime(t: real, ts: seq<real>): (m: real)
    ensures m <= t && forall i :: 0 <= i < |ts| ==> m <= ts[i]
    ensures m == t || exists i :: 0 <= i < |ts| && m == ts[i]
  {
    if |ts| == 0 then t
    else
      var m := MinTime(t, ts[..|ts| - 1]);
      assert forall i :: 0 <= i < |ts| - 1 ==> ts[..|ts| - 1][i] == ts[i];
      if ts[|ts| - 1] < m then ts[|ts| - 1] else m
  }

  /** The times `_step_group` compares: for each reported index j, in report order, the
      time recorded at j. */
  function RecordedTimes(indices: seq<int>, times: seq<real>, count: nat): (ts: seq<real>)
    requires count <= |indices|
    requires forall i :: 0 <= i < count ==> 0 <= indices[i] < |times|
    ensures |ts| == count && forall i :: 0 <= i < count ==> ts[i] == times[indices[i]]
  {
    seq(count, i requires 0 <= i < count => times[indices[i]])
  }

  /** The times compared are each reported entity's LAST later partner's time, not its
      earliest: with three discs where 0 meets 1 at 0.1 and 2 at 0.5 and 1 never meets 2,
      the scan reports 0 twice with time 0.5, so `_step_group` advances to 0.5 although
      a contact at 0.1 exists. */
  lemma LastPartnerHidesEarlierContact()
    ensures var hit := (j: nat, k: nat) => j == 0 && (k == 1 || k == 2);
      var time := (j: nat, k: nat) => if k == 1 then 0.1 else 0.5;
      var c := ContactScan(hit, time, 3, 0.0, [-1, -1, -1], [0.0, 0.0, 0.0], 3);
      c.reported == [0, 0] && c.times[0] == 0.5 &&
      MinTime(1.0, RecordedTimes(c.reported, c.times, 2)) == 0.5 &&
      hit(0, 1) && time(0, 1) < 0.5
  {
    var hit := (j: nat, k: nat) => j == 0 && (k == 1 || k == 2);
    var time := (j: nat, k: nat) => if k == 1 then 0.1 else 0.5;
    var c := ContactScan(hit, time, 3, 0.0, [-1, -1, -1], [0.0, 0.0, 0.0], 3);
    assert c.reported == [0, 0] && c.times[0] == 0.5;
    assert RecordedTimes(c.reported, c.times, 2) == [0.5, 0.5];
  }

  /** Recording one more reported index extends the recorded times by its time. */
  lemma RecordedTimesNext(indices: seq<int>, times: seq<real>, count: nat)
    requires count < |indices|
    requires forall i :: 0 <= i <= count ==> 0 <= indices[i] < |times|
    ensures RecordedTimes(indices, times, count + 1) ==
      RecordedTimes(indices, times, count) + [times[indices[count]]]
  {
  }

  /** The selection loop of `_step_group`: starting from t and the previous choice (j0, k0),
      each reported j whose recorded time is strictly below the best so far becomes the
      choice, with its partner `pairs[j]`. The result is the least of t and the recorded
      times; when it is below t, the choice is the first reported index that reaches it, and
      otherwise the previous choice stands. */
  method EarliestContact(indices: seq<int>, pairs: seq<int>, times: seq<real>, count: nat,
                         t: real, j0: int, k0: int)
    returns (jMin: int, kMin: int, tMin: real)
    requires count <= |indices|
    requires forall i :: 0 <= i < count ==> 0 <= indices[i] < |pairs| && indices[i] < |times|
    ensures tMin == MinTime(t, RecordedTimes(indices, times, count))
    ensures tMin == t ==> jMin == j0 && kMin == k0
    ensures tMin < t ==>
      exists i :: 0 <= i < count && jMin == indices[i] && kMin == pairs[jMin] && tMin == times[jMin] &&
        forall i' :: 0 <= i' < i ==> times[indices[i']] > tMin
  {
    jMin, kMin, tMin := j0, k0, t;
    for i := 0 to count
      invariant tMin == MinTime(t, RecordedTimes(indices, times, i))
      invariant tMin == t ==> jMin == j0 && kMin == k0
      invariant tMin < t ==> FirstReaching(indices, pairs, times, i, jMin, kMin, tMin)
    {
      RecordedTimesNext(indices, times, i);
      var j := indices[i];
      var k := pairs[j];
      var time := times[j];
      if time < tMin {
        ChoiceReplaced(indices, pairs, times, i, t, tMin);
        jMin, kMin, tMin := j, k, time;
      } else if tMin < t {
        ChoiceKept(indices, pairs, times, i, jMin, kMin, tMin);
      }
    }
  }

  /** Among the first n reported indices, j is the first whose recorded time is tm, and k
      its partner. */
  ghost predicate FirstReaching(indices: seq<int>, pairs: seq<int>, times: seq<real>, n: nat,
                                j: int, k: int, tm: real)
    requires n <= |indices|
    requires forall i :: 0 <= i < n ==> 0 <= indices[i] < |pairs| && indices[i] < |times|
  {
    exists x :: 0 <= x < n && j == indices[x] && k == pairs[j] && tm == times[j] &&
      forall i' :: 0 <= i' < x ==> times[indices[i']] > tm
  }

  /** A later index whose time is not below the choice leaves the choice first. */
  lemma ChoiceKept(indices: seq<int>, pairs: seq<int>, times: seq<real>, n: nat, j: int, k: int, tm: real)
    requires n < |indices|
    requires forall i :: 0 <= i <= n ==> 0 <= indices[i] < |pairs| && indices[i] < |times|
    requires FirstReaching(indices, pairs, times, n, j, k, tm)
    ensures FirstReaching(indices, pairs, times, n + 1, j, k, tm)
  {
    var x :| 0 <= x < n && j == indices[x] && k == pairs[j] && tm == times[j] &&
      forall i' :: 0 <= i' < x ==> times[indices[i']] > tm;
    assert 0 <= x < n + 1;
  }

  /** An index whose time is below the least time so far becomes the first to reach it. */
  lemma ChoiceReplaced(indices: seq<int>, pairs: seq<int>, times: seq<real>, n: nat, t: real, tm: real)
    requires n < |indices|
    requires forall i :: 0 <= i <= n ==> 0 <= indices[i] < |pairs| && indices[i] < |times|
    requires tm == MinTime(t, RecordedTimes(indices, times, n)) && times[indices[n]] < tm
    ensures FirstReaching(indices, pairs, times, n + 1, indices[n], pairs[indices[n]], times[indices[n]])
  {
    var ts := RecordedTimes(indices, times, n);
    forall i' | 0 <= i' < n
      ensures times[indices[i']] > times[indices[n]]
    {
      assert ts[i'] == times[indices[i']];
    }
  }

  /** What `_step_group` may rely on of a finished `find_colliding_pairs` over a group g
      within t: each reported j has a later partner k in the group with which it collides,
      its pair slot holds k, and its time slot holds that pair's time, which lies in
      [0, t]. */
  lemma ReportedContact(g: seq<DiscState>, t: real, solve: Solver, n: nat, hole: real,
                        p: seq<int>, times: seq<real>, i: nat)
    requires n <= |g| && 0.0 <= t
    requires i < |ContactScan(CollisionHits(g, t, solve), CollisionTimes(g, t, solve), n, hole,
                              Filled(p, n, -1), times, n).reported|
    ensures var c := ContactScan(CollisionHits(g, t, solve), CollisionTimes(g, t, solve), n, hole,
                                 Filled(p, n, -1), times, n);
      var j := c.reported[i];
      0 <= j < n && j < |c.times| && j < |c.pairs| &&
      j < c.pairs[j] < n && Collides(g, t, solve, j, c.pairs[j]) &&
      c.times[j] == CollisionTime(g, t, solve, j, c.pairs[j]) && 0.0 <= c.times[j] <= t
  {
    var hit, time := CollisionHits(g, t, solve), CollisionTimes(g, t, solve);
    var c := ContactScan(hit, time, n, hole, Filled(p, n, -1), times, n);
    CollidingPairs(hit, time, n, hole, p, times);
    var j := c.reported[i];
    assert multiset(c.reported)[j] > 0;
    PartnersBelowExactly(hit, j, n);
    var ps := Partners(hit, n, j);
    assert ps[|ps| - 1] in ps;
  }

  /* ------------------------------------------------------------ moving entities */

  /** What a body's motion state is: position, velocity, rotation and angular velocity. */
  datatype Motion = Motion(position: Vec, velocity: Vec, rotation: real, spin: real)

  function MotionOf(b: RigidBody): Motion
    reads b
  {
    Motion(b.position, b.velocity, b.rotation, b.angularVelocity)
  }

  /** `_step_entity` on a motion state: `Advanced` for the linear part and, when the inverse
      moment of inertia is finite, `Spun` for the angular part. */
  function StepMotion(m: Motion, force: Vec, massInverse: real, torque: real,
                      inertiaInverse: Option<real>, dt: real): Motion
  {
    var (c, v) := Advanced(m.position, m.velocity, force, massInverse, dt);
    if inertiaInverse.None? then Motion(c, v, m.rotation, m.spin)
    else
      var (a, w) := Spun(m.rotation, m.spin, torque, inertiaInverse.value, dt);
      Motion(c, v, a, w)
  }

  /** The motion of e's body after `_step_entity(e, dt)` from motion m. */
  function Stepped(e: Entity, m: Motion, dt: real): Motion
    reads e
  {
    StepMotion(m, e.appliedForce, e.body.massInverse, e.appliedTorque, e.momentOfInertiaInverse, dt)
  }

  /** A step of length zero leaves the motion as it was, whatever the loads. */
  lemma SteppedZero(e: Entity, m: Motion)
    ensures Stepped(e, m, 0.0) == m
  {
  }

  /** Without loads a step moves the body along its velocity and turns it at its angular
      velocity; neither velocity changes. */
  lemma SteppedFree(e: Entity, m: Motion, dt: real)
    requires e.appliedForce == Zero && e.appliedTorque == 0.0 && e.momentOfInertiaInverse.Some?
    ensures Stepped(e, m, dt) ==
      Motion(m.position.Plus(m.velocity.Scale(dt)), m.velocity, m.rotation + m.spin * dt, m.spin)
  {
  }

  /** `_step_entity(e, dt)`: the body's motion becomes `Stepped`; the entity is untouched. */
  method StepEntity(e: Entity, dt: real)
    modifies e.body
    ensures MotionOf(e.body) == Stepped(e, old(MotionOf(e.body)), dt)
  {
    var m := Stepped(e, MotionOf(e.body), dt);
    e.body.position, e.body.velocity := m.position, m.velocity;
    e.body.rotation, e.body.angularVelocity := m.rotation, m.spin;
  }

  /** What `_separate` and `_collide` read of an entity and its body. */
  function ParticleOf(e: Entity): Particle
    reads e, e.body
  {
    Particle(e.isStatic, e.body.position, e.body.velocity, e.body.mass, e.body.elasticity, e.geometry.radius)
  }

  /** `_separate(a, b)`, for two entities with different bodies, not both static: the two
      positions become `Separated`. */
  method Separate(a: Entity, b: Entity, separate: Separator)
    requires a.body != b.body && !(a.isStatic && b.isStatic)
    modifies a.body`position, b.body`position
    ensures (a.body.position, b.body.position) == Separated(old(ParticleOf(a)), old(ParticleOf(b)), separate)
  {
    var r := Separated(ParticleOf(a), ParticleOf(b), separate);
    a.body.position := r.0;
    b.body.position := r.1;
  }

  /** `_collide(a, b)`, for two entities with different bodies, not both static: a static b
      is put first, and the two velocities become `Collided`. */
  method Collide(a: Entity, b: Entity, respond: Responder)
    requires a.body != b.body && !(a.isStatic && b.isStatic)
    modifies a.body`velocity, b.body`velocity
    ensures (a.body.velocity, b.body.velocity) == Collided(old(ParticleOf(a)), old(ParticleOf(b)), respond)
  {
    var first, second := a, b;
    if b.isStatic {
      first, second := b, a;
    }
    var r := Responded(ParticleOf(first), ParticleOf(second), respond);
    first.body.velocity := r.0;
    second.body.velocity := r.1;
  }

  /** The state the pair scans read of a group: for each entity its flag, position,
      velocity and radius. */
  function States(group: seq<Entity>): (g: seq<DiscState>)
    reads set i | 0 <= i < |group| :: group[i]
    reads set i | 0 <= i < |group| :: group[i].body
    ensures |g| == |group|
    ensures forall i :: 0 <= i < |group| ==>
      g[i] == DiscState(group[i].isStatic, group[i].body.position, group[i].body.velocity, group[i].geometry.radius)
  {
    seq(|group|, i requires 0 <= i < |group|
                   reads set j | 0 <= j < |group| :: group[j]
                   reads set j | 0 <= j < |group| :: group[j].body
                   => DiscState(group[i].isStatic, group[i].body.position, group[i].body.velocity,
                                group[i].geometry.radius))
  }

  /** The bodies of a group. */
  ghost function BodiesOf(group: seq<Entity>): set<RigidBody>
  {
    set i | 0 <= i < |group| :: group[i].body
  }

  /** No two entries of a group share a body. */
  ghost predicate BodiesDistinct(group: seq<Entity>)
  {
    forall i, j :: 0 <= i < j < |group| ==> group[i].body != group[j].body
  }

  /** What `_collide` and `_separate` would read of e once `_step_entity(e, dt)` has run. */
  ghost function AdvancedParticle(e: Entity, dt: real): Particle
    reads e, e.body
  {
    var m := Stepped(e, MotionOf(e.body), dt);
    Particle(e.isStatic, m.position, m.velocity, e.body.mass, e.body.elasticity, e.geometry.radius)
  }

  /** The loop of `_step_group` that steps every entry of a group by dt. */
  method AdvanceAll(group: seq<Entity>, dt: real)
    requires BodiesDistinct(group)
    modifies BodiesOf(group)
    ensures forall i :: 0 <= i < |group| ==>
      MotionOf(group[i].body) == Stepped(group[i], old(MotionOf(group[i].body)), dt)
  {
    for i := 0 to |group|
      invariant forall m :: 0 <= m < i ==>
        MotionOf(group[m].body) == Stepped(group[m], old(MotionOf(group[m].body)), dt)
      invariant forall m :: i <= m < |group| ==> MotionOf(group[m].body) == old(MotionOf(group[m].body))
    {
      StepEntity(group[i], dt);
    }
  }

  /** The end of a pass of `_step_group` when a contact was chosen: `_collide`, then
      `_separate`, on the same pair. The separation reads only positions, which the collision
      leaves alone. */
  method ResolveContact(a: Entity, b: Entity, separate: Separator, respond: Responder)
    requires a.body != b.body && !(a.isStatic && b.isStatic)
    modifies a.body`position, a.body`velocity, b.body`position, b.body`velocity
    ensures (a.body.velocity, b.body.velocity) == Collided(old(ParticleOf(a)), old(ParticleOf(b)), respond)
    ensures (a.body.position, b.body.position) == Separated(old(ParticleOf(a)), old(ParticleOf(b)), separate)
  {
    Collide(a, b, respond);
    Separate(a, b, separate);
  }

  /** The end of a pass of `_step_group`: every entry is stepped by dt and then, when
      `resolve` holds, entries j and k are collided and separated from where the step left
      them. Every other entry ends exactly stepped. */
  method StepThenResolve(group: seq<Entity>, dt: real, resolve: bool, j: int, k: int,
                         separate: Separator, respond: Responder)
    requires BodiesDistinct(group)
    requires resolve ==> 0 <= j < k < |group| && !(group[j].isStatic && group[k].isStatic)
    modifies BodiesOf(group)
    ensures forall i :: 0 <= i < |group| && !(resolve && (i == j || i == k)) ==>
      MotionOf(group[i].body) == Stepped(group[i], old(MotionOf(group[i].body)), dt)
    ensures resolve ==>
      var a, b := group[j], group[k];
      var pa, pb := old(AdvancedParticle(a, dt)), old(AdvancedParticle(b, dt));
      (a.body.velocity, b.body.velocity) == Collided(pa, pb, respond) &&
      (a.body.position, b.body.position) == Separated(pa, pb, separate) &&
      a.body.rotation == old(Stepped(a, MotionOf(a.body), dt)).rotation &&
      b.body.rotation == old(Stepped(b, MotionOf(b.body), dt)).rotation
  {
    AdvanceAll(group, dt);
    if resolve {
      ResolveContact(group[j], group[k], separate, respond);
    }
  }

  /* ------------------------------------------------------------ stepping a group */

  /** The detection half of a pass of `_step_group`'s loop over a group: the colliding
      pairs within t are found into buffers A, B and C, and the earliest recorded contact
      is chosen: the least of t and the times recorded for the reported entities, each of
      which is that entity's last later partner's time (so an earlier contact with another
      partner can be passed over, `LastPartnerHidesEarlierContact`). The chosen time lies in [0, t]; below t, the chosen pair is a colliding
      pair of the group, meeting at that time. */
  method ChooseContact(group: seq<Entity>, t: real, j0: int, k0: int, solve: Solver,
                       bufferA: Buffer<int>, bufferB: Buffer<int>, bufferC: Buffer<real>)
    returns (jMin: int, kMin: int, tMin: real)
    requires bufferA != bufferB && bufferC.hole == 0.0 && 0.0 <= t
    modifies bufferA, bufferB, bufferC
    ensures var g := old(States(group));
      var c := ContactScan(CollisionHits(g, t, solve), CollisionTimes(g, t, solve), |group|, 0.0,
                           Filled(old(bufferB.items), |group|, -1), old(bufferC.items), |group|);
      bufferB.items == c.pairs && bufferC.items == c.times &&
      bufferA.items == Listed(old(bufferA.items), c.reported) &&
      (forall i :: 0 <= i < |c.reported| ==> 0 <= c.reported[i] < |c.times|) &&
      tMin == MinTime(t, RecordedTimes(c.reported, c.times, |c.reported|))
    ensures 0.0 <= tMin <= t
    ensures tMin == t ==> jMin == j0 && kMin == k0
    ensures tMin < t ==>
      0 <= jMin < kMin < |group| && Collides(old(States(group)), t, solve, jMin, kMin) &&
      CollisionTime(old(States(group)), t, solve, jMin, kMin) == tMin
  {
    var g := States(group);
    ghost var p, u := bufferB.items, bufferC.items;
    var count := FindCollidingPairs(g, |group|, t, solve, bufferA, bufferB, bufferC);
    jMin, kMin, tMin := PickEarliest(g, t, solve, p, u, bufferA.items, bufferB.items, bufferC.items, count, j0, k0);
  }

  /** The selection half: over the finished scan of g, the earliest recorded contact. */
  method PickEarliest(ghost g: seq<DiscState>, t: real, solve: Solver, ghost p: seq<int>, ghost u: seq<real>,
                      indices: seq<int>, pairs: seq<int>, times: seq<real>, count: nat, j0: int, k0: int)
    returns (jMin: int, kMin: int, tMin: real)
    requires 0.0 <= t
    requires var c := ContactScan(CollisionHits(g, t, solve), CollisionTimes(g, t, solve), |g|, 0.0,
                                  Filled(p, |g|, -1), u, |g|);
      count == |c.reported| <= |indices| && indices[..count] == c.reported && pairs == c.pairs && times == c.times
    ensures var c := ContactScan(CollisionHits(g, t, solve), CollisionTimes(g, t, solve), |g|, 0.0,
                                 Filled(p, |g|, -1), u, |g|);
      (forall i :: 0 <= i < |c.reported| ==> 0 <= c.reported[i] < |c.times|) &&
      tMin == MinTime(t, RecordedTimes(c.reported, c.times, |c.reported|))
    ensures 0.0 <= tMin <= t
    ensures tMin == t ==> jMin == j0 && kMin == k0
    ensures tMin < t ==>
      0 <= jMin < kMin < |g| && Collides(g, t, solve, jMin, kMin) && CollisionTime(g, t, solve, jMin, kMin) == tMin
  {
    var n := |g|;
    ghost var c := ContactScan(CollisionHits(g, t, solve), CollisionTimes(g, t, solve), n, 0.0,
                               Filled(p, n, -1), u, n);
    forall i | 0 <= i < count
      ensures var j := c.reported[i];
        0 <= j < n && j < |c.times| && j < |c.pairs| && j < c.pairs[j] < n &&
        Collides(g, t, solve, j, c.pairs[j]) &&
        c.times[j] == CollisionTime(g, t, solve, j, c.pairs[j]) && 0.0 <= c.times[j] <= t
    {
      ReportedContact(g, t, solve, n, 0.0, p, u, i);
    }
    assert forall i :: 0 <= i < count ==> indices[i] == indices[..count][i] == c.reported[i];
    jMin, kMin, tMin := EarliestContact(indices, pairs, times, count, t, j0, k0);
    assert RecordedTimes(indices, times, count) == RecordedTimes(c.reported, c.times, count);
    if tMin < t {
      var i :| 0 <= i < count && jMin == indices[i] && kMin == pairs[jMin] && tMin == times[jMin];
      assert c.reported[i] == jMin;
    }
  }

  /** One pass of `_step_group`'s loop with t left: the earliest recorded contact is
      chosen, every entry is stepped by its time, and when that time is below t the chosen
      pair is collided and then separated, from where the step left them. Every other entry
      ends exactly stepped. */
  method StepGroupOnce(group: seq<Entity>, t: real, j0: int, k0: int,
                       solve: Solver, separate: Separator, respond: Responder,
                       bufferA: Buffer<int>, bufferB: Buffer<int>, bufferC: Buffer<real>)
    returns (jMin: int, kMin: int, tMin: real)
    requires bufferA != bufferB && bufferC.hole == 0.0 && BodiesDistinct(group) && 0.0 <= t
    modifies bufferA, bufferB, bufferC, BodiesOf(group)
    ensures 0.0 <= tMin <= t
    ensures tMin == t ==> jMin == j0 && kMin == k0
    ensures tMin < t ==>
      0 <= jMin < kMin < |group| && Collides(old(States(group)), t, solve, jMin, kMin) &&
      CollisionTime(old(States(group)), t, solve, jMin, kMin) == tMin
    ensures forall i :: 0 <= i < |group| && !(tMin < t && (i == jMin || i == kMin)) ==>
      MotionOf(group[i].body) == Stepped(group[i], old(MotionOf(group[i].body)), tMin)
    ensures tMin < t ==>
      var a, b := group[jMin], group[kMin];
      var pa, pb := old(AdvancedParticle(a, tMin)), old(AdvancedParticle(b, tMin));
      (a.body.velocity, b.body.velocity) == Collided(pa, pb, respond) &&
      (a.body.position, b.body.position) == Separated(pa, pb, separate) &&
      a.body.rotation == old(Stepped(a, MotionOf(a.body), tMin)).rotation &&
      b.body.rotation == old(Stepped(b, MotionOf(b.body), tMin)).rotation
  {
    ghost var g := States(group);
    jMin, kMin, tMin := ChooseContact(group, t, j0, k0, solve, bufferA, bufferB, bufferC);
    assert tMin < t ==> g[jMin].isStatic == group[jMin].isStatic && g[kMin].isStatic == group[kMin].isStatic;
    StepThenResolve(group, tMin, tMin < t, jMin, kMin, separate, respond);
  }

  /** `_step_group(group, size, dt)`: passes run while more than `MIN_TIME_STEP_SIZE` is
      left, each taking off the chosen time. Since that time may be 0, at most `rounds`
      passes are run. The time left never goes negative or grows, and the loop stops early
      only once at most `MIN_TIME_STEP_SIZE` is left; with no more than that to begin with,
      nothing changes. */
  method StepGroup(group: seq<Entity>, dt: real, rounds: nat,
                   solve: Solver, separate: Separator, respond: Responder,
                   bufferA: Buffer<int>, bufferB: Buffer<int>, bufferC: Buffer<real>)
    returns (left: real, used: nat)
    requires bufferA != bufferB && bufferC.hole == 0.0 && BodiesDistinct(group) && 0.0 <= dt
    modifies bufferA, bufferB, bufferC, BodiesOf(group)
    ensures 0.0 <= left <= dt && used <= rounds
    ensures used < rounds ==> left <= MIN_TIME_STEP_SIZE
    ensures dt <= MIN_TIME_STEP_SIZE ==> used == 0 && left == dt && unchanged(BodiesOf(group))
  {
    var jMin, kMin := 0, 0;
    left, used := dt, 0;
    while left > MIN_TIME_STEP_SIZE && used < rounds
      invariant 0.0 <= left <= dt && used <= rounds
      invariant dt <= MIN_TIME_STEP_SIZE ==> used == 0 && left == dt && unchanged(BodiesOf(group))
      decreases rounds - used
    {
      var tMin;
      jMin, kMin, tMin := StepGroupOnce(group, left, jMin, kMin, solve, separate, respond, bufferA, bufferB, bufferC);
      left, used := left - tMin, used + 1;
    }
  }

  /* ------------------------------------------------------------ the separation pass */

  /** The entities of `start` have bodies of their own. */
  ghost predicate OwnBodies(start: map<Entity, Vec>)
  {
    forall e, f :: e in start && f in start && e != f ==> e.body != f.body
  }

  /** What `find_intersecting_pairs` gives the separation loop, for a group g: each reported
      j lies in the group, with its first candidate partner k after it, and the two may
      intersect. */
  lemma ScannedPair(g: seq<DiscState>, n: nat, p: seq<int>, i: nat)
    requires n <= |g| && i < |IntersectScan(IntersectHits(g), n, Filled(p, n, -1), n).reported|
    ensures var c := IntersectScan(IntersectHits(g), n, Filled(p, n, -1), n);
      var j := c.reported[i];
      0 <= j < n && j < c.pairs[j] < n && MayIntersect(g, j, c.pairs[j])
  {
    IntersectingPairs(IntersectHits(g), n, p);
  }

  /** The regions the separation pass hands `update` as where each dirty entity was: the
      box around its recorded position. */
  function Prior(d: Dirty): (rs: seq<Box>)
    requires d.Valid()
    ensures |rs| == |d.keys|
    ensures forall i :: 0 <= i < |d.keys| ==> rs[i] == RegionAt(d.at[d.keys[i]], d.keys[i].geometry.radius)
  {
    seq(|d.keys|, i requires 0 <= i < |d.keys| => RegionAt(d.at[d.keys[i]], d.keys[i].geometry.radius))
  }

  /** The tree after `move(es[i], from[i], to[i])` for each i, in order, where `moves[i]`
      holds. */
  ghost function MovedAll(t: Tree<Entity>, es: seq<Entity>, from: seq<Box>, to: seq<Box>, moves: seq<bool>)
    : (r: Tree<Entity>)
    requires WF(t) && |es| == |from| == |to| == |moves|
    ensures WF(r)
    decreases |es|
  {
    if es == [] then t
    else
      var n := |es| - 1;
      var r := MovedAll(t, es[..n], from[..n], to[..n], moves[..n]);
      if moves[n] then MoveRoot(r, es[n], from[n], to[n]).0 else r
  }

  /** Every entry moves. */
  function Everyone(n: nat): (moves: seq<bool>)
    ensures |moves| == n && forall i :: 0 <= i < n ==> moves[i]
  {
    seq(n, _ => true)
  }

  /** The entries that are not static. */
  function Moving(es: seq<Entity>): (moves: seq<bool>)
    reads set i | 0 <= i < |es| :: es[i]
    ensures |moves| == |es| && forall i :: 0 <= i < |es| ==> moves[i] == !es[i].isStatic
  {
    seq(|es|, i requires 0 <= i < |es| reads set j | 0 <= j < |es| :: es[j] => !es[i].isStatic)
  }

  /** The dirty map d is faithful to `start`, the positions at the start of the pass: each
      key's recorded position is its start position, and every entity of `start` that is
      not a key is still there. */
  ghost predicate Tracks(d: Dirty, start: map<Entity, Vec>)
    reads set e | e in start :: e.body
  {
    d.Valid() &&
    (forall e :: e in d.at ==> e in start && d.at[e] == start[e]) &&
    (forall e :: e in start && e !in d.at ==> e.body.position == start[e])
  }

  /** The marking half of the resolution loop's body: each non-static side of the pair is
      marked dirty at its position, an earlier mark being kept. */
  function Marked(d: Dirty, a: Entity, b: Entity): (r: Dirty)
    reads a, b, a.body, b.body
    requires d.Valid()
    ensures r.Valid()
  {
    var d' := if a.isStatic then d else SetIfAbsent(d, a, a.body.position);
    if b.isStatic then d' else SetIfAbsent(d', b, b.body.position)
  }

  /** Marking keeps the map faithful, and afterwards each non-static side is a key. */
  lemma MarkedTracks(d: Dirty, a: Entity, b: Entity, start: map<Entity, Vec>)
    requires Tracks(d, start) && a in start && b in start
    ensures Tracks(Marked(d, a, b), start)
    ensures (!a.isStatic ==> a in Marked(d, a, b).at) && (!b.isStatic ==> b in Marked(d, a, b).at)
  {
    var d' := if a.isStatic then d else SetIfAbsent(d, a, a.body.position);
    assert Tracks(d', start);
  }

  /** The body of the resolution loop of `_separate_colliding_bodies` for the pair a, b:
      the pair is marked, then separated, then collided from the separated positions. The
      dirty map stays faithful to the start of the pass. */
  method ResolveIntersection(d: Dirty, a: Entity, b: Entity, ghost start: map<Entity, Vec>,
                             separate: Separator, respond: Responder)
    returns (d': Dirty)
    requires Tracks(d, start) && OwnBodies(start) && a in start && b in start && a != b
    requires !(a.isStatic && b.isStatic)
    modifies a.body`position, a.body`velocity, b.body`position, b.body`velocity
    ensures Tracks(d', start)
    ensures var s := Separated(old(ParticleOf(a)), old(ParticleOf(b)), separate);
      (a.body.position, b.body.position) == s &&
      (a.body.velocity, b.body.velocity) ==
      Collided(old(ParticleOf(a)).(position := s.0), old(ParticleOf(b)).(position := s.1), respond)
  {
    MarkedTracks(d, a, b, start);
    d' := Marked(d, a, b);
    Separate(a, b, separate);
    Collide(a, b, respond);
    forall e | e in start && e !in d'.at
      ensures e.body.position == start[e]
    {
      if e != a && e != b {
        assert e.body != a.body && e.body != b.body;
      }
    }
  }

  /** The reported pairs `indices[..count]`, `pairs` of a finished `find_intersecting_pairs`
      over g, the state of `group`: each reported j lies in the group, with a partner k
      after it, and the two may intersect. */
  ghost predicate Ready(group: seq<Entity>, g: seq<DiscState>, count: nat, indices: seq<int>, pairs: seq<int>)
  {
    |g| == |group| && count <= |indices| &&
    forall i :: 0 <= i < count ==>
      var j := indices[i];
      0 <= j < |group| && j < |pairs| && j < pairs[j] < |group| && MayIntersect(g, j, pairs[j])
  }

  /** `find_intersecting_pairs(group, size, indices, pairs)` as the separation loop calls it:
      afterwards the buffers are ready, and no pair is reported exactly when no two entries
      of the group may intersect. */
  method ScanIntersections(group: seq<Entity>, indices: Buffer<int>, pairs: Buffer<int>)
    returns (count: nat)
    requires indices != pairs
    modifies indices, pairs
    ensures ParticlesOf(group) == old(ParticlesOf(group))
    ensures Ready(group, States(group), count, indices.items, pairs.items)
    ensures count == 0 <==> forall j, k :: 0 <= j < k < |group| ==> !MayIntersect(States(group), j, k)
  {
    var g := States(group);
    ghost var p := pairs.items;
    count := FindIntersectingPairs(g, |group|, indices, pairs);
    ScanReady(group, g, p, count, indices.items, pairs.items, old(indices.items));
  }

  /** The facts `ScanIntersections` promises, from the scan's own. */
  lemma ScanReady(group: seq<Entity>, g: seq<DiscState>, p: seq<int>, count: nat,
                  indices: seq<int>, pairs: seq<int>, before: seq<int>)
    requires |g| == |group|
    requires var c := IntersectScan(IntersectHits(g), |group|, Filled(p, |group|, -1), |group|);
      count == |c.reported| && pairs == c.pairs && indices == Listed(before, c.reported)
    ensures Ready(group, g, count, indices, pairs)
    ensures count == 0 <==> forall j, k :: 0 <= j < k < |group| ==> !MayIntersect(g, j, k)
  {
    var n := |group|;
    var c := IntersectScan(IntersectHits(g), n, Filled(p, n, -1), n);
    forall i | 0 <= i < count
      ensures var j := c.reported[i];
        0 <= j < n && j < c.pairs[j] < n && MayIntersect(g, j, c.pairs[j])
    {
      ScannedPair(g, n, p, i);
    }
    assert forall i :: 0 <= i < count ==> indices[i] == indices[..count][i] == c.reported[i];
    NoneReportedIffNoCandidates(IntersectHits(g), n, p);
    forall j, k | 0 <= j < k < n
      ensures IntersectHits(g)(j, k) == MayIntersect(g, j, k)
    {
    }
  }

  /* ------------------------------------------------------------ resolving reported pairs */

  /** The particles of a group's entries, in order. */
  ghost function ParticlesOf(group: seq<Entity>): seq<Particle>
    reads set i | 0 <= i < |group| :: group[i], BodiesOf(group)
  {
    seq(|group|, i requires 0 <= i < |group|
                   reads set j | 0 <= j < |group| :: group[j], BodiesOf(group)
                   => ParticleOf(group[i]))
  }

  /** What resolving a pair leaves alone: the flag, mass, elasticity and radius. */
  predicate SameConstants(p: Particle, q: Particle)
  {
    p.isStatic == q.isStatic && p.mass == q.mass && p.elasticity == q.elasticity && p.radius == q.radius
  }

  /** One pass of the resolution loop on the particles ps of a group: entries j and k are
      separated, then collided from the separated positions. A static entry keeps its
      particle, and entries other than j and k are untouched. */
  function ResolvedPair(ps: seq<Particle>, j: nat, k: nat, separate: Separator, respond: Responder): (r: seq<Particle>)
    requires j < |ps| && k < |ps| && j != k && !(ps[j].isStatic && ps[k].isStatic)
    ensures |r| == |ps| && forall m :: 0 <= m < |ps| ==> SameConstants(r[m], ps[m])
    ensures forall m :: 0 <= m < |ps| && (ps[m].isStatic || (m != j && m != k)) ==> r[m] == ps[m]
  {
    var s := Separated(ps[j], ps[k], separate);
    var a, b := ps[j].(position := s.0), ps[k].(position := s.1);
    var v := Collided(a, b, respond);
    ps[j := a.(velocity := v.0)][k := b.(velocity := v.1)]
  }

  /** The reported pairs `indices[i]`, `pairs[indices[i]]` for i < count can be resolved in
      ps: each j has a later partner in the group, and the two are not both static. */
  predicate Resolvable(ps: seq<Particle>, indices: seq<int>, pairs: seq<int>, count: nat)
  {
    count <= |indices| &&
    forall i :: 0 <= i < count ==>
      0 <= indices[i] < |pairs| && indices[i] < |ps| && indices[i] < pairs[indices[i]] < |ps| &&
      !(ps[indices[i]].isStatic && ps[pairs[indices[i]]].isStatic)
  }

  /** The particles after the resolution loop has resolved the first `count` reported
      pairs, in report order. */
  function ResolvedAll(ps: seq<Particle>, indices: seq<int>, pairs: seq<int>, count: nat,
                       separate: Separator, respond: Responder): (r: seq<Particle>)
    requires Resolvable(ps, indices, pairs, count)
    ensures |r| == |ps| && forall m :: 0 <= m < |ps| ==> SameConstants(r[m], ps[m])
    decreases count
  {
    if count == 0 then ps
    else
      var r := ResolvedAll(ps, indices, pairs, count - 1, separate, respond);
      var j := indices[count - 1];
      ResolvedPair(r, j, pairs[j], separate, respond)
  }

  /** The resolution loop never changes a static entry, nor an entry that is in no reported
      pair. */
  lemma {:induction false} ResolvedAllKeeps(ps: seq<Particle>, indices: seq<int>, pairs: seq<int>, count: nat,
                                            separate: Separator, respond: Responder, m: nat)
    requires Resolvable(ps, indices, pairs, count) && m < |ps|
    requires ps[m].isStatic || forall i :: 0 <= i < count ==> indices[i] != m && pairs[indices[i]] != m
    ensures ResolvedAll(ps, indices, pairs, count, separate, respond)[m] == ps[m]
    decreases count
  {
    if count > 0 {
      ResolvedAllKeeps(ps, indices, pairs, count - 1, separate, respond, m);
    }
  }

  /** Every static entry of ps is unchanged in qs. */
  ghost predicate StaticKept(ps: seq<Particle>, qs: seq<Particle>)
  {
    |qs| == |ps| && forall m :: 0 <= m < |ps| && ps[m].isStatic ==> qs[m] == ps[m]
  }

  /** In particular, the resolution loop keeps every static entry. */
  lemma ResolvedAllKeepsStatic(ps: seq<Particle>, indices: seq<int>, pairs: seq<int>, count: nat,
                               separate: Separator, respond: Responder, qs: seq<Particle>)
    requires Resolvable(ps, indices, pairs, count) && qs == ResolvedAll(ps, indices, pairs, count, separate, respond)
    ensures StaticKept(ps, qs)
  {
    forall m | 0 <= m < |ps| && ps[m].isStatic
      ensures ResolvedAll(ps, indices, pairs, count, separate, respond)[m] == ps[m]
    {
      ResolvedAllKeeps(ps, indices, pairs, count, separate, respond, m);
    }
  }

  /** The particles of a group whose reported pairs are ready can be resolved. */
  lemma ReadyResolvable(group: seq<Entity>, g: seq<DiscState>, count: nat, indices: seq<int>, pairs: seq<int>,
                        ps: seq<Particle>)
    requires Ready(group, g, count, indices, pairs) && |ps| == |group|
    requires forall i :: 0 <= i < |group| ==> g[i].isStatic == ps[i].isStatic
    ensures Resolvable(ps, indices, pairs, count)
  {
  }

  /** The `for` loop of the separation pass over the `count` reported pairs. */
  method ResolveAll(d: Dirty, group: seq<Entity>, ghost g: seq<DiscState>, count: nat,
                    indices: Buffer<int>, pairs: Buffer<int>, ghost start: map<Entity, Vec>,
                    separate: Separator, respond: Responder)
    returns (d': Dirty)
    requires Ready(group, g, count, indices.items, pairs.items) && Tracks(d, start) && OwnBodies(start)
    requires NoDup(group)
    requires forall i :: 0 <= i < |group| ==> group[i] in start && g[i].isStatic == group[i].isStatic
    modifies BodiesOf(group)
    ensures Tracks(d', start)
    ensures Resolvable(old(ParticlesOf(group)), indices.items, pairs.items, count) &&
      ParticlesOf(group) == ResolvedAll(old(ParticlesOf(group)), indices.items, pairs.items, count, separate, respond)
  {
    ghost var ps := ParticlesOf(group);
    ReadyResolvable(group, g, count, indices.items, pairs.items, ps);
    d' := d;
    for i := 0 to count
      invariant Tracks(d', start)
      invariant ParticlesOf(group) == ResolvedAll(ps, indices.items, pairs.items, i, separate, respond)
    {
      var j := indices.items[i];
      var k := pairs.items[j];
      ghost var r := ParticlesOf(group);
      d' := ResolveIntersection(d', group[j], group[k], start, separate, respond);
      forall m | 0 <= m < |group|
        ensures ParticlesOf(group)[m] == ResolvedPair(r, j, k, separate, respond)[m]
      {
        if m != j && m != k {
          assert group[m].body != group[j].body && group[m].body != group[k].body;
        }
      }
    }
  }

  /** The separation loop of one group: pairs are resolved and the group scanned again
      while some pair is reported, at most `rounds` times. When it stops before that, no
      two entries of the group may intersect any more. */
  method SeparateGroup(d: Dirty, group: seq<Entity>, rounds: nat, indices: Buffer<int>, pairs: Buffer<int>,
                       ghost start: map<Entity, Vec>, separate: Separator, respond: Responder)
    returns (d': Dirty, used: nat)
    requires indices != pairs && Tracks(d, start) && OwnBodies(start) && NoDup(group)
    requires forall i :: 0 <= i < |group| ==> group[i] in start
    modifies indices, pairs, BodiesOf(group)
    ensures Tracks(d', start) && used <= rounds
    ensures used < rounds ==> forall j, k :: 0 <= j < k < |group| ==> !MayIntersect(States(group), j, k)
    ensures StaticKept(old(ParticlesOf(group)), ParticlesOf(group))
  {
    ghost var ps := ParticlesOf(group);
    d' := d;
    var count := ScanIntersections(group, indices, pairs);
    used := 0;
    while count > 0 && used < rounds
      invariant Tracks(d', start) && used <= rounds
      invariant Ready(group, States(group), count, indices.items, pairs.items)
      invariant count == 0 ==> forall j, k :: 0 <= j < k < |group| ==> !MayIntersect(States(group), j, k)
      invariant StaticKept(ps, ParticlesOf(group))
      decreases rounds - used
    {
      d', count := SeparateRound(d', group, count, indices, pairs, start, separate, respond);
      used := used + 1;
    }
  }

  /** One round of that loop: the reported pairs are resolved, then the group is scanned
      again. */
  method SeparateRound(d: Dirty, group: seq<Entity>, count: nat, indices: Buffer<int>, pairs: Buffer<int>,
                       ghost start: map<Entity, Vec>, separate: Separator, respond: Responder)
    returns (d': Dirty, count': nat)
    requires indices != pairs && Tracks(d, start) && OwnBodies(start) && NoDup(group)
    requires forall i :: 0 <= i < |group| ==> group[i] in start
    requires Ready(group, States(group), count, indices.items, pairs.items)
    modifies indices, pairs, BodiesOf(group)
    ensures Tracks(d', start) && Ready(group, States(group), count', indices.items, pairs.items)
    ensures count' == 0 <==> forall j, k :: 0 <= j < k < |group| ==> !MayIntersect(States(group), j, k)
    ensures Resolvable(old(ParticlesOf(group)), old(indices.items), old(pairs.items), count) &&
      ParticlesOf(group) == ResolvedAll(old(ParticlesOf(group)), old(indices.items), old(pairs.items), count, separate, respond)
    ensures StaticKept(old(ParticlesOf(group)), ParticlesOf(group))
  {
    ghost var ps, p, q := ParticlesOf(group), pairs.items, indices.items;
    d' := ResolveAll(d, group, States(group), count, indices, pairs, start, separate, respond);
    ghost var qs := ParticlesOf(group);
    assert Resolvable(ps, q, p, count) && qs == ResolvedAll(ps, q, p, count, separate, respond);
    ResolvedAllKeepsStatic(ps, q, p, count, separate, respond, qs);
    count' := ScanIntersections(group, indices, pairs);
  }

  /** The last loop of `_separate_colliding_bodies` and of `_step_piecewise`: the
      broadphase is told of each dirty entity, in the map's order, that it moved from the
      region around its recorded position to the one it occupies now. */
  method UpdateDirty(bp: Broadphase, d: Dirty, ghost s: set<Entity>)
    requires bp.Valid() && bp.Within(s) && d.Valid()
    requires forall e :: e in d.at ==> e in s
    modifies bp.Repr()
    ensures bp.Valid() && bp.Within(s)
    ensures bp.Naive? ==> bp.naive.entities == old(bp.naive.entities)
    ensures bp.Spatial? ==>
      bp.spatial.tree.Model() ==
      MovedAll(old(bp.spatial.tree.Model()), d.keys, Prior(d), Regions(d.keys), Everyone(|d.keys|))
  {
    ghost var m0 := if bp.Spatial? then bp.spatial.tree.Model() else Leaf(Box(0.0, 0.0, 0.0, 0.0), [], 0);
    UpdateEach(bp, d, s, m0, Prior(d), Regions(d.keys), Everyone(|d.keys|));
  }

  /** That loop, with the moves it tells the broadphase of as ghost parameters. */
  method UpdateEach(bp: Broadphase, d: Dirty, ghost s: set<Entity>,
                    ghost m0: Tree<Entity>, ghost from: seq<Box>, ghost to: seq<Box>, ghost moves: seq<bool>)
    requires bp.Valid() && bp.Within(s) && d.Valid()
    requires forall e :: e in d.at ==> e in s
    requires from == Prior(d) && to == Regions(d.keys) && moves == Everyone(|d.keys|)
    requires WF(m0) && (bp.Spatial? ==> bp.spatial.tree.Model() == m0)
    modifies bp.Repr()
    ensures bp.Valid() && bp.Within(s) && to == Regions(d.keys)
    ensures bp.Naive? ==> bp.naive.entities == old(bp.naive.entities)
    ensures bp.Spatial? ==> bp.spatial.tree.Model() == MovedAll(m0, d.keys, from, to, moves)
  {
    for i := 0 to |d.keys|
      invariant bp.Valid() && bp.Within(s) && Regions(d.keys) == to
      invariant bp.Naive? ==> bp.naive.entities == old(bp.naive.entities)
      invariant bp.Spatial? ==> bp.spatial.tree.Model() == MovedAll(m0, d.keys[..i], from[..i], to[..i], moves[..i])
    {
      UpdateOne(bp, d.keys, i, d.at[d.keys[i]], s, m0, from, to, moves);
    }
    assert d.keys[..|d.keys|] == d.keys && from[..|d.keys|] == from && to[..|d.keys|] == to && moves[..|d.keys|] == moves;
  }

  /** One pass of that loop: the move of es[i] is appended to the moves told so far. */
  method UpdateOne(bp: Broadphase, es: seq<Entity>, i: nat, previous: Vec, ghost s: set<Entity>,
                   ghost m0: Tree<Entity>, ghost from: seq<Box>, ghost to: seq<Box>, ghost moves: seq<bool>)
    requires bp.Valid() && bp.Within(s) && i < |es| == |from| == |to| == |moves| && es[i] in s
    requires from[i] == RegionAt(previous, es[i].geometry.radius) && to[i] == Region(es[i]) && moves[i]
    requires WF(m0) && (bp.Spatial? ==> bp.spatial.tree.Model() == MovedAll(m0, es[..i], from[..i], to[..i], moves[..i]))
    modifies bp.Repr()
    ensures bp.Valid() && bp.Within(s)
    ensures bp.Naive? ==> bp.naive.entities == old(bp.naive.entities)
    ensures bp.Spatial? ==> bp.spatial.tree.Model() == MovedAll(m0, es[..i + 1], from[..i + 1], to[..i + 1], moves[..i + 1])
    ensures unchanged(set j | 0 <= j < |es| :: es[j].body)
  {
    BodiesOutside(bp, es);
    bp.Update(es[i], previous, s);
    assert es[..i + 1][..i] == es[..i] && from[..i + 1][..i] == from[..i];
    assert to[..i + 1][..i] == to[..i] && moves[..i + 1][..i] == moves[..i];
  }

  /** The resolution loops of `_separate_colliding_bodies`, group after group, starting
      from an empty dirty map. */
  method SeparateGroups(groups: seq<seq<Entity>>, rounds: nat, indices: Buffer<int>, pairs: Buffer<int>,
                        ghost start: map<Entity, Vec>, separate: Separator, respond: Responder)
    returns (d: Dirty)
    requires indices != pairs && OwnBodies(start)
    requires forall e :: e in start ==> e.body.position == start[e]
    requires forall gi :: 0 <= gi < |groups| ==> GroupWithin(groups[gi], start.Keys)
    modifies indices, pairs, set e | e in start :: e.body
    ensures Tracks(d, start)
    ensures forall e :: e in start && e.isStatic ==> ParticleOf(e) == old(ParticleOf(e))
  {
    d := Dirty([], map[]);
    for gi := 0 to |groups|
      invariant Tracks(d, start)
      invariant forall e :: e in start && e.isStatic ==> ParticleOf(e) == old(ParticleOf(e))
    {
      var used;
      ghost var before, ps := map e | e in start :: ParticleOf(e), ParticlesOf(groups[gi]);
      d, used := SeparateGroup(d, groups[gi], rounds, indices, pairs, start, separate, respond);
      forall e | e in start && e.isStatic
        ensures ParticleOf(e) == before[e]
      {
        if e.body in BodiesOf(groups[gi]) {
          var m :| 0 <= m < |groups[gi]| && groups[gi][m].body == e.body;
          assert groups[gi][m] == e;
          assert ps[m] == before[e] && ps[m].isStatic;
          assert ParticlesOf(groups[gi])[m] == ParticleOf(e);
        }
      }
    }
  }

  /** Where each entity of es is, by entity. */
  ghost function Positions(es: seq<Entity>): (start: map<Entity, Vec>)
    reads BodiesOf(es)
    ensures start.Keys == Elements(es) && forall e :: e in start ==> start[e] == e.body.position
  {
    map e | e in Elements(es) :: e.body.position
  }

  /** When es has distinct bodies, so do the entities of its position map, and their bodies
      are those of es. */
  lemma StartOwnBodies(es: seq<Entity>)
    requires BodiesDistinct(es)
    ensures OwnBodies(Positions(es)) && (set e | e in Positions(es) :: e.body) <= BodiesOf(es)
  {
    var start := Positions(es);
    forall e, f | e in start && f in start && e != f
      ensures e.body != f.body
    {
      var i :| 0 <= i < |es| && es[i] == e;
      var j :| 0 <= j < |es| && es[j] == f;
      assert i != j;
      if i < j { assert es[i].body != es[j].body; } else { assert es[j].body != es[i].body; }
    }
    forall e | e in start
      ensures e.body in BodiesOf(es)
    {
      var i :| 0 <= i < |es| && es[i] == e;
    }
  }

  /** `_separate_colliding_bodies` over the entity list es: the dirty map starts empty; each
      group's pairs are resolved; then the broadphase is told of each dirty entity's move.
      Afterwards every key of the map is an entity of es whose recorded position is where it
      was when the pass began, and every other entity is still there, so the broadphase has
      been told of every move, from where it last knew the entity. */
  method SeparateColliding(bp: Broadphase, es: seq<Entity>, dirty: DirtyMap, rounds: nat,
                           indices: Buffer<int>, pairs: Buffer<int>, separate: Separator, respond: Responder)
    requires bp.Valid() && bp.Within(Elements(es)) && BodiesDistinct(es)
    requires indices != pairs && indices as object !in bp.Repr() && pairs as object !in bp.Repr()
    requires dirty as object !in bp.Repr()
    modifies dirty, indices, pairs, BodiesOf(es), bp.Repr()
    ensures bp.Valid() && bp.Within(Elements(es)) && dirty.value.Valid()
    ensures forall e :: e in dirty.value.at ==> e in Elements(es) && dirty.value.at[e] == old(e.body.position)
    ensures forall i :: 0 <= i < |es| && es[i] !in dirty.value.at ==> es[i].body.position == old(es[i].body.position)
    ensures bp.Naive? ==> bp.naive.entities == old(bp.naive.entities)
    ensures bp.Spatial? ==>
      bp.spatial.tree.Model() ==
      MovedAll(old(bp.spatial.tree.Model()), dirty.value.keys, Prior(dirty.value), Regions(dirty.value.keys),
               Everyone(|dirty.value.keys|))
  {
    ghost var start := Positions(es);
    StartOwnBodies(es);
    var groups := bp.Groups(Elements(es));
    var d := SeparateGroups(groups, rounds, indices, pairs, start, separate, respond);
    assert bp.Spatial? ==> bp.spatial.tree.Model() == old(bp.spatial.tree.Model());
    ghost var ms := MotionsOf(es);
    StoreAndUpdate(bp, dirty, d, es);
    assert MotionsOf(es) == ms;
  }

  /* ------------------------------------------------------------ the world */

  /* ------------------------------------------------------------ stepping the world */

  /** The motion states of the bodies of es, in order. */
  ghost function MotionsOf(es: seq<Entity>): (ms: seq<Motion>)
    reads BodiesOf(es)
    ensures |ms| == |es| && forall i :: 0 <= i < |es| ==> ms[i] == MotionOf(es[i].body)
  {
    seq(|es|, i requires 0 <= i < |es| reads BodiesOf(es) => MotionOf(es[i].body))
  }

  /** What `_step` makes of the motions ms of es: a non-static entity is stepped by dt, a
      static one keeps its motion. */
  ghost function SteppedUnlessStatic(es: seq<Entity>, ms: seq<Motion>, dt: real): (r: seq<Motion>)
    requires |ms| == |es|
    reads set i | 0 <= i < |es| :: es[i]
    ensures |r| == |es|
    ensures forall i :: 0 <= i < |es| ==> r[i] == if es[i].isStatic then ms[i] else Stepped(es[i], ms[i], dt)
  {
    seq(|es|, i requires 0 <= i < |es| reads set j | 0 <= j < |es| :: es[j] =>
      if es[i].isStatic then ms[i] else Stepped(es[i], ms[i], dt))
  }

  /** The regions the entities of es occupy once their bodies have motions ms. */
  function RegionsAt(es: seq<Entity>, ms: seq<Motion>): (rs: seq<Box>)
    requires |ms| == |es|
    ensures |rs| == |es| && forall i :: 0 <= i < |es| ==> rs[i] == RegionAt(ms[i].position, es[i].geometry.radius)
  {
    seq(|es|, i requires 0 <= i < |es| => RegionAt(ms[i].position, es[i].geometry.radius))
  }

  /** The regions of es are those its motions give. */
  lemma RegionsOfMotions(es: seq<Entity>)
    ensures Regions(es) == RegionsAt(es, MotionsOf(es))
  {
  }

  /** Replacing entry i of a spliced sequence moves the splice point past i. */
  lemma SpliceNext<T>(a: seq<T>, b: seq<T>, i: nat)
    requires i < |a| == |b|
    ensures (a[..i] + b[i..])[i := a[i]] == a[..i + 1] + b[i + 1..]
  {
  }

  /** The state of `_step`'s loop before entry i: the broadphase is intact; the first i
      bodies have reached their targets and the rest keep their motions ms; and the broadphase
      has been told of the first i moves, from the tree m0 (or, for the naive list, still
      holds naive0). */
  ghost predicate Stepping(bp: Broadphase, es: seq<Entity>, dt: real, i: nat, naive0: seq<Entity>,
                           m0: Tree<Entity>, ms: seq<Motion>, target: seq<Motion>, from: seq<Box>,
                           to: seq<Box>, moves: seq<bool>)
    reads bp.Repr(), set j | 0 <= j < |es| :: es[j], set j | 0 <= j < |es| :: es[j].body
  {
    bp.Valid() && bp.Within(Elements(es)) &&
    i <= |es| == |ms| == |from| == |to| == |moves| &&
    target == SteppedUnlessStatic(es, ms, dt) && MotionsOf(es) == target[..i] + ms[i..] &&
    from == RegionsAt(es, ms) && to == RegionsAt(es, target) && moves == Moving(es) &&
    (bp.Naive? ==> bp.naive.entities == naive0) &&
    (bp.Spatial? ==> WF(m0) && bp.spatial.tree.Model() == MovedAll(m0, es[..i], from[..i], to[..i], moves[..i]))
  }

  /** One pass of `_step`'s loop: a non-static entity is stepped by dt and the broadphase is
      told it moved from the region it had before; a static one is passed over. The other
      bodies keep their motion and no entity changes. */
  method StepAt(bp: Broadphase, es: seq<Entity>, dt: real, i: nat)
    requires bp.Valid() && bp.Within(Elements(es)) && BodiesDistinct(es) && i < |es|
    modifies es[i].body, bp.Repr()
    ensures bp.Valid() && bp.Within(Elements(es)) && unchanged(Elements(es))
    ensures MotionsOf(es) ==
      old(MotionsOf(es))[i := if es[i].isStatic then old(MotionOf(es[i].body)) else Stepped(es[i], old(MotionOf(es[i].body)), dt)]
    ensures bp.Naive? ==> bp.naive.entities == old(bp.naive.entities)
    ensures bp.Spatial? ==>
      bp.spatial.tree.Model() ==
      if es[i].isStatic then old(bp.spatial.tree.Model())
      else MoveRoot(old(bp.spatial.tree.Model()), es[i], old(Region(es[i])), Region(es[i])).0
  {
    var e := es[i];
    if !e.isStatic {
      var previous := e.body.position;
      StepEntity(e, dt);
      bp.Update(e, previous, Elements(es));
    }
    forall m | 0 <= m < |es| && m != i
      ensures MotionOf(es[m].body) == old(MotionOf(es[m].body))
    {
      assert if m < i then es[m].body != es[i].body else es[i].body != es[m].body;
    }
  }

  /** The loop state of `_step` moves on by one entry. */
  method StepOne(bp: Broadphase, es: seq<Entity>, dt: real, i: nat, ghost naive0: seq<Entity>,
                 ghost m0: Tree<Entity>, ghost ms: seq<Motion>, ghost target: seq<Motion>,
                 ghost from: seq<Box>, ghost to: seq<Box>, ghost moves: seq<bool>)
    requires i < |es| && BodiesDistinct(es) && Stepping(bp, es, dt, i, naive0, m0, ms, target, from, to, moves)
    modifies es[i].body, bp.Repr()
    ensures Stepping(bp, es, dt, i + 1, naive0, m0, ms, target, from, to, moves)
  {
    assert MotionOf(es[i].body) == MotionsOf(es)[i] == ms[i];
    StepAt(bp, es, dt, i);
    SpliceNext(target, ms, i);
    assert es[..i + 1][..i] == es[..i] && from[..i + 1][..i] == from[..i];
    assert to[..i + 1][..i] == to[..i] && moves[..i + 1][..i] == moves[..i];
  }

  /** `_step(dt)` over the entity list es: every non-static entity, in order, is stepped by
      dt and the broadphase is told it moved from its region before the step to the one it
      occupies after; static entities stay where they are. */
  method StepEach(bp: Broadphase, es: seq<Entity>, dt: real)
    requires bp.Valid() && bp.Within(Elements(es)) && BodiesDistinct(es)
    modifies BodiesOf(es), bp.Repr()
    ensures bp.Valid() && bp.Within(Elements(es))
    ensures MotionsOf(es) == SteppedUnlessStatic(es, old(MotionsOf(es)), dt)
    ensures bp.Naive? ==> bp.naive.entities == old(bp.naive.entities)
    ensures bp.Spatial? ==>
      bp.spatial.tree.Model() == MovedAll(old(bp.spatial.tree.Model()), es, old(Regions(es)), Regions(es), Moving(es))
  {
    ghost var ms := MotionsOf(es);
    ghost var target := SteppedUnlessStatic(es, ms, dt);
    ghost var from, to, moves := RegionsAt(es, ms), RegionsAt(es, target), Moving(es);
    ghost var naive0 := if bp.Naive? then bp.naive.entities else [];
    ghost var m0 := if bp.Spatial? then bp.spatial.tree.Model() else Leaf(Box(0.0, 0.0, 0.0, 0.0), [], 0);
    RegionsOfMotions(es);
    assert MotionsOf(es) == target[..0] + ms[0..];
    for i := 0 to |es|
      invariant Stepping(bp, es, dt, i, naive0, m0, ms, target, from, to, moves)
    {
      StepOne(bp, es, dt, i, naive0, m0, ms, target, from, to, moves);
    }
    SteppedAll(bp, es, dt, naive0, m0, ms, target, from, to, moves);
  }

  /** When `_step`'s loop has run to the end, every body has reached its target and the
      broadphase has been told of every move. */
  lemma SteppedAll(bp: Broadphase, es: seq<Entity>, dt: real, naive0: seq<Entity>,
                   m0: Tree<Entity>, ms: seq<Motion>, target: seq<Motion>, from: seq<Box>,
                   to: seq<Box>, moves: seq<bool>)
    requires Stepping(bp, es, dt, |es|, naive0, m0, ms, target, from, to, moves)
    ensures MotionsOf(es) == target && to == Regions(es)
    ensures bp.Spatial? ==> bp.spatial.tree.Model() == MovedAll(m0, es, from, to, moves)
  {
    assert es[..|es|] == es && from[..|es|] == from && moves[..|es|] == moves && to[..|es|] == to;
    assert target[..|es|] + ms[|es|..] == target;
    RegionsOfMotions(es);
  }

  /* ------------------------------------------------------------ the piecewise step */

  /** The positions of the bodies of es, in order. */
  ghost function PositionsOf(es: seq<Entity>): (ps: seq<Vec>)
    reads BodiesOf(es)
    ensures |ps| == |es| && forall i :: 0 <= i < |es| ==> ps[i] == es[i].body.position
  {
    seq(|es|, i requires 0 <= i < |es| reads BodiesOf(es) => es[i].body.position)
  }

  /** The dirty map d after `dirty_set.set(es[i], ps[i])` for each i in order. Keys already
      present keep their place; the map's keys grow by the entities of es; keys of d that
      are not in es keep their positions. */
  function Marks(d: Dirty, es: seq<Entity>, ps: seq<Vec>): (r: Dirty)
    requires d.Valid() && |ps| == |es|
    ensures r.Valid() && |d.keys| <= |r.keys| && r.keys[..|d.keys|] == d.keys
    ensures r.at.Keys == d.at.Keys + Elements(es)
    ensures forall e :: e in d.at && e !in Elements(es) ==> r.at[e] == d.at[e]
    decreases |es|
  {
    if es == [] then d
    else
      var n := |es| - 1;
      var p := Marks(d, es[..n], ps[..n]);
      var r := Set(p, es[n], ps[n]);
      SetKeys(p, es[n], ps[n]);
      assert r.keys[..|d.keys|] == p.keys[..|d.keys|];
      ElementsLast(es);
      r
  }

  lemma ElementsLast(es: seq<Entity>)
    requires es != []
    ensures Elements(es) == Elements(es[..|es| - 1]) + {es[|es| - 1]}
  {
    assert es == es[..|es| - 1] + [es[|es| - 1]];
    ElementsAppend(es[..|es| - 1], es[|es| - 1]);
  }

  /** Marking keeps the keys already present as a prefix and adds e to the key set. */
  lemma SetKeys(r: Dirty, e: Entity, p: Vec)
    requires r.Valid()
    ensures var r' := Set(r, e, p);
      |r.keys| <= |r'.keys| && r'.keys[..|r.keys|] == r.keys && r'.at.Keys == r.at.Keys + {e}
  {
    var r' := Set(r, e, p);
    assert r'.keys[..|r.keys|] == r.keys;
  }

  /** When the position paired with each entity of es is the one `where` gives it, marking
      leaves every entity of es at that position, whatever d held. */
  lemma {:induction false} MarksAt(d: Dirty, es: seq<Entity>, ps: seq<Vec>, where: map<Entity, Vec>)
    requires d.Valid() && |ps| == |es|
    requires forall i :: 0 <= i < |es| ==> es[i] in where && ps[i] == where[es[i]]
    ensures forall e :: e in Elements(es) ==> e in where && Marks(d, es, ps).at[e] == where[e]
  {
    if es != [] {
      var n := |es| - 1;
      MarksAt(d, es[..n], ps[..n], where);
      ElementsLast(es);
      var r := Marks(d, es, ps);
      assert r.at == Marks(d, es[..n], ps[..n]).at[es[n] := ps[n]];
    }
  }

  /** The first loop of `_step_piecewise`: every entity of es is marked dirty at its
      position. */
  method MarkAll(d: Dirty, es: seq<Entity>) returns (r: Dirty)
    requires d.Valid()
    ensures r == Marks(d, es, PositionsOf(es))
  {
    ghost var ps := PositionsOf(es);
    r := d;
    for i := 0 to |es|
      invariant r == Marks(d, es[..i], ps[..i]) && ps == PositionsOf(es)
    {
      MarksNext(d, es, ps, i);
      r := Set(r, es[i], es[i].body.position);
    }
    assert es[..|es|] == es && ps[..|ps|] == ps;
  }

  /** Marking one more entity of es extends the marks of the prefix by one `set`. */
  lemma MarksNext(d: Dirty, es: seq<Entity>, ps: seq<Vec>, i: nat)
    requires d.Valid() && |ps| == |es| && i < |es|
    ensures Marks(d, es[..i + 1], ps[..i + 1]) == Set(Marks(d, es[..i], ps[..i]), es[i], ps[i])
  {
    assert es[..i + 1][..i] == es[..i] && ps[..i + 1][..i] == ps[..i];
  }

  /** The entities of all the groups. */
  ghost function Grouped(groups: seq<seq<Entity>>): set<Entity>
    decreases |groups|
  {
    if groups == [] then {} else Grouped(groups[..|groups| - 1]) + Elements(groups[|groups| - 1])
  }

  /** `for (i = 0; i < size; ++i) stepped.add(group[i])`. */
  method AddMembers(stepped: set<Entity>, group: seq<Entity>) returns (r: set<Entity>)
    ensures r == stepped + Elements(group)
  {
    r := stepped;
    for i := 0 to |group|
      invariant r == stepped + Elements(group[..i])
    {
      assert Elements(group[..i + 1]) == Elements(group[..i]) + {group[i]} by {
        assert group[..i + 1] == group[..i] + [group[i]];
        ElementsAppend(group[..i], group[i]);
      }
      r := r + {group[i]};
    }
    assert group[..|group|] == group;
  }

  /** A group drawn from a list whose bodies are distinct has distinct bodies, all of them
      bodies of the list; an entity of the list outside the group has a body outside it. */
  lemma GroupBodies(es: seq<Entity>, group: seq<Entity>)
    requires BodiesDistinct(es) && GroupWithin(group, Elements(es))
    ensures BodiesDistinct(group) && BodiesOf(group) <= BodiesOf(es)
    ensures forall i :: 0 <= i < |es| && es[i] !in group ==> es[i].body !in BodiesOf(group)
  {
    forall a, b | 0 <= a < b < |group|
      ensures group[a].body != group[b].body
    {
      var x :| 0 <= x < |es| && es[x] == group[a];
      var y :| 0 <= y < |es| && es[y] == group[b];
      assert group[a] != group[b];
      if x < y { assert es[x].body != es[y].body; } else { assert es[y].body != es[x].body; }
    }
    forall b | b in BodiesOf(group)
      ensures b in BodiesOf(es)
    {
      var k :| 0 <= k < |group| && group[k].body == b;
      var x :| 0 <= x < |es| && es[x] == group[k];
    }
    forall i, k | 0 <= i < |es| && es[i] !in group && 0 <= k < |group|
      ensures group[k].body != es[i].body
    {
      var x :| 0 <= x < |es| && es[x] == group[k];
      assert x != i;
      if x < i { assert es[x].body != es[i].body; } else { assert es[i].body != es[x].body; }
    }
  }

  /** The group loop of `_step_piecewise`: each group's entities are added to `stepped`
      and the group is stepped by `_step_group`. Entities in no group keep their motion. */
  method StepGroups(groups: seq<seq<Entity>>, es: seq<Entity>, dt: real, rounds: nat,
                    solve: Solver, separate: Separator, respond: Responder,
                    bufferA: Buffer<int>, bufferB: Buffer<int>, bufferC: Buffer<real>, stepped: set<Entity>)
    returns (stepped': set<Entity>)
    requires bufferA != bufferB && bufferC.hole == 0.0 && BodiesDistinct(es) && 0.0 <= dt
    requires forall gi :: 0 <= gi < |groups| ==> GroupWithin(groups[gi], Elements(es))
    modifies bufferA, bufferB, bufferC, BodiesOf(es)
    ensures stepped' == stepped + Grouped(groups)
    ensures forall i :: 0 <= i < |es| && es[i] !in Grouped(groups) ==> MotionOf(es[i].body) == old(MotionOf(es[i].body))
  {
    stepped' := stepped;
    for gi := 0 to |groups|
      invariant stepped' == stepped + Grouped(groups[..gi])
      invariant forall i :: 0 <= i < |es| && es[i] !in Grouped(groups[..gi]) ==>
        MotionOf(es[i].body) == old(MotionOf(es[i].body))
    {
      var group := groups[gi];
      assert groups[..gi + 1][..gi] == groups[..gi];
      stepped' := AddMembers(stepped', group);
      GroupBodies(es, group);
      label before:
      var left, used := StepGroup(group, dt, rounds, solve, separate, respond, bufferA, bufferB, bufferC);
      forall i | 0 <= i < |es| && es[i] !in Grouped(groups[..gi + 1])
        ensures MotionOf(es[i].body) == old(MotionOf(es[i].body))
      {
        assert es[i] !in group;
        assert es[i].body !in BodiesOf(group);
      }
    }
    assert groups[..|groups|] == groups;
  }

  /** Groups drawn from s group only entities of s. */
  lemma {:induction false} GroupedWithin(groups: seq<seq<Entity>>, s: set<Entity>)
    requires forall gi :: 0 <= gi < |groups| ==> GroupWithin(groups[gi], s)
    ensures Grouped(groups) <= s
    decreases |groups|
  {
    if groups != [] {
      var n := |groups| - 1;
      GroupedWithin(groups[..n], s);
    }
  }

  /** The loop of `_step_piecewise` after the groups: every entity not yet stepped is
      stepped by dt, whether static or not. */
  method StepRest(es: seq<Entity>, stepped: set<Entity>, dt: real)
    requires BodiesDistinct(es)
    modifies BodiesOf(es)
    ensures forall i :: 0 <= i < |es| ==>
      MotionOf(es[i].body) ==
      if es[i] in stepped then old(MotionOf(es[i].body)) else Stepped(es[i], old(MotionOf(es[i].body)), dt)
  {
    for i := 0 to |es|
      invariant forall m :: 0 <= m < i ==>
        MotionOf(es[m].body) ==
        if es[m] in stepped then old(MotionOf(es[m].body)) else Stepped(es[m], old(MotionOf(es[m].body)), dt)
      invariant forall m :: i <= m < |es| ==> MotionOf(es[m].body) == old(MotionOf(es[m].body))
    {
      if es[i] !in stepped {
        label before:
        StepEntity(es[i], dt);
        forall m | 0 <= m < |es| && m != i
          ensures MotionOf(es[m].body) == old@before(MotionOf(es[m].body))
        {
          assert if m < i then es[m].body != es[i].body else es[i].body != es[m].body;
        }
      }
    }
  }

  /** From motions ms to ms': every entity of es not in stepped was stepped by dt. */
  ghost predicate RestStepped(es: seq<Entity>, stepped: set<Entity>, ms: seq<Motion>, ms': seq<Motion>, dt: real)
    reads Elements(es)
  {
    |ms| == |ms'| == |es| &&
    forall i :: 0 <= i < |es| && es[i] !in stepped ==> ms'[i] == Stepped(es[i], ms[i], dt)
  }

  /** The stepping half of `_step_piecewise(dt)`: steps each potential collision group in
      turn by `_step_group`, then every entity in no group by dt. The broadphase, which is
      only read here, is left as it was. */
  method StepGrouped(bp: Broadphase, es: seq<Entity>, stepped: EntitySet, dt: real, rounds: nat,
                     solve: Solver, separate: Separator, respond: Responder,
                     bufferA: Buffer<int>, bufferB: Buffer<int>, bufferC: Buffer<real>)
    requires bp.Valid() && bp.Within(Elements(es)) && BodiesDistinct(es)
    requires bufferA != bufferB && bufferC.hole == 0.0 && 0.0 <= dt
    requires bufferA as object !in bp.Repr() && bufferB as object !in bp.Repr() && bufferC as object !in bp.Repr()
    requires stepped as object !in bp.Repr()
    modifies stepped, bufferA, bufferB, bufferC, BodiesOf(es)
    ensures bp.Valid() && bp.Within(Elements(es))
    ensures stepped.members <= Elements(es)
    ensures RestStepped(es, stepped.members, old(MotionsOf(es)), MotionsOf(es), dt)
    ensures bp.Naive? ==>
      bp.naive.entities == old(bp.naive.entities) && stepped.members == Elements(bp.naive.entities)
    ensures bp.Spatial? ==> bp.spatial.tree.Model() == old(bp.spatial.tree.Model())
  {
    var groups := bp.Groups(Elements(es));
    GroupedWithin(groups, Elements(es));
    if bp.Naive? {
      GroupedSingle(bp.naive.entities);
    }
    BodiesOutside(bp, es);
    StepGroupsThenRest(groups, es, stepped, dt, rounds, solve, separate, respond, bufferA, bufferB, bufferC, bp.Repr());
  }

  /** A single group groups its own entities. */
  lemma GroupedSingle(group: seq<Entity>)
    ensures Grouped([group]) == Elements(group)
  {
    assert [group][..0] == [];
  }

  /** The group loop and the loop over the rest of `_step_piecewise(dt)`. */
  method StepGroupsThenRest(groups: seq<seq<Entity>>, es: seq<Entity>, stepped: EntitySet, dt: real, rounds: nat,
                            solve: Solver, separate: Separator, respond: Responder,
                            bufferA: Buffer<int>, bufferB: Buffer<int>, bufferC: Buffer<real>,
                            ghost others: set<object>)
    requires bufferA != bufferB && bufferC.hole == 0.0 && BodiesDistinct(es) && 0.0 <= dt
    requires forall gi :: 0 <= gi < |groups| ==> GroupWithin(groups[gi], Elements(es))
    requires stepped !in others && bufferA !in others && bufferB !in others && bufferC !in others
    requires forall i :: 0 <= i < |es| ==> es[i].body !in others
    modifies stepped, bufferA, bufferB, bufferC, BodiesOf(es)
    ensures stepped.members == Grouped(groups) && unchanged(others)
    ensures RestStepped(es, stepped.members, old(MotionsOf(es)), MotionsOf(es), dt)
  {
    stepped.members := {};
    var s := StepGroups(groups, es, dt, rounds, solve, separate, respond, bufferA, bufferB, bufferC, {});
    stepped.members := s;
    ghost var ms := MotionsOf(es);
    StepRest(es, s, dt);
    assert RestStepped(es, s, ms, MotionsOf(es), dt);
  }

  /** The map object takes the marks d, and the broadphase is told of every marked entity's
      move, as the last loop of `_step_piecewise` does. */
  method StoreAndUpdate(bp: Broadphase, dirty: DirtyMap, d: Dirty, ghost es: seq<Entity>)
    requires bp.Valid() && bp.Within(Elements(es)) && d.Valid() && d.at.Keys <= Elements(es)
    requires dirty as object !in bp.Repr()
    modifies dirty, bp.Repr()
    ensures dirty.value == d
    ensures bp.Valid() && bp.Within(Elements(es))
    ensures MotionsOf(es) == old(MotionsOf(es)) && unchanged(set i | 0 <= i < |es| :: es[i])
    ensures bp.Naive? ==> bp.naive.entities == old(bp.naive.entities)
    ensures bp.Spatial? ==>
      bp.spatial.tree.Model() ==
      MovedAll(old(bp.spatial.tree.Model()), d.keys, Prior(d), Regions(d.keys), Everyone(|d.keys|))
  {
    BodiesOutside(bp, es);
    dirty.value := d;
    UpdateDirty(bp, d, Elements(es));
  }

  /** `_step_piecewise(dt)` over the entity list es: marks every entity dirty at its
      position, steps the entities group by group, then moves every dirty entity in the
      broadphase. */
  method StepPiecewiseOver(bp: Broadphase, es: seq<Entity>, dirty: DirtyMap, stepped: EntitySet, dt: real,
                           rounds: nat, solve: Solver, separate: Separator, respond: Responder,
                           bufferA: Buffer<int>, bufferB: Buffer<int>, bufferC: Buffer<real>)
    requires bp.Valid() && bp.Within(Elements(es)) && BodiesDistinct(es)
    requires dirty.value.Valid() && dirty.value.at.Keys <= Elements(es)
    requires bufferA != bufferB && bufferC.hole == 0.0 && 0.0 <= dt
    requires bufferA as object !in bp.Repr() && bufferB as object !in bp.Repr() && bufferC as object !in bp.Repr()
    requires dirty as object !in bp.Repr() && stepped as object !in bp.Repr()
    modifies dirty, stepped, bufferA, bufferB, bufferC, BodiesOf(es), bp.Repr()
    ensures bp.Valid() && bp.Within(Elements(es))
    ensures dirty.value == Marks(old(dirty.value), es, old(PositionsOf(es)))
    ensures stepped.members <= Elements(es)
    ensures RestStepped(es, stepped.members, old(MotionsOf(es)), MotionsOf(es), dt)
    ensures bp.Naive? ==>
      bp.naive.entities == old(bp.naive.entities) && stepped.members == Elements(bp.naive.entities)
    ensures bp.Spatial? ==>
      bp.spatial.tree.Model() ==
      MovedAll(old(bp.spatial.tree.Model()), dirty.value.keys, Prior(dirty.value), Regions(dirty.value.keys),
               Everyone(|dirty.value.keys|))
  {
    var d := MarkAll(dirty.value, es);
    StepGrouped(bp, es, stepped, dt, rounds, solve, separate, respond, bufferA, bufferB, bufferC);
    StoreAndUpdate(bp, dirty, d, es);
  }

  /* ------------------------------------------------------------ the rest clamp */

  /** A motion after the rest clamp: only the velocity changes. */
  function Settle(m: Motion): (r: Motion)
    ensures Settled(r.velocity) && r.position == m.position && r.rotation == m.rotation && r.spin == m.spin
    ensures r.velocity == m.velocity || r.velocity == Zero
  {
    m.(velocity := Clamped(m.velocity))
  }

  /** Settling a settled motion changes nothing. */
  lemma SettleIdempotent(m: Motion)
    ensures Settle(Settle(m)) == Settle(m)
  {
    ClampedIdempotent(m.velocity);
  }

  /** The last loop of `step`: every entity of es whose squared speed is below the
      threshold is brought to rest. A body listed twice is clamped twice, which is the
      same as once. */
  method SettleAll(es: seq<Entity>)
    modifies BodiesOf(es)
    ensures forall i :: 0 <= i < |es| ==> MotionOf(es[i].body) == Settle(old(MotionOf(es[i].body)))
  {
    for i := 0 to |es|
      invariant forall m :: 0 <= m < i ==> MotionOf(es[m].body) == Settle(old(MotionOf(es[m].body)))
      invariant forall m :: i <= m < |es| ==>
        MotionOf(es[m].body) == old(MotionOf(es[m].body)) || MotionOf(es[m].body) == Settle(old(MotionOf(es[m].body)))
    {
      var b := es[i].body;
      ghost var before := MotionOf(b);
      SettleIdempotent(old(MotionOf(b)));
      if b.velocity.LengthSquared() < REST_VELOCITY_THRESHOLD {
        b.velocity := Zero;
      }
      assert MotionOf(b) == Settle(before);
    }
  }

  /** No entity and no body is an object of the broadphase. */
  lemma BodiesOutside(bp: Broadphase, es: seq<Entity>)
    ensures forall i :: 0 <= i < |es| ==> es[i] as object !in bp.Repr() && es[i].body as object !in bp.Repr()
  {
  }

  /** The elements of a sequence of entities, as a set. */
  ghost function Elements(s: seq<Entity>): set<Entity>
  {
    set i | 0 <= i < |s| :: s[i]
  }

  lemma ElementsAppend(s: seq<Entity>, e: Entity)
    ensures Elements(s + [e]) == Elements(s) + {e}
  {
    var t := s + [e];
    forall x | x in Elements(t)
      ensures x in Elements(s) + {e}
    {
      var m :| 0 <= m < |t| && t[m] == x;
      if m < |s| {
        assert s[m] == x;
      }
    }
    forall x | x in Elements(s) + {e}
      ensures x in Elements(t)
    {
      if x == e {
        assert t[|s|] == x;
      } else {
        var m :| 0 <= m < |s| && s[m] == x;
        assert t[m] == x;
      }
    }
  }

  /** Splicing one entry out of a duplicate-free sequence leaves a duplicate-free sequence
      of every other entry. */
  lemma SplicedOut(s: seq<Entity>, i: nat)
    requires NoDup(s) && i < |s|
    ensures var r := s[..i] + s[i + 1..];
      NoDup(r) && |r| == |s| - 1 && forall x :: x in r <==> x in s && x != s[i]
  {
    var r := s[..i] + s[i + 1..];
    forall a, b | 0 <= a < b < |r|
      ensures r[a] != r[b]
    {
      var a', b' := if a < i then a else a + 1, if b < i then b else b + 1;
      assert r[a] == s[a'] && r[b] == s[b'];
    }
    forall x | x in r
      ensures x in s && x != s[i]
    {
      var m :| 0 <= m < |r| && r[m] == x;
      var m' := if m < i then m else m + 1;
      assert s[m'] == x && m' != i;
    }
    assert s == s[..i] + [s[i]] + s[i + 1..];
  }

  /** The regions of a sequence of entities where they are now. */
  function Regions(es: seq<Entity>): (rs: seq<Box>)
    reads set i | 0 <= i < |es| :: es[i].body
    ensures |rs| == |es| && forall i :: 0 <= i < |es| ==> rs[i] == Region(es[i])
  {
    seq(|es|, i requires 0 <= i < |es| reads set j | 0 <= j < |es| :: es[j].body => Region(es[i]))
  }

  /** The tree after `add(es[0], rs[0])`, `add(es[1], rs[1])`, ... in order. */
  ghost function AddedAll(t: Tree<Entity>, es: seq<Entity>, rs: seq<Box>): (r: Tree<Entity>)
    requires WF(t) && |es| == |rs|
    ensures WF(r)
    decreases |es|
  {
    if es == [] then t
    else
      var n := |es| - 1;
      QuadtreeModel.Add(AddedAll(t, es[..n], rs[..n]), es[n], rs[n]).0
  }

  /** `_dirty_entities`: a JavaScript Map from entity to position, cleared and refilled in
      place. */
  class DirtyMap {
    var value: Dirty

    constructor ()
      ensures value == Dirty([], map[])
    {
      value := Dirty([], map[]);
    }
  }

  /** `_stepped_entities`: a JavaScript Set of entities, cleared and refilled in place. */
  class EntitySet {
    var members: set<Entity>

    constructor ()
      ensures members == {}
    {
      members := {};
    }
  }

  class World {
    const broadphase: Broadphase
    const stepPiecewise: bool

    /** `_entity_set`, in insertion order (a JavaScript Set iterates in that order). */
    var entities: seq<Entity>
    /** `_entity_array`: the entities a step runs over, as of the last `initialize`. */
    var snapshot: seq<Entity>
    /** `_dirty_entities`. */
    const dirty: DirtyMap
    /** `_stepped_entities`. */
    const stepped: EntitySet
    /** `_buffer_A` to `_buffer_D`; D is allocated but never used. */
    var bufferA: Buffer<int>
    var bufferB: Buffer<int>
    var bufferC: Buffer<real>
    var bufferD: Buffer<real>

    /** Whether `initialize` has run: before it, `step` has no snapshot to run over. */
    ghost var initialized: bool
    /** Every entity this world has created, in order. */
    ghost var spawned: seq<Entity>

    /** The bodies a step may move: those of the snapshot. */
    ghost function Bodies(): set<RigidBody>
      reads this
    {
      BodiesOf(snapshot)
    }

    ghost predicate Valid()
      reads this, broadphase.Repr()
    {
      Registered() && Indexed()
    }

    /** The entity lists hold each entity once, all of them spawned here, with bodies of
        their own; neither the world nor its buffers are part of the broadphase, and the
        buffers are different arrays. */
    ghost predicate Registered()
      reads this
    {
      this !in broadphase.Repr() && bufferA != bufferB && bufferC != bufferD &&
      {bufferA as object, bufferB} !! {bufferC as object, bufferD} &&
      bufferA.hole == 0 && bufferB.hole == 0 && bufferC.hole == 0.0 && bufferD.hole == 0.0 &&
      bufferA !in broadphase.Repr() && bufferB !in broadphase.Repr() &&
      bufferC !in broadphase.Repr() && bufferD !in broadphase.Repr() &&
      NoDup(entities) && NoDup(snapshot) && NoDup(spawned) &&
      (forall i :: 0 <= i < |entities| ==> entities[i] in spawned) &&
      (forall i :: 0 <= i < |snapshot| ==> snapshot[i] in spawned) &&
      (forall i, j :: 0 <= i < j < |spawned| ==> spawned[i].body != spawned[j].body)
    }

    /** The broadphase is well formed and, once the world is initialized, holds only
        entities of the snapshot. */
    ghost predicate Indexed()
      reads this`snapshot, this`initialized, broadphase.Repr()
    {
      broadphase.Valid() && (initialized ==> broadphase.Within(Elements(snapshot)))
    }

    /** Two different entities of the world never share a body. */
    lemma DistinctBodies(a: Entity, b: Entity)
      requires Valid() && a in spawned && b in spawned && a != b
      ensures a.body != b.body
    {
      var i :| 0 <= i < |spawned| && spawned[i] == a;
      var j :| 0 <= j < |spawned| && spawned[j] == b;
      if i < j {
        assert spawned[i].body != spawned[j].body;
      } else {
        assert spawned[j].body != spawned[i].body;
      }
    }

    /** The constructor: no entities, and the given broadphase and stepping mode. */
    constructor (broadphase: Broadphase, stepPiecewise: bool)
      requires broadphase.Valid()
      ensures Valid() && !initialized
      ensures this.broadphase == broadphase && this.stepPiecewise == stepPiecewise
      ensures entities == [] && snapshot == [] && spawned == []
    {
      this.broadphase := broadphase;
      this.stepPiecewise := stepPiecewise;
      entities := [];
      snapshot := [];
      dirty := new DirtyMap();
      stepped := new EntitySet();
      bufferA := new Buffer(0, 0);
      bufferB := new Buffer(0, 0);
      bufferC := new Buffer(0, 0.0);
      bufferD := new Buffer(0, 0.0);
      initialized := false;
      spawned := [];
    }

    /** `entity_count`. */
    function EntityCount(): nat
      reads this
    {
      |entities|
    }

    /** `contains`. */
    predicate Contains(e: Entity)
      reads this
    {
      e in entities
    }

    /** `spawn(mass, radius, elasticity)`: the body's checks fail as the body constructor
        throws; otherwise a fresh non-static entity at rest at the origin joins the set. */
    method Spawn(mass: real, radius: real, elasticity: real) returns (r: Result<Entity, BodyError>)
      requires Valid()
      modifies this`entities, this`spawned
      ensures Valid()
      ensures r.Failure? <==> CheckParameters(mass, elasticity).Some?
      ensures r.Failure? ==> Some(r.error) == CheckParameters(mass, elasticity) && entities == old(entities)
      ensures r.Success? ==>
        fresh(r.value) && fresh(r.value.body) && r.value.Valid() &&
        entities == old(entities) + [r.value] && EntityCount() == old(EntityCount()) + 1
      ensures r.Success? ==>
        r.value.body.mass == mass && r.value.body.elasticity == elasticity &&
        r.value.geometry.radius == radius && !r.value.isStatic &&
        r.value.body.position == Zero && r.value.body.velocity == Zero
    {
      var body := RigidBodies.Create(mass, elasticity);
      if body.Failure? {
        return Failure(body.error);
      }
      var e := new Entity(body.value, Disc(radius));
      forall i | 0 <= i < |spawned|
        ensures spawned[i] != e && spawned[i].body != e.body
      {
      }
      Register(e);
      return Success(e);
    }

    /** The end of `spawn`: a new entity, with a body of its own, joins the set. */
    method Register(e: Entity)
      requires Valid()
      requires forall i :: 0 <= i < |spawned| ==> spawned[i] != e && spawned[i].body != e.body
      modifies this`entities, this`spawned
      ensures Valid() && entities == old(entities) + [e] && spawned == old(spawned) + [e]
    {
      entities := entities + [e];
      spawned := spawned + [e];
      forall i, j | 0 <= i < j < |spawned|
        ensures spawned[i].body != spawned[j].body
      {
        if j < |spawned| - 1 {
          assert spawned[i] == old(spawned)[i] && spawned[j] == old(spawned)[j];
        }
      }
    }

    /** `despawn(e)`: an entity not in the set is an error; otherwise only it leaves the set,
        the others keeping their order. */
    method Despawn(e: Entity) returns (error: Option<WorldError>)
      requires Valid()
      modifies this`entities
      ensures Valid()
      ensures !old(Contains(e)) ==> error == Some(NotSpawned) && entities == old(entities)
      ensures old(Contains(e)) ==>
        error == None && |entities| == |old(entities)| - 1 &&
        exists i :: 0 <= i < |old(entities)| && old(entities)[i] == e &&
          entities == old(entities)[..i] + old(entities)[i + 1..]
      ensures forall x :: x in entities <==> x in old(entities) && x != e
    {
      if !Contains(e) {
        return Some(NotSpawned);
      }
      var i := NaiveBroadphases.IndexOf(entities, e);
      var rest := entities[..i] + entities[i + 1..];
      SplicedOut(entities, i);
      entities := rest;
      return None;
    }

    /** `clear`: the set becomes empty; the snapshot is left as it was. */
    method Clear()
      requires Valid()
      modifies this`entities
      ensures Valid() && entities == [] && EntityCount() == 0
    {
      entities := [];
    }

    /** `initialize`: the snapshot becomes the set's entities in order, the four buffers are
        replaced by new arrays of that many holes, and the broadphase is cleared and then
        given each entity once, in order, with the region it occupies. */
    method Initialize()
      requires Valid()
      modifies this`snapshot, this`initialized, broadphase.Repr(), bufferA, bufferB, bufferC, bufferD
      ensures Valid() && initialized && snapshot == entities
      ensures bufferA.items == Holes(|entities|, 0) && bufferB.items == Holes(|entities|, 0)
      ensures bufferC.items == Holes(|entities|, 0.0) && bufferD.items == Holes(|entities|, 0.0)
      ensures broadphase.Naive? ==> broadphase.naive.entities == entities
      ensures broadphase.Spatial? ==>
        broadphase.spatial.tree.Model() ==
        AddedAll(ClearRoot(old(broadphase.spatial.tree.Model())), entities, old(Regions(entities)))
    {
      Refill(|entities|);
      Rebuild();
    }

    /** The broadphase half of `initialize`: the broadphase is cleared, and the snapshot is
        rebuilt from the set, each entity being added to the broadphase as it is pushed. */
    method Rebuild()
      requires Registered() && broadphase.Valid()
      modifies this`snapshot, this`initialized, broadphase.Repr()
      ensures Valid() && initialized && snapshot == entities
      ensures broadphase.Naive? ==> broadphase.naive.entities == entities
      ensures broadphase.Spatial? ==>
        broadphase.spatial.tree.Model() ==
        AddedAll(ClearRoot(old(broadphase.spatial.tree.Model())), entities, old(Regions(entities)))
    {
      ghost var rs := Regions(entities);
      broadphase.Clear();
      Fill(rs);
      initialized := true;
    }

    /** The four buffers of `initialize`: each becomes an array of n holes. */
    method Refill(n: nat)
      requires Registered()
      modifies bufferA, bufferB, bufferC, bufferD
      ensures Registered() && unchanged(broadphase.Repr()) && unchanged(set i | 0 <= i < |entities| :: entities[i].body)
      ensures bufferA.items == Holes(n, 0) && bufferB.items == Holes(n, 0)
      ensures bufferC.items == Holes(n, 0.0) && bufferD.items == Holes(n, 0.0)
    {
      bufferA.Reset(n);
      bufferB.Reset(n);
      bufferC.Reset(n);
      bufferD.Reset(n);
    }

    /** The loop of `initialize`: the snapshot is rebuilt from the set, and each entity is
        added to the (cleared) broadphase as it is pushed. */
    method Fill(ghost rs: seq<Box>)
      requires broadphase.Valid() && broadphase.Within({}) && NoDup(entities)
      requires |rs| == |entities| && forall j :: 0 <= j < |rs| ==> rs[j] == Region(entities[j])
      requires broadphase.Naive? ==> broadphase.naive.entities == []
      modifies this`snapshot, broadphase.Repr()
      ensures snapshot == entities
      ensures broadphase.Valid() && broadphase.Within(Elements(entities))
      ensures broadphase.Naive? ==> broadphase.naive.entities == entities
      ensures broadphase.Spatial? ==>
        WF(old(broadphase.spatial.tree.Model())) &&
        broadphase.spatial.tree.Model() == AddedAll(old(broadphase.spatial.tree.Model()), entities, rs)
    {
      ghost var cleared := if broadphase.Spatial? then broadphase.spatial.tree.Model() else Leaf(Box(0.0, 0.0, 0.0, 0.0), [], 0);
      snapshot := [];
      assert Elements(snapshot) == {};
      var i := 0;
      while i < |entities|
        invariant i <= |entities| == |rs| && snapshot == entities[..i]
        invariant broadphase.Valid() && broadphase.Within(Elements(snapshot))
        invariant broadphase.Naive? ==> broadphase.naive.entities == snapshot
        invariant broadphase.Spatial? ==>
          WF(cleared) && broadphase.spatial.tree.Model() == AddedAll(cleared, snapshot, rs[..i])
      {
        assert entities[..i + 1] == snapshot + [entities[i]];
        assert rs[..i + 1] == rs[..i] + [rs[i]];
        forall m | 0 <= m < i
          ensures snapshot[m] != entities[i]
        {
        }
        PushAndAdd(entities[i], rs[i], cleared, rs[..i]);
        i := i + 1;
      }
      assert entities[..|entities|] == entities && rs[..|entities|] == rs;
    }

    /** One pass of the loop in `initialize`: push `e` onto the snapshot and add it to the
        broadphase, at `region`, where it is now. */
    method PushAndAdd(e: Entity, ghost region: Box, ghost cleared: Tree<Entity>, ghost rs: seq<Box>)
      requires broadphase.Valid() && broadphase.Within(Elements(snapshot)) && e !in snapshot
      requires region == Region(e) && |rs| == |snapshot|
      requires broadphase.Naive? ==> broadphase.naive.entities == snapshot
      requires broadphase.Spatial? ==>
        WF(cleared) && broadphase.spatial.tree.Model() == AddedAll(cleared, snapshot, rs)
      modifies this`snapshot, broadphase.Repr()
      ensures snapshot == old(snapshot) + [e]
      ensures broadphase.Valid() && broadphase.Within(Elements(snapshot))
      ensures broadphase.Naive? ==> broadphase.naive.entities == snapshot
      ensures broadphase.Spatial? ==>
        broadphase.spatial.tree.Model() == AddedAll(cleared, snapshot, rs + [region])
    {
      ghost var before := snapshot;
      snapshot := snapshot + [e];
      assert snapshot[..|before|] == before && (rs + [region])[..|before|] == rs;
      ElementsAppend(before, e);
      broadphase.Add(e, Elements(before));
    }

    /* ---------------------------------------------------------- the separation pass */

    /** The entities of the snapshot have bodies of their own. */
    lemma SnapshotBodiesDistinct()
      requires Valid()
      ensures BodiesDistinct(snapshot)
    {
      forall i, j | 0 <= i < j < |snapshot|
        ensures snapshot[i].body != snapshot[j].body
      {
        DistinctBodies(snapshot[i], snapshot[j]);
      }
    }

    /** `_separate_colliding_bodies`: the dirty map is cleared; each group's pairs are
        resolved; then the broadphase is told of each dirty entity's move. Afterwards every
        key of the map is a snapshot entity whose recorded position is where it was when the
        pass began, and every other entity of the snapshot is still there, so the broadphase
        has been told of every move, from where it last knew the entity. */
    method SeparationPass(rounds: nat, separate: Separator, respond: Responder)
      requires Valid() && initialized
      modifies dirty, bufferA, bufferB, Bodies(), broadphase.Repr()
      ensures Valid() && dirty.value.Valid()
      ensures forall e :: e in dirty.value.at ==> e in Elements(snapshot) && dirty.value.at[e] == old(e.body.position)
      ensures forall i :: 0 <= i < |snapshot| && snapshot[i] !in dirty.value.at ==>
        snapshot[i].body.position == old(snapshot[i].body.position)
      ensures broadphase.Naive? ==> broadphase.naive.entities == old(broadphase.naive.entities)
      ensures broadphase.Spatial? ==>
        broadphase.spatial.tree.Model() ==
        MovedAll(old(broadphase.spatial.tree.Model()), dirty.value.keys, Prior(dirty.value),
                 Regions(dirty.value.keys), Everyone(|dirty.value.keys|))
    {
      SnapshotBodiesDistinct();
      SeparateColliding(broadphase, snapshot, dirty, rounds, bufferA, bufferB, separate, respond);
    }

    /* ---------------------------------------------------------------- stepping */

    /** `_step(dt)`: every non-static entity of the snapshot is stepped by dt and moved in
        the broadphase from where it was; static entities stay where they are. */
    method StepSimple(dt: real)
      requires Valid() && initialized
      modifies Bodies(), broadphase.Repr()
      ensures Valid()
      ensures MotionsOf(snapshot) == SteppedUnlessStatic(snapshot, old(MotionsOf(snapshot)), dt)
      ensures broadphase.Naive? ==> broadphase.naive.entities == old(broadphase.naive.entities)
      ensures broadphase.Spatial? ==>
        broadphase.spatial.tree.Model() ==
        MovedAll(old(broadphase.spatial.tree.Model()), snapshot, old(Regions(snapshot)), Regions(snapshot),
                 Moving(snapshot))
    {
      SnapshotBodiesDistinct();
      StepEach(broadphase, snapshot, dt);
    }

    /** `_step_piecewise(dt)`: every snapshot entity is marked dirty at its position (on top
        of the separation pass's marks), the groups are stepped, every entity in no group is
        stepped by dt, and the broadphase is told of every dirty entity's move. */
    method StepPiecewise(dt: real, rounds: nat, solve: Solver, separate: Separator, respond: Responder)
      requires Valid() && initialized && 0.0 <= dt
      requires dirty.value.Valid() && dirty.value.at.Keys <= Elements(snapshot)
      modifies dirty, stepped, bufferA, bufferB, bufferC, Bodies(), broadphase.Repr()
      ensures Valid()
      ensures dirty.value == Marks(old(dirty.value), snapshot, old(PositionsOf(snapshot)))
      ensures stepped.members <= Elements(snapshot)
      ensures RestStepped(snapshot, stepped.members, old(MotionsOf(snapshot)), MotionsOf(snapshot), dt)
      ensures broadphase.Naive? ==>
        broadphase.naive.entities == old(broadphase.naive.entities) &&
        stepped.members == Elements(broadphase.naive.entities)
      ensures broadphase.Spatial? ==>
        broadphase.spatial.tree.Model() ==
        MovedAll(old(broadphase.spatial.tree.Model()), dirty.value.keys, Prior(dirty.value),
                 Regions(dirty.value.keys), Everyone(|dirty.value.keys|))
    {
      SnapshotBodiesDistinct();
      StepPiecewiseOver(broadphase, snapshot, dirty, stepped, dt, rounds, solve, separate, respond,
                        bufferA, bufferB, bufferC);
    }

    /** The rest clamp at the end of `step`. */
    method SettleBodies()
      requires Valid()
      modifies Bodies()
      ensures Valid()
      ensures forall i :: 0 <= i < |snapshot| ==>
        MotionOf(snapshot[i].body) == Settle(old(MotionOf(snapshot[i].body)))
    {
      SettleAll(snapshot);
    }

    /** `step(dt)`: nothing happens unless dt is positive; otherwise the separation pass,
        then a piecewise or a plain step as the world was built for, then the rest clamp, so
        that afterwards every velocity in the snapshot is zero or clear of the threshold. */
    method Step(dt: real, rounds: nat, solve: Solver, separate: Separator, respond: Responder)
      requires Valid() && initialized
      modifies dirty, stepped, bufferA, bufferB, bufferC, Bodies(), broadphase.Repr()
      ensures Valid()
      ensures dt <= 0.0 ==> unchanged(this) && unchanged(Bodies()) && unchanged(broadphase.Repr())
      ensures dt <= 0.0 ==> unchanged(dirty, stepped, bufferA, bufferB, bufferC)
      ensures dt > 0.0 ==> forall i :: 0 <= i < |snapshot| ==> Settled(snapshot[i].body.velocity)
    {
      if dt <= 0.0 {
        return;
      }
      SeparationPass(rounds, separate, respond);
      if stepPiecewise {
        StepPiecewise(dt, rounds, solve, separate, respond);
      } else {
        StepSimple(dt);
      }
      SettleBodies();
    }

  }
}
