/** The two pair finders of source/collision/narrowphase/detection.ts, as the loops they are.
    Each is proved to leave its buffers exactly as the reference scan of module PairScans
    says, so that what is proved there about the finished scan holds of the buffers. */
module Detection {
  import opened Vectors
  import opened Intersection
  import opened CollisionTester
  import opened Buffers
  import opened PairScans

  /** The partner the inner loop of `find_intersecting_pairs` stops at is the first one. */
  lemma FirstPartnerAt(touch: (nat, nat) -> bool, n: nat, j: nat, k: nat)
    requires j < k < n && touch(j, k)
    requires forall m :: j < m < k ==> !touch(j, m)
    ensures FirstPartner(touch, n, j) == k
  {
  }

  /** An inner loop that runs out finds no partner. */
  lemma NoFirstPartner(touch: (nat, nat) -> bool, n: nat, j: nat)
    requires j < n
    requires forall m :: j < m < n ==> !touch(j, m)
    ensures FirstPartner(touch, n, j) == -1
  {
  }

  /** The reset loop shared by both finders: the first n pair slots become -1. */
  method ResetPairs(pairs: Buffer<int>, n: nat)
    modifies pairs
    ensures pairs.items == Filled(old(pairs.items), n, -1)
  {
    var j := 0;
    FilledNone(pairs.items, -1);
    while j < n
      invariant j <= n
      invariant pairs.items == Filled(old(pairs.items), j, -1)
    {
      FilledNext(old(pairs.items), j, -1, pairs.hole);
      pairs.Put(j, -1);
      j := j + 1;
    }
  }

  /** The inner loop of `find_intersecting_pairs` for j: the first k > j below n that forms a
      candidate pair with j, or n when there is none. */
  method SearchPartner(g: seq<DiscState>, n: nat, j: nat) returns (k: nat)
    requires j < n <= |g|
    ensures j < k <= n
    ensures k < n ==> FirstPartner(IntersectHits(g), n, j) == k
    ensures k == n ==> FirstPartner(IntersectHits(g), n, j) == -1
  {
    ghost var touch := IntersectHits(g);
    k := j + 1;
    while k < n
      invariant j < k <= n
      invariant forall m :: j < m < k ==> !touch(j, m)
    {
      if !(g[j].isStatic && g[k].isStatic) &&
         TestForIntersection(g[j].position, g[j].radius, g[k].position, g[k].radius)
      {
        FirstPartnerAt(touch, n, j, k);
        return;
      }
      k := k + 1;
    }
    NoFirstPartner(touch, n, j);
  }

  /** One pass of the outer loop of `find_intersecting_pairs`: skip j when it is already
      paired; otherwise pair it with its first candidate partner, if any, and report it. */
  method ClaimPass(g: seq<DiscState>, n: nat, j: nat, indices: Buffer<int>, pairs: Buffer<int>,
                   count: nat, ghost reported: seq<int>, ghost listed: seq<int>)
    returns (count': nat, ghost reported': seq<int>)
    requires j < n <= |g| && n <= |pairs.items| && indices != pairs
    requires count == |reported| && indices.items == Listed(listed, reported)
    modifies indices, pairs
    ensures ClaimStep(IntersectHits(g), n, Claims(old(pairs.items), reported), j) ==
      Claims(pairs.items, reported')
    ensures count' == |reported'| && indices.items == Listed(listed, reported')
  {
    count', reported' := count, reported;
    if pairs.items[j] != -1 {
      return;
    }
    var k := SearchPartner(g, n, j);
    if k < n {
      pairs.Put(j, k);
      pairs.Put(k, j);
      ListedNext(listed, reported, j, indices.hole);
      indices.Put(count, j);
      reported' := reported + [j];
      count' := count + 1;
    }
  }

  /** `find_intersecting_pairs(entities, n, indices, pairs)`: resets the first n pair slots
      to -1, then pairs each unpaired entity with its first candidate partner and reports
      it. Returns the number of pairs found. */
  method FindIntersectingPairs(g: seq<DiscState>, n: nat, indices: Buffer<int>, pairs: Buffer<int>)
    returns (count: nat)
    requires n <= |g| && indices != pairs
    modifies indices, pairs
    ensures var c := IntersectScan(IntersectHits(g), n, Filled(old(pairs.items), n, -1), n);
      count == |c.reported| && pairs.items == c.pairs &&
      indices.items == Listed(old(indices.items), c.reported)
  {
    ResetPairs(pairs, n);
    ghost var touch := IntersectHits(g);
    ghost var p := pairs.items;
    ghost var reported: seq<int> := [];
    count := 0;
    var j := 0;
    while j < n
      invariant j <= n && n <= |p|
      invariant IntersectScan(touch, n, p, j) == Claims(pairs.items, reported)
      invariant count == |reported| && indices.items == Listed(old(indices.items), reported)
    {
      count, reported := ClaimPass(g, n, j, indices, pairs, count, reported, old(indices.items));
      j := j + 1;
    }
  }

  /** One pass of the inner loop of `find_colliding_pairs`: when j and k are not both static
      and collide, pair them, record the time at j and report j. */
  method TestPair(g: seq<DiscState>, n: nat, dt: real, solve: Solver, j: nat, k: nat,
                  indices: Buffer<int>, pairs: Buffer<int>, times: Buffer<real>,
                  count: nat, ghost reported: seq<int>, ghost listed: seq<int>)
    returns (count': nat, ghost reported': seq<int>)
    requires j < k < n <= |g| && n <= |pairs.items| && indices != pairs
    requires count == |reported| && indices.items == Listed(listed, reported)
    modifies indices, pairs, times
    ensures ContactStep(CollisionHits(g, dt, solve), CollisionTimes(g, dt, solve), times.hole,
                        Contacts(old(pairs.items), old(times.items), reported), j, k) ==
      Contacts(pairs.items, times.items, reported')
    ensures count' == |reported'| && indices.items == Listed(listed, reported')
  {
    count', reported' := count, reported;
    if g[j].isStatic && g[k].isStatic {
      return;
    }
    var t := TestForCollision(g[j].position, g[j].velocity, g[j].radius,
                              g[k].position, g[k].velocity, g[k].radius, dt, solve);
    if t != -1.0 {
      pairs.Put(j, k);
      pairs.Put(k, j);
      times.Put(j, t);
      ListedNext(listed, reported, j, indices.hole);
      indices.Put(count, j);
      reported' := reported + [j];
      count' := count + 1;
    }
  }

  /** The inner loop of `find_colliding_pairs` for j: tests j against every k in (j, n). */
  method CollideRow(g: seq<DiscState>, n: nat, dt: real, solve: Solver, j: nat,
                    indices: Buffer<int>, pairs: Buffer<int>, times: Buffer<real>,
                    count: nat, ghost reported: seq<int>, ghost listed: seq<int>)
    returns (count': nat, ghost reported': seq<int>)
    requires j < n <= |g| && n <= |pairs.items| && indices != pairs
    requires count == |reported| && indices.items == Listed(listed, reported)
    modifies indices, pairs, times
    ensures RowScan(CollisionHits(g, dt, solve), CollisionTimes(g, dt, solve), n, times.hole,
                    Contacts(old(pairs.items), old(times.items), reported), j, n) ==
      Contacts(pairs.items, times.items, reported')
    ensures count' == |reported'| && indices.items == Listed(listed, reported')
  {
    ghost var hit := CollisionHits(g, dt, solve);
    ghost var time := CollisionTimes(g, dt, solve);
    ghost var c := Contacts(pairs.items, times.items, reported);
    count', reported' := count, reported;
    var k := j + 1;
    while k < n
      invariant j < k <= n && n <= |pairs.items|
      invariant RowScan(hit, time, n, times.hole, c, j, k) == Contacts(pairs.items, times.items, reported')
      invariant count' == |reported'| && indices.items == Listed(listed, reported')
    {
      count', reported' := TestPair(g, n, dt, solve, j, k, indices, pairs, times, count', reported', listed);
      k := k + 1;
    }
  }

  /** `find_colliding_pairs(entities, n, dt, indices, pairs, times)`: resets the first n pair
      slots to -1, then tests every pair j < k that is not both static; each colliding pair
      pairs both, records its time at j and reports j. Returns the number of pairs found. */
  method FindCollidingPairs(g: seq<DiscState>, n: nat, dt: real, solve: Solver,
                            indices: Buffer<int>, pairs: Buffer<int>, times: Buffer<real>)
    returns (count: nat)
    requires n <= |g| && indices != pairs
    modifies indices, pairs, times
    ensures var c := ContactScan(CollisionHits(g, dt, solve), CollisionTimes(g, dt, solve), n,
                                 times.hole, Filled(old(pairs.items), n, -1), old(times.items), n);
      count == |c.reported| && pairs.items == c.pairs && times.items == c.times &&
      indices.items == Listed(old(indices.items), c.reported)
  {
    ResetPairs(pairs, n);
    count := CollideRows(g, n, dt, solve, indices, pairs, times);
  }

  /** The outer loop of `find_colliding_pairs`, after the reset. */
  method CollideRows(g: seq<DiscState>, n: nat, dt: real, solve: Solver,
                     indices: Buffer<int>, pairs: Buffer<int>, times: Buffer<real>)
    returns (count: nat)
    requires n <= |g| && n <= |pairs.items| && indices != pairs
    modifies indices, pairs, times
    ensures var c := ContactScan(CollisionHits(g, dt, solve), CollisionTimes(g, dt, solve), n,
                                 times.hole, old(pairs.items), old(times.items), n);
      count == |c.reported| && pairs.items == c.pairs && times.items == c.times &&
      indices.items == Listed(old(indices.items), c.reported)
  {
    ghost var hit := CollisionHits(g, dt, solve);
    ghost var time := CollisionTimes(g, dt, solve);
    ghost var reported: seq<int> := [];
    count := 0;
    var j := 0;
    while j < n
      invariant j <= n && n <= |old(pairs.items)|
      invariant ContactScan(hit, time, n, times.hole, old(pairs.items), old(times.items), j) ==
        Contacts(pairs.items, times.items, reported)
      invariant count == |reported| && indices.items == Listed(old(indices.items), reported)
    {
      count, reported := CollideRow(g, n, dt, solve, j, indices, pairs, times, count, reported, old(indices.items));
      j := j + 1;
    }
  }
}
