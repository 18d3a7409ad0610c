/** The reference behaviour of the two pair finders of source/collision/narrowphase/detection.ts.
    A group is read as a snapshot of what the scans look at; each scan is defined pass by pass,
    as its loops run, and the lemmas say what the finished scan has found. */
module PairScans {
  import opened Vectors
  import opened Intersection
  import opened CollisionTester
  import opened Buffers

  /** What the scans read of an entity: its static flag, its body's position and velocity,
      and its disc's radius. */
  datatype DiscState = DiscState(isStatic: bool, position: Vec, velocity: Vec, radius: real)

  /* ------------------------------------------------------------ find_intersecting_pairs */

  /** j and k are a candidate pair: not both static, and their discs intersect. */
  predicate MayIntersect(g: seq<DiscState>, j: nat, k: nat)
    requires j < |g| && k < |g|
  {
    !(g[j].isStatic && g[k].isStatic) &&
    TestForIntersection(g[j].position, g[j].radius, g[k].position, g[k].radius)
  }

  /** The candidate relation of a group, as the scan below reads it through `touch`. */
  function IntersectHits(g: seq<DiscState>): (nat, nat) -> bool
  {
    (j: nat, k: nat) => j < |g| && k < |g| && MayIntersect(g, j, k)
  }

  /* The scan is stated for any candidate relation `touch`; `IntersectHits` instantiates it. */

  /** The inner loop started at k: the first candidate partner of j in [k, n), or -1. */
  function FirstPartnerFrom(touch: (nat, nat) -> bool, n: nat, j: nat, k: nat): (r: int)
    requires j < n && k <= n
    ensures r == -1 || (k <= r < n && touch(j, r))
    ensures forall m :: k <= m < n && (r == -1 || m < r) ==> !touch(j, m)
    decreases n - k
  {
    if k == n then -1
    else if touch(j, k) then k
    else FirstPartnerFrom(touch, n, j, k + 1)
  }

  /** The partner the inner loop finds for j: the smallest k > j forming a candidate pair
      with j, or -1. */
  function FirstPartner(touch: (nat, nat) -> bool, n: nat, j: nat): int
    requires j < n
  {
    FirstPartnerFrom(touch, n, j, j + 1)
  }

  /** The state of `find_intersecting_pairs`: its pair buffer and the indices it has
      reported so far. */
  datatype Claims = Claims(pairs: seq<int>, reported: seq<int>)

  /** One pass of the outer loop: j is skipped when an earlier pass paired it; otherwise,
      when j has a partner k, both are paired with each other and j is reported. */
  function ClaimStep(touch: (nat, nat) -> bool, n: nat, c: Claims, j: nat): (d: Claims)
    requires j < n <= |c.pairs|
    ensures |d.pairs| == |c.pairs|
  {
    if c.pairs[j] != -1 then c
    else
      var k := FirstPartner(touch, n, j);
      if k == -1 then c else Claims(c.pairs[j := k][k := j], c.reported + [j])
  }

  /** The state once the outer loop has run for 0, ..., j - 1, from the pair buffer p. */
  function IntersectScan(touch: (nat, nat) -> bool, n: nat, p: seq<int>, j: nat): (c: Claims)
    requires j <= n && n <= |p|
    ensures |c.pairs| == |p|
  {
    if j == 0 then Claims(p, []) else ClaimStep(touch, n, IntersectScan(touch, n, p, j - 1), j - 1)
  }

  /** Some reported entity found m as its partner. */
  predicate Claimed(touch: (nat, nat) -> bool, n: nat, reported: seq<int>, m: int)
  {
    exists y :: y in reported && 0 <= y < n && FirstPartner(touch, n, y) == m
  }

  /** The reported indices lie in [0, j) and strictly increase. */
  predicate ReportedInOrder(reported: seq<int>, j: nat)
  {
    (forall i :: 0 <= i < |reported| ==> 0 <= reported[i] < j) &&
    (forall i, i' :: 0 <= i < i' < |reported| ==> reported[i] < reported[i'])
  }

  /** Each reported index is paired with its first partner. */
  predicate PairedWithFirst(touch: (nat, nat) -> bool, n: nat, c: Claims)
    requires n <= |c.pairs| && ReportedInOrder(c.reported, n)
  {
    forall i :: 0 <= i < |c.reported| ==>
      c.pairs[c.reported[i]] == FirstPartner(touch, n, c.reported[i]) != -1
  }

  /** A pair slot is set exactly for the reported entities and the partners they found. */
  predicate SlotsMarked(touch: (nat, nat) -> bool, n: nat, c: Claims)
    requires n <= |c.pairs|
  {
    forall m :: 0 <= m < n ==> (c.pairs[m] != -1 <==> m in c.reported || Claimed(touch, n, c.reported, m))
  }

  /** Below j, an entity is reported exactly when it has a partner and no reported entity
      found it. */
  predicate ReportedExactly(touch: (nat, nat) -> bool, n: nat, reported: seq<int>, j: nat)
    requires j <= n
  {
    forall x :: 0 <= x < j ==>
      (x in reported <==> FirstPartner(touch, n, x) != -1 && !Claimed(touch, n, reported, x))
  }

  /** What holds of the scan once passes 0, ..., j - 1 have run. */
  predicate ClaimsInvariant(touch: (nat, nat) -> bool, n: nat, c: Claims, j: nat)
    requires j <= n && n <= |c.pairs|
  {
    ReportedInOrder(c.reported, j) && PairedWithFirst(touch, n, c) && SlotsMarked(touch, n, c) &&
    ReportedExactly(touch, n, c.reported, j)
  }

  lemma ClaimedExtend(touch: (nat, nat) -> bool, n: nat, reported: seq<int>, j: nat, m: int)
    requires j < n
    ensures Claimed(touch, n, reported + [j], m) <==>
      Claimed(touch, n, reported, m) || FirstPartner(touch, n, j) == m
  {
    if Claimed(touch, n, reported + [j], m) && !Claimed(touch, n, reported, m) {
      var y :| y in reported + [j] && 0 <= y < n && FirstPartner(touch, n, y) == m;
      assert y !in reported;
    }
    if FirstPartner(touch, n, j) == m {
      assert j in reported + [j];
    }
    if Claimed(touch, n, reported, m) {
      var y :| y in reported && 0 <= y < n && FirstPartner(touch, n, y) == m;
      assert y in reported + [j];
    }
  }

  /** A pass that pairs x with its partner keeps the invariant. */
  lemma ClaimStepPairs(touch: (nat, nat) -> bool, n: nat, c: Claims, x: nat)
    requires x < n && n <= |c.pairs| && ClaimsInvariant(touch, n, c, x)
    requires c.pairs[x] == -1 && FirstPartner(touch, n, x) != -1
    ensures ClaimsInvariant(touch, n, ClaimStep(touch, n, c, x), x + 1)
  {
    var k := FirstPartner(touch, n, x);
    var d := ClaimStep(touch, n, c, x);
    assert d == Claims(c.pairs[x := k][k := x], c.reported + [x]);
    assert x !in c.reported;
    forall m | 0 <= m < n
      ensures Claimed(touch, n, d.reported, m) <==> Claimed(touch, n, c.reported, m) || k == m
    {
      ClaimedExtend(touch, n, c.reported, x, m);
    }
    assert ReportedInOrder(d.reported, x + 1);
    forall i | 0 <= i < |d.reported|
      ensures d.pairs[d.reported[i]] == FirstPartner(touch, n, d.reported[i]) != -1
    {
      if i < |c.reported| {
        assert d.reported[i] == c.reported[i];
      }
    }
    assert SlotsMarked(touch, n, d);
    assert !Claimed(touch, n, c.reported, x);
    assert ReportedExactly(touch, n, d.reported, x + 1);
  }

  /** So does a pass that leaves the state alone. */
  lemma ClaimStepSkips(touch: (nat, nat) -> bool, n: nat, c: Claims, x: nat)
    requires x < n && n <= |c.pairs| && ClaimsInvariant(touch, n, c, x)
    requires c.pairs[x] != -1 || FirstPartner(touch, n, x) == -1
    ensures ClaimsInvariant(touch, n, ClaimStep(touch, n, c, x), x + 1)
  {
    assert ClaimStep(touch, n, c, x) == c;
    assert x !in c.reported;
  }

  lemma {:induction false} IntersectScanInvariant(touch: (nat, nat) -> bool, n: nat, p: seq<int>, j: nat)
    requires j <= n && n <= |p|
    requires forall m :: 0 <= m < n ==> p[m] == -1
    ensures ClaimsInvariant(touch, n, IntersectScan(touch, n, p, j), j)
  {
    if j == 0 {
      ClaimsStart(touch, n, p);
    } else {
      IntersectScanInvariant(touch, n, p, j - 1);
      IntersectScanStep(touch, n, p, j);
    }
  }

  lemma IntersectScanStep(touch: (nat, nat) -> bool, n: nat, p: seq<int>, j: nat)
    requires 0 < j <= n && n <= |p|
    requires ClaimsInvariant(touch, n, IntersectScan(touch, n, p, j - 1), j - 1)
    ensures ClaimsInvariant(touch, n, IntersectScan(touch, n, p, j), j)
  {
    ClaimStepKeeps(touch, n, IntersectScan(touch, n, p, j - 1), IntersectScan(touch, n, p, j), j);
  }

  /** The invariant holds before the first pass, the pair slots all -1. */
  lemma ClaimsStart(touch: (nat, nat) -> bool, n: nat, p: seq<int>)
    requires n <= |p|
    requires forall m :: 0 <= m < n ==> p[m] == -1
    ensures ClaimsInvariant(touch, n, Claims(p, []), 0)
  {
  }

  /** Every pass keeps the invariant. */
  lemma ClaimStepKeeps(touch: (nat, nat) -> bool, n: nat, c: Claims, d: Claims, j: nat)
    requires 0 < j <= n && n <= |c.pairs| && ClaimsInvariant(touch, n, c, j - 1)
    requires d == ClaimStep(touch, n, c, j - 1)
    ensures ClaimsInvariant(touch, n, d, j)
  {
    var x := j - 1;
    if c.pairs[x] == -1 && FirstPartner(touch, n, x) != -1 {
      ClaimStepPairs(touch, n, c, x);
    } else {
      ClaimStepSkips(touch, n, c, x);
    }
  }

  /** What `find_intersecting_pairs` finds, from any pair buffer: the reported indices are
      strictly increasing; each is paired with its first partner; an entity is reported
      exactly when it has a partner and no reported entity found it as its own partner; and
      an entity's pair slot stays -1 exactly when it is neither reported nor found. */
  lemma IntersectingPairs(touch: (nat, nat) -> bool, n: nat, p: seq<int>)
    ensures var c := IntersectScan(touch, n, Filled(p, n, -1), n);
      (forall i :: 0 <= i < |c.reported| ==> 0 <= c.reported[i] < n) &&
      (forall i, i' :: 0 <= i < i' < |c.reported| ==> c.reported[i] < c.reported[i']) &&
      (forall i :: 0 <= i < |c.reported| ==>
         c.pairs[c.reported[i]] == FirstPartner(touch, n, c.reported[i]) != -1) &&
      (forall x :: 0 <= x < n ==>
         (x in c.reported <==> FirstPartner(touch, n, x) != -1 && !Claimed(touch, n, c.reported, x))) &&
      (forall m :: 0 <= m < n ==>
         (c.pairs[m] == -1 <==> m !in c.reported && !Claimed(touch, n, c.reported, m)))
  {
    IntersectScanInvariant(touch, n, Filled(p, n, -1), n);
  }

  /** The scan reports nothing exactly when no two of the first n entities form a
      candidate pair. */
  lemma NoneReportedIffNoCandidates(touch: (nat, nat) -> bool, n: nat, p: seq<int>)
    ensures IntersectScan(touch, n, Filled(p, n, -1), n).reported == [] <==>
      forall j, k :: 0 <= j < k < n ==> !touch(j, k)
  {
    var c := IntersectScan(touch, n, Filled(p, n, -1), n);
    IntersectScanInvariant(touch, n, Filled(p, n, -1), n);
    if c.reported == [] {
      forall j, k | 0 <= j < k < n
        ensures !touch(j, k)
      {
        assert !Claimed(touch, n, c.reported, j);
        assert FirstPartner(touch, n, j) == -1;
      }
    } else {
      var j := c.reported[0];
      var k := FirstPartner(touch, n, j);
      assert j < k < n && touch(j, k);
    }
  }

  /* ------------------------------------------------------------ find_colliding_pairs */

  /** The time `test_for_collision` reports for j against k within dt. */
  function CollisionTime(g: seq<DiscState>, dt: real, solve: Solver, j: nat, k: nat): real
    requires j < |g| && k < |g|
  {
    TestForCollision(g[j].position, g[j].velocity, g[j].radius,
                     g[k].position, g[k].velocity, g[k].radius, dt, solve)
  }

  /** j and k are a colliding pair: not both static, and the test reports a time. */
  predicate Collides(g: seq<DiscState>, dt: real, solve: Solver, j: nat, k: nat)
    requires j < |g| && k < |g|
  {
    !(g[j].isStatic && g[k].isStatic) && CollisionTime(g, dt, solve, j, k) != -1.0
  }

  /* The scan itself is defined for any pair test `hit` with its times `time`, so that the
     proofs about it need not look inside `test_for_collision`; `find_colliding_pairs` runs
     it with the two functions below. */

  /** `Collides` as a pair test over all indices, false outside the group. */
  function CollisionHits(g: seq<DiscState>, dt: real, solve: Solver): (nat, nat) -> bool
  {
    (j: nat, k: nat) => j < |g| && k < |g| && Collides(g, dt, solve, j, k)
  }

  /** `CollisionTime` over all indices, -1 outside the group. */
  function CollisionTimes(g: seq<DiscState>, dt: real, solve: Solver): (nat, nat) -> real
  {
    (j: nat, k: nat) => if j < |g| && k < |g| then CollisionTime(g, dt, solve, j, k) else -1.0
  }

  /** The partners k of j in (j, k0) that pass the pair test, in increasing order. */
  function PartnersBelow(hit: (nat, nat) -> bool, j: nat, k: nat): seq<nat>
    requires j < k
    decreases k
  {
    if k == j + 1 then []
    else PartnersBelow(hit, j, k - 1) + (if hit(j, k - 1) then [k - 1] else [])
  }

  /** The partners of j among the entities after it, below n. */
  function Partners(hit: (nat, nat) -> bool, n: nat, j: nat): seq<nat>
    requires j < n
  {
    PartnersBelow(hit, j, n)
  }

  /** The last entity before j that passes the pair test with m, or -1. */
  function LastClaimer(hit: (nat, nat) -> bool, m: nat, j: nat): int
    requires j <= m
  {
    if j == 0 then -1
    else if hit(j - 1, m) then j - 1
    else LastClaimer(hit, m, j - 1)
  }

  /** `PartnersBelow` lists exactly the partners of j in (j, k), in increasing order. */
  lemma {:induction false} PartnersBelowExactly(hit: (nat, nat) -> bool, j: nat, k: nat)
    requires j < k
    ensures forall i :: 0 <= i < |PartnersBelow(hit, j, k)| ==>
      j < PartnersBelow(hit, j, k)[i] < k && hit(j, PartnersBelow(hit, j, k)[i])
    ensures forall i, i' :: 0 <= i < i' < |PartnersBelow(hit, j, k)| ==>
      PartnersBelow(hit, j, k)[i] < PartnersBelow(hit, j, k)[i']
    ensures forall m :: j < m < k && hit(j, m) ==> m in PartnersBelow(hit, j, k)
    decreases k
  {
    if k > j + 1 {
      PartnersBelowExactly(hit, j, k - 1);
      var q := PartnersBelow(hit, j, k - 1);
      var r := PartnersBelow(hit, j, k);
      if hit(j, k - 1) {
        assert r == q + [k - 1];
        forall i | 0 <= i < |r|
          ensures j < r[i] < k && hit(j, r[i])
        {
          if i < |q| {
            assert r[i] == q[i];
          }
        }
        assert r[|q|] == k - 1;
      } else {
        assert r == q;
        forall i | 0 <= i < |r|
          ensures j < r[i] < k && hit(j, r[i])
        {
          assert r[i] == q[i];
        }
      }
    }
  }

  /** `LastClaimer` is the largest y < j that passes the test with m, or -1 if none does. */
  lemma {:induction false} LastClaimerIsLast(hit: (nat, nat) -> bool, m: nat, j: nat)
    requires j <= m
    ensures LastClaimer(hit, m, j) == -1 || (0 <= LastClaimer(hit, m, j) < j && hit(LastClaimer(hit, m, j), m))
    ensures forall y :: LastClaimer(hit, m, j) < y < j ==> !hit(y, m)
  {
    if j > 0 && !hit(j - 1, m) {
      LastClaimerIsLast(hit, m, j - 1);
    }
  }

  /** The last element of a non-empty sequence. */
  function Last<T>(s: seq<T>): T
    requires s != []
  {
    s[|s| - 1]
  }

  /** The number of colliding pairs whose first member is below j. */
  function PairCount(hit: (nat, nat) -> bool, n: nat, j: nat): nat
    requires j <= n
  {
    if j == 0 then 0 else PairCount(hit, n, j - 1) + |Partners(hit, n, j - 1)|
  }

  /** The state of `find_colliding_pairs`: its pair and time buffers and the indices it has
      reported so far. */
  datatype Contacts = Contacts(pairs: seq<int>, times: seq<real>, reported: seq<int>)

  /** One pass of the inner loop: a colliding pair (j, k) pairs both, records the time at j
      and reports j. */
  function ContactStep(hit: (nat, nat) -> bool, time: (nat, nat) -> real, hole: real, c: Contacts, j: nat, k: nat): (d: Contacts)
    requires j < |c.pairs| && k < |c.pairs|
    ensures |d.pairs| == |c.pairs|
  {
    if hit(j, k) then
      Contacts(c.pairs[j := k][k := j],
               Written(c.times, j, time(j, k), hole),
               c.reported + [j])
    else c
  }

  /** The state once the inner loop for j has run for j + 1, ..., k - 1. */
  function RowScan(hit: (nat, nat) -> bool, time: (nat, nat) -> real, n: nat, hole: real, c: Contacts, j: nat, k: nat): (d: Contacts)
    requires j < k <= n && n <= |c.pairs|
    ensures |d.pairs| == |c.pairs|
    decreases k
  {
    if k == j + 1 then c
    else ContactStep(hit, time, hole, RowScan(hit, time, n, hole, c, j, k - 1), j, k - 1)
  }

  /** The state once the outer loop has run for 0, ..., j - 1, from the pair buffer p and
      the time buffer times. */
  function ContactScan(hit: (nat, nat) -> bool, time: (nat, nat) -> real, n: nat, hole: real, p: seq<int>, times: seq<real>, j: nat): (c: Contacts)
    requires j <= n && n <= |p|
    ensures |c.pairs| == |p|
  {
    if j == 0 then Contacts(p, times, [])
    else RowScan(hit, time, n, hole, ContactScan(hit, time, n, hole, p, times, j - 1), j - 1, n)
  }

  /** What the inner loop for j has done to the state c, giving d, once it has run for
      j + 1, ..., k - 1: reported j once per partner found, paired j with the last of them
      and each of them with j, and recorded the last pair's time at j. */
  predicate RowEffected(hit: (nat, nat) -> bool, time: (nat, nat) -> real, hole: real, c: Contacts, d: Contacts, j: nat, k: nat)
    requires j < k && k <= |c.pairs| && |d.pairs| == |c.pairs|
  {
    var pb := PartnersBelow(hit, j, k);
    d.reported == c.reported + seq(|pb|, _ => j) &&
    RowPaired(hit, c.pairs, d.pairs, j, k) &&
    RowTimed(hit, time, hole, c.times, d.times, j, k)
  }

  predicate RowPaired(hit: (nat, nat) -> bool, p: seq<int>, q: seq<int>, j: nat, k: nat)
    requires j < k && k <= |p| && |q| == |p|
  {
    var pb := PartnersBelow(hit, j, k);
    forall m :: 0 <= m < |p| ==>
      q[m] == (if m == j then (if pb == [] then p[j] else Last(pb))
               else if j < m < k && hit(j, m) then j
               else p[m])
  }

  predicate RowTimed(hit: (nat, nat) -> bool, time: (nat, nat) -> real, hole: real, times: seq<real>, u: seq<real>, j: nat, k: nat)
    requires j < k
  {
    var pb := PartnersBelow(hit, j, k);
    (pb == [] ==> u == times) &&
    (pb != [] ==> j < |u| && u[j] == time(j, Last(pb))) &&
    |u| >= |times| &&
    (forall m :: 0 <= m < |u| && m != j ==> u[m] == (if m < |times| then times[m] else hole))
  }

  lemma {:induction false} RowEffect(hit: (nat, nat) -> bool, time: (nat, nat) -> real, n: nat, hole: real, c: Contacts, j: nat, k: nat)
    requires j < k <= n && n <= |c.pairs|
    ensures RowEffected(hit, time, hole, c, RowScan(hit, time, n, hole, c, j, k), j, k)
    decreases k
  {
    if k > j + 1 {
      RowEffect(hit, time, n, hole, c, j, k - 1);
      RowStep(hit, time, n, hole, c, j, k);
    }
  }

  lemma RowStep(hit: (nat, nat) -> bool, time: (nat, nat) -> real, n: nat, hole: real, c: Contacts, j: nat, k: nat)
    requires j + 1 < k <= n && n <= |c.pairs|
    requires RowEffected(hit, time, hole, c, RowScan(hit, time, n, hole, c, j, k - 1), j, k - 1)
    ensures RowEffected(hit, time, hole, c, RowScan(hit, time, n, hole, c, j, k), j, k)
  {
    var e := RowScan(hit, time, n, hole, c, j, k - 1);
    assert RowScan(hit, time, n, hole, c, j, k) == ContactStep(hit, time, hole, e, j, k - 1);
    if hit(j, k - 1) {
      RowStepHit(hit, time, hole, c, e, j, k);
    } else {
      RowStepMiss(hit, time, hole, c, e, j, k);
    }
  }

  /** The inner loop's step when j and k - 1 collide. */
  lemma RowStepHit(hit: (nat, nat) -> bool, time: (nat, nat) -> real, hole: real, c: Contacts, e: Contacts, j: nat, k: nat)
    requires j + 1 < k <= |c.pairs| && |e.pairs| == |c.pairs| && hit(j, k - 1)
    requires RowEffected(hit, time, hole, c, e, j, k - 1)
    ensures RowEffected(hit, time, hole, c, ContactStep(hit, time, hole, e, j, k - 1), j, k)
  {
    var pe := PartnersBelow(hit, j, k - 1);
    assert PartnersBelow(hit, j, k) == pe + [k - 1];
    assert seq(|pe|, _ => j) + [j] == seq(|pe| + 1, _ => j);
    RowPairedGrows(hit, c.pairs, e.pairs, j, k);
    RowTimedGrows(hit, time, hole, c.times, e.times, j, k);
  }

  /** The inner loop's step when j and k - 1 do not collide. */
  lemma RowStepMiss(hit: (nat, nat) -> bool, time: (nat, nat) -> real, hole: real, c: Contacts, e: Contacts, j: nat, k: nat)
    requires j + 1 < k <= |c.pairs| && |e.pairs| == |c.pairs| && !hit(j, k - 1)
    requires RowEffected(hit, time, hole, c, e, j, k - 1)
    ensures RowEffected(hit, time, hole, c, ContactStep(hit, time, hole, e, j, k - 1), j, k)
  {
    var d := ContactStep(hit, time, hole, e, j, k - 1);
    assert PartnersBelow(hit, j, k) == PartnersBelow(hit, j, k - 1);
    assert RowPaired(hit, c.pairs, d.pairs, j, k);
  }

  lemma RowPairedGrows(hit: (nat, nat) -> bool, p: seq<int>, q: seq<int>, j: nat, k: nat)
    requires j + 1 < k && k <= |p| && |q| == |p|
    requires RowPaired(hit, p, q, j, k - 1) && hit(j, k - 1)
    ensures RowPaired(hit, p, q[j := k - 1][k - 1 := j], j, k)
  {
    assert PartnersBelow(hit, j, k) == PartnersBelow(hit, j, k - 1) + [k - 1];
  }

  lemma RowTimedGrows(hit: (nat, nat) -> bool, time: (nat, nat) -> real, hole: real, times: seq<real>, u: seq<real>, j: nat, k: nat)
    requires j + 1 < k
    requires RowTimed(hit, time, hole, times, u, j, k - 1) && hit(j, k - 1)
    ensures RowTimed(hit, time, hole, times, Written(u, j, time(j, k - 1), hole), j, k)
  {
    assert PartnersBelow(hit, j, k) == PartnersBelow(hit, j, k - 1) + [k - 1];
  }

  /** Count of x in a run of j's. */
  lemma {:induction false} RepeatCount(j: int, len: nat, x: int)
    ensures multiset(seq(len, _ => j))[x] == if x == j then len else 0
  {
    if len > 0 {
      assert seq(len, _ => j) == seq(len - 1, _ => j) + [j];
      RepeatCount(j, len - 1, x);
    }
  }

  /** Once rows 0, ..., j - 1 have run, one index has been reported per colliding pair
      with its first member below j: that member, in non-decreasing order. */
  predicate ContactsReported(hit: (nat, nat) -> bool, n: nat, reported: seq<int>, j: nat)
    requires j <= n
  {
    |reported| == PairCount(hit, n, j) &&
    (forall i :: 0 <= i < |reported| ==> 0 <= reported[i] < j) &&
    (forall i, i' :: 0 <= i < i' < |reported| ==> reported[i] <= reported[i']) &&
    (forall x :: 0 <= x < n ==>
       multiset(reported)[x] == if x < j then |Partners(hit, n, x)| else 0)
  }

  /** The pair slot of m once rows 0, ..., j - 1 have run: the last later partner when m's
      own row has run and found one, otherwise the last earlier row that found m. */
  function PairedWith(hit: (nat, nat) -> bool, n: nat, m: nat, j: nat): int
    requires m < n && j <= n
  {
    if m < j && Partners(hit, n, m) != [] then Last(Partners(hit, n, m))
    else LastClaimer(hit, m, if m < j then m else j)
  }

  predicate ContactsPaired(hit: (nat, nat) -> bool, n: nat, p: seq<int>, q: seq<int>, j: nat)
    requires j <= n && n <= |p| && |q| == |p|
  {
    (forall m :: 0 <= m < n ==> q[m] == PairedWith(hit, n, m, j)) &&
    (forall m :: n <= m < |p| ==> q[m] == p[m])
  }

  /** Once rows 0, ..., j - 1 have run, a row that found partners has recorded the last
      pair's time; every other slot is as it was, or a hole where the buffer grew. */
  predicate ContactsTimed(hit: (nat, nat) -> bool, time: (nat, nat) -> real, n: nat, hole: real, times: seq<real>, u: seq<real>, j: nat)
    requires j <= n
  {
    |u| >= |times| &&
    (forall m :: 0 <= m < j && Partners(hit, n, m) != [] ==>
       m < |u| && u[m] == time(m, Last(Partners(hit, n, m)))) &&
    (forall m :: 0 <= m < |u| && !(m < j && Partners(hit, n, m) != []) ==>
       u[m] == (if m < |times| then times[m] else hole))
  }

  /** What holds of the scan once rows 0, ..., j - 1 have run. */
  predicate ContactsInvariant(hit: (nat, nat) -> bool, time: (nat, nat) -> real, n: nat, hole: real, p: seq<int>, times: seq<real>, c: Contacts, j: nat)
    requires j <= n && n <= |p| && |c.pairs| == |p|
  {
    ContactsReported(hit, n, c.reported, j) &&
    ContactsPaired(hit, n, p, c.pairs, j) &&
    ContactsTimed(hit, time, n, hole, times, c.times, j)
  }

  lemma ContactScanInvariant(hit: (nat, nat) -> bool, time: (nat, nat) -> real, n: nat, hole: real, p: seq<int>, times: seq<real>, j: nat)
    requires j <= n && n <= |p|
    requires forall m :: 0 <= m < n ==> p[m] == -1
    ensures ContactsInvariant(hit, time, n, hole, p, times, ContactScan(hit, time, n, hole, p, times, j), j)
  {
    ScanReported(hit, time, n, hole, p, times, j);
    ScanPaired(hit, time, n, hole, p, times, j);
    ScanTimed(hit, time, n, hole, p, times, j);
  }

  lemma {:induction false} ScanReported(hit: (nat, nat) -> bool, time: (nat, nat) -> real, n: nat, hole: real, p: seq<int>, times: seq<real>, j: nat)
    requires j <= n && n <= |p|
    ensures ContactsReported(hit, n, ContactScan(hit, time, n, hole, p, times, j).reported, j)
  {
    if j > 0 {
      ScanReported(hit, time, n, hole, p, times, j - 1);
      RowReported(hit, time, n, hole, ContactScan(hit, time, n, hole, p, times, j - 1), j - 1);
    }
  }

  lemma {:induction false} ScanPaired(hit: (nat, nat) -> bool, time: (nat, nat) -> real, n: nat, hole: real, p: seq<int>, times: seq<real>, j: nat)
    requires j <= n && n <= |p|
    requires forall m :: 0 <= m < n ==> p[m] == -1
    ensures ContactsPaired(hit, n, p, ContactScan(hit, time, n, hole, p, times, j).pairs, j)
  {
    if j > 0 {
      ScanPaired(hit, time, n, hole, p, times, j - 1);
      RowPairs(hit, time, n, hole, p, ContactScan(hit, time, n, hole, p, times, j - 1), j - 1);
    }
  }

  lemma {:induction false} ScanTimed(hit: (nat, nat) -> bool, time: (nat, nat) -> real, n: nat, hole: real, p: seq<int>, times: seq<real>, j: nat)
    requires j <= n && n <= |p|
    ensures ContactsTimed(hit, time, n, hole, times, ContactScan(hit, time, n, hole, p, times, j).times, j)
  {
    if j > 0 {
      ScanTimed(hit, time, n, hole, p, times, j - 1);
      RowTimes(hit, time, n, hole, times, ContactScan(hit, time, n, hole, p, times, j - 1), j - 1);
    }
  }

  lemma RowReported(hit: (nat, nat) -> bool, time: (nat, nat) -> real, n: nat, hole: real, c: Contacts, x: nat)
    requires x < n <= |c.pairs|
    requires ContactsReported(hit, n, c.reported, x)
    ensures ContactsReported(hit, n, RowScan(hit, time, n, hole, c, x, n).reported, x + 1)
  {
    RowEffect(hit, time, n, hole, c, x, n);
    ReportedStep(hit, n, c.reported, x);
  }

  lemma RowPairs(hit: (nat, nat) -> bool, time: (nat, nat) -> real, n: nat, hole: real, p: seq<int>, c: Contacts, x: nat)
    requires x < n <= |p| && |c.pairs| == |p|
    requires ContactsPaired(hit, n, p, c.pairs, x)
    ensures ContactsPaired(hit, n, p, RowScan(hit, time, n, hole, c, x, n).pairs, x + 1)
  {
    RowEffect(hit, time, n, hole, c, x, n);
    PairedStep(hit, n, p, c.pairs, RowScan(hit, time, n, hole, c, x, n).pairs, x);
  }

  lemma RowTimes(hit: (nat, nat) -> bool, time: (nat, nat) -> real, n: nat, hole: real, times: seq<real>, c: Contacts, x: nat)
    requires x < n <= |c.pairs|
    requires ContactsTimed(hit, time, n, hole, times, c.times, x)
    ensures ContactsTimed(hit, time, n, hole, times, RowScan(hit, time, n, hole, c, x, n).times, x + 1)
  {
    RowEffect(hit, time, n, hole, c, x, n);
    TimedStep(hit, time, n, hole, times, c.times, RowScan(hit, time, n, hole, c, x, n).times, x);
  }

  lemma ReportedStep(hit: (nat, nat) -> bool, n: nat, reported: seq<int>, x: nat)
    requires x < n && ContactsReported(hit, n, reported, x)
    ensures ContactsReported(hit, n, reported + seq(|Partners(hit, n, x)|, _ => x), x + 1)
  {
    var r := reported + seq(|Partners(hit, n, x)|, _ => x);
    RowCounted(hit, n, reported, x);
    RowOrdered(reported, |Partners(hit, n, x)|, x);
  }

  lemma RowCounted(hit: (nat, nat) -> bool, n: nat, reported: seq<int>, x: nat)
    requires x < n
    requires forall y :: 0 <= y < n ==>
      multiset(reported)[y] == if y < x then |Partners(hit, n, y)| else 0
    ensures var r := reported + seq(|Partners(hit, n, x)|, _ => x);
      forall y :: 0 <= y < n ==> multiset(r)[y] == if y < x + 1 then |Partners(hit, n, y)| else 0
  {
    var pb := Partners(hit, n, x);
    var r := reported + seq(|pb|, _ => x);
    forall y | 0 <= y < n
      ensures multiset(r)[y] == if y < x + 1 then |Partners(hit, n, y)| else 0
    {
      RepeatCount(x, |pb|, y);
    }
  }

  lemma RowOrdered(reported: seq<int>, len: nat, x: nat)
    requires forall i :: 0 <= i < |reported| ==> 0 <= reported[i] < x
    requires forall i, i' :: 0 <= i < i' < |reported| ==> reported[i] <= reported[i']
    ensures var r := reported + seq(len, _ => x);
      (forall i :: 0 <= i < |r| ==> 0 <= r[i] < x + 1) &&
      (forall i, i' :: 0 <= i < i' < |r| ==> r[i] <= r[i'])
  {
  }

  lemma PairedStep(hit: (nat, nat) -> bool, n: nat, p: seq<int>, q: seq<int>, q': seq<int>, x: nat)
    requires x < n && n <= |p| && |q| == |p| && |q'| == |p|
    requires ContactsPaired(hit, n, p, q, x) && RowPaired(hit, q, q', x, n)
    ensures ContactsPaired(hit, n, p, q', x + 1)
  {
    forall m | 0 <= m < n
      ensures q'[m] == PairedWith(hit, n, m, x + 1)
    {
      assert q[m] == PairedWith(hit, n, m, x);
    }
  }

  lemma TimedStep(hit: (nat, nat) -> bool, time: (nat, nat) -> real, n: nat, hole: real, times: seq<real>, u: seq<real>, u': seq<real>, x: nat)
    requires x < n
    requires ContactsTimed(hit, time, n, hole, times, u, x) && RowTimed(hit, time, hole, u, u', x, n)
    ensures ContactsTimed(hit, time, n, hole, times, u', x + 1)
  {
  }

  /** What `find_colliding_pairs` finds, from any pair and time buffers: it reports one
      index per colliding pair, the smaller of the two, in non-decreasing order, so an
      entity is reported once per later partner. An entity with later partners is paired
      with the LAST of them and records that pair's time; an entity without is paired with
      the last earlier entity that collides with it, and otherwise stays -1; its time slot
      is untouched. */
  lemma CollidingPairs(hit: (nat, nat) -> bool, time: (nat, nat) -> real, n: nat, hole: real, p: seq<int>, times: seq<real>)
    ensures var c := ContactScan(hit, time, n, hole, Filled(p, n, -1), times, n);
      |c.reported| == PairCount(hit, n, n) &&
      (forall i :: 0 <= i < |c.reported| ==> 0 <= c.reported[i] < n) &&
      (forall i, i' :: 0 <= i < i' < |c.reported| ==> c.reported[i] <= c.reported[i']) &&
      (forall x :: 0 <= x < n ==> multiset(c.reported)[x] == |Partners(hit, n, x)|) &&
      (forall m :: 0 <= m < n ==>
         c.pairs[m] == (if Partners(hit, n, m) != [] then Last(Partners(hit, n, m))
                        else LastClaimer(hit, m, m))) &&
      (forall m :: 0 <= m < n && Partners(hit, n, m) != [] ==>
         m < |c.times| && c.times[m] == time(m, Last(Partners(hit, n, m)))) &&
      |c.times| >= |times| &&
      (forall m :: 0 <= m < |times| && (m >= n || Partners(hit, n, m) == []) ==>
         c.times[m] == times[m])
  {
    ContactScanInvariant(hit, time, n, hole, Filled(p, n, -1), times, n);
  }

  /** An entity's pair slot ends -1 exactly when it collides with no other entity, before or
      after it. */
  lemma UnpairedIffNoCollision(hit: (nat, nat) -> bool, time: (nat, nat) -> real, n: nat, hole: real, p: seq<int>, times: seq<real>, m: nat)
    requires m < n
    ensures ContactScan(hit, time, n, hole, Filled(p, n, -1), times, n).pairs[m] == -1 <==>
      (forall k :: m < k < n ==> !hit(m, k)) &&
      (forall y :: 0 <= y < m ==> !hit(y, m))
  {
    ContactScanInvariant(hit, time, n, hole, Filled(p, n, -1), times, n);
    PartnersBelowExactly(hit, m, n);
    LastClaimerIsLast(hit, m, m);
    var pm := Partners(hit, n, m);
    if pm != [] {
      assert hit(m, pm[0]);
    }
  }
}
