# A verified model of ts-rigid-body-physics-2d

ts-rigid-body-physics-2d is a small 2D physics engine. Its bodies are rigid discs. A `World`
owns a set of entities; each entity is a rigid body (mass, elasticity, position, velocity,
rotation, spin) together with a disc geometry.

A call to `World.step(dt)` does four things:
1. It separates bodies that intersect.
2. It advances every body by `dt`, in one of two modes:
   - simply, entity by entity;
   - "piecewise", group by group. Each group is stepped up to its earliest contact, the contact
     is resolved, and the rest of the step continues.
3. It keeps the broadphase informed of every move.
4. It stops bodies whose speed fell below a rest threshold.

A broadphase is one of two things:
- a naive list that reports all entities as one group;
- a quadtree that reports one group per leaf holding at least two entities.

The narrowphase does two jobs. It finds intersecting pairs with a closed disc test. It finds
colliding pairs by solving for the time at which the distance between two moving discs equals
the sum of their radii.

The project models the core of the engine, one Dafny module per source file:

| Dafny file | module | source |
|---|---|---|
| vector.dfy | `Vectors` | `source/linear_algebra/Vector.ts` |
| bounding_box.dfy | `BoundingBoxes` | `source/spatial_partitions/BoundingBox.ts` |
| utilities.dfy | `Utilities` | `source/numerical_analysis/utilities.ts` |
| disc.dfy | `Discs` | `source/geometry/Disc.ts` |
| intersection.dfy | `Intersection` | `source/geometry/intersection.ts` |
| rigid_body.dfy | `RigidBodies` | `source/simulation/RigidBody.ts` |
| entity.dfy | `Entities` | `source/simulation/Entity.ts` |
| quadtree_model.dfy, quadtree.dfy | `QuadtreeModel`, `Quadtrees` | `source/spatial_partitions/Quadtree.ts` |
| collision_tester.dfy | `CollisionTester` | the pair test of `source/collision/narrowphase/detection.ts` |
| pair_scans.dfy, detection.dfy | `PairScans`, `Detection` | the two pair finders of `detection.ts` |
| buffer.dfy | `Buffers` | the growable JavaScript arrays those finders fill |
| resolution.dfy | `Resolution` | `Target` and the shape of `source/collision/narrowphase/resolution.ts` |
| naive_broadphase.dfy | `NaiveBroadphases` | `source/collision/broadphase/NaiveBroadphase.ts` |
| quadtree_broadphase.dfy | `QuadtreeBroadphases` | `source/collision/broadphase/QuadtreeBroadphase.ts` |
| broadphase.dfy | `Broadphases` | the `Broadphase` interface |
| world.dfy | `Worlds` | `source/simulation/World.ts` |
| wrappers.dfy | `Wrappers` | `Option` and `Result` for error paths |

**Form of the model.** Code that the source writes as expressions becomes functions over
datatypes. Code that updates objects in place becomes classes with `modifies` frames:
- the mutable `Vector`;
- the `RigidBody` and `Entity`;
- the quadtree nodes;
- the two broadphases;
- the world;
- the buffers the pair finders fill.

Each method is proved against a specification function, and the properties are proved as
lemmas about that function:
- The quadtree nodes are a linked structure. Their methods are proved to update
  `Quadtree.Model()`, a `Tree` value, exactly as the recursive functions of `QuadtreeModel` say.
- The pair finders are loops. They are proved to leave their buffers as the reference scans
  `IntersectScan` and `ContactScan` of `PairScans` say. What those scans report is then
  characterised by `IntersectingPairs` and `CollidingPairs`.
- The world's methods are stated in terms of the value functions `Stepped`, `Separated`,
  `Collided`, `Settle`, `Marks`, `MovedAll` and the quadtree model.

`World.entity_count` and `World.contains` are the functions `Worlds.World.EntityCount` and
`Worlds.World.Contains`. The contracts of `Spawn`, `Despawn` and `Clear` describe them.

Numbers are exact reals. See "## Left out" for what that does not capture.

## Model

| member | source | states |
|---|---|---|
| Utilities.MinMax | source/numerical_analysis/utilities.ts:10-14 | the result is the two arguments ordered, smaller first; already ordered arguments are returned as they are |
| Utilities.MinMaxSymmetric | source/numerical_analysis/utilities.ts:10-14 | the order of the arguments does not change the result |
| Vectors.Vec.Plus | source/linear_algebra/Vector.ts:50-56 | subtracting the second operand from the sum gives the first back, in each component |
| Vectors.Vec.Minus | source/linear_algebra/Vector.ts:58-64 | adding the second operand back to the difference gives the first, in each component |
| Vectors.Vec.Scale | source/linear_algebra/Vector.ts:66-72 | scaling by 1 is the identity; scaling by 0 gives the zero vector |
| Vectors.Vec.Negative | source/linear_algebra/Vector.ts:34-37 | the negative is the additive inverse: adding it to the vector gives zero |
| Vectors.Vec.LengthSquared | source/linear_algebra/Vector.ts:175-179 | the squared length is never negative |
| Vectors.Vec.DistanceSquaredTo | source/linear_algebra/Vector.ts:190-195 | the squared distance is the squared length of the difference vector |
| Vectors.Vec.Dot | source/linear_algebra/Vector.ts:162-166 | the dot product (its algebra in `DotProperties`) |
| Vectors.Vec.Cross | source/linear_algebra/Vector.ts:168-172 | the z-component of the cross product (its algebra in `CrossProperties`) |
| Vectors.Uniform | source/linear_algebra/Vector.ts:26 | both components equal the given value |
| Vectors.NegativeInvolutive | source/linear_algebra/Vector.ts:34-37 | negating twice gives the vector back |
| Vectors.PlusMinusRoundTrip | source/linear_algebra/Vector.ts:50-64 | add then subtract the same vector is the identity (exact arithmetic) |
| Vectors.DotProperties | source/linear_algebra/Vector.ts:162-179 | the dot product is symmetric, and the squared length is the dot product of a vector with itself |
| Vectors.CrossProperties | source/linear_algebra/Vector.ts:168-172 | the cross product is antisymmetric, and a vector crossed with itself is zero |
| Vectors.DistanceSquaredSymmetric | source/linear_algebra/Vector.ts:190-195 | the squared distance does not depend on direction |
| Vectors.DistanceSquaredNonNegative | source/linear_algebra/Vector.ts:190-195 | the squared distance is never negative, and is zero from a vector to itself |
| Vectors.Vector.constructor | source/linear_algebra/Vector.ts:5-9 | the new vector holds the given components |
| Vectors.Vector.Duplicate | source/linear_algebra/Vector.ts:15-18 | a fresh vector equal to the original |
| Vectors.Vector.Negative | source/linear_algebra/Vector.ts:34-37 | a fresh vector holding the negative; the input is left alone |
| Vectors.Vector.Sum | source/linear_algebra/Vector.ts:50-56 | a fresh vector holding the sum; the inputs are left alone |
| Vectors.Vector.Difference | source/linear_algebra/Vector.ts:58-64 | a fresh vector holding the difference; the inputs are left alone |
| Vectors.Vector.Scaled | source/linear_algebra/Vector.ts:66-72 | a fresh vector holding the scaled value; the input is left alone |
| Vectors.Vector.Negate | source/linear_algebra/Vector.ts:99-104 | in place, the vector becomes its negative, and the method returns the vector itself |
| Vectors.Vector.Assign | source/linear_algebra/Vector.ts:124-129 | in place, the vector takes the other's value, which is unchanged; the method returns the vector itself |
| Vectors.Vector.Add | source/linear_algebra/Vector.ts:132-137 | in place, the vector becomes the sum, even when the argument is the vector itself; the method returns the vector itself |
| Vectors.Vector.Subtract | source/linear_algebra/Vector.ts:139-144 | in place, the vector becomes the difference; the method returns the vector itself |
| Vectors.Vector.Scale | source/linear_algebra/Vector.ts:146-151 | in place, the vector becomes the scaled value; the method returns the vector itself |
| Vectors.AddSubtractRestores | source/linear_algebra/Vector.ts:132-144 | in place, adding another vector and then subtracting it restores the value |
| Vectors.NegateTwiceRestores | source/linear_algebra/Vector.ts:99-104 | in place, negating twice restores the value |
| Discs.Disc.CenterOfMass | source/geometry/Disc.ts:8-12 | the centre of mass is the uniform vector (radius, radius), as the constructor sets it |
| Discs.Disc.MomentOfInertia | source/geometry/Disc.ts:21-26 | half the mass times the squared radius (sign and linearity in `MomentOfInertiaSign`, `MomentOfInertiaLinear`) |
| Discs.MomentOfInertiaSign | source/geometry/Disc.ts:21-26 | the moment is non-negative for a non-negative mass, and positive for a positive mass and a non-zero radius |
| Discs.MomentOfInertiaLinear | source/geometry/Disc.ts:21-26 | the moment is linear in the mass |
| Intersection.Square | source/geometry/intersection.ts:17 | a square is never negative |
| Intersection.TestForIntersection | source/geometry/intersection.ts:13-18 | two discs intersect when the squared distance of their centres is at most the squared sum of their radii (touching counts) |
| Intersection.IntersectionSymmetric | source/geometry/intersection.ts:13-18 | the disc test does not depend on the order of the discs |
| Intersection.TouchingDiscsIntersect | source/geometry/intersection.ts:17 | discs that just touch intersect, since the test is closed |
| Intersection.ConcentricDiscsIntersect | source/geometry/intersection.ts:13-18 | concentric discs always intersect |
| Intersection.SeparatedDiscsDoNotIntersect | source/geometry/intersection.ts:13-18 | discs further apart along one axis than the sum of their radii do not intersect |
| Intersection.IntersectingDiscsHaveOverlappingBoxes | source/geometry/intersection.ts:13-18 | intersecting discs have overlapping bounding squares, so the quadtree cannot put an intersecting pair in disjoint leaves |
| BoundingBoxes.FromExtents | source/spatial_partitions/BoundingBox.ts:5-17 | the four extents are stored as given |
| BoundingBoxes.FromCenterAndSize | source/spatial_partitions/BoundingBox.ts:19-34 | the box has the given width and height and the given centre as midpoint; it is proper for non-negative sizes |
| BoundingBoxes.FromCenterAndRadius | source/spatial_partitions/BoundingBox.ts:36-48 | the box is the square of side 2r around the centre |
| BoundingBoxes.Union | source/spatial_partitions/BoundingBox.ts:51-63 | the union contains both boxes, and lies in every box that contains both (least upper bound) |
| BoundingBoxes.Intersection | source/spatial_partitions/BoundingBox.ts:65-77 | the intersection lies in both boxes, and contains every box that lies in both (greatest lower bound) |
| BoundingBoxes.Box.IsDegenerate | source/spatial_partitions/BoundingBox.ts:89-93 | a box is degenerate when its width or height is zero or negative |
| BoundingBoxes.Box.Overlaps | source/spatial_partitions/BoundingBox.ts:96-102 | the closed overlap test, so shared edges and corners overlap (see `OverlapsSymmetric`, `OverlapsClosed`) |
| BoundingBoxes.Box.Contains | source/spatial_partitions/BoundingBox.ts:104-110 | the other box lies within this one, boundaries included (see `ContainsReflexive`, `ContainsTransitive`) |
| BoundingBoxes.Box.IsProper | source/spatial_partitions/BoundingBox.ts:89-93 | the non-strict counterpart of a non-degenerate box: left <= right and bottom <= top (see `OverlapsIffIntersectionProper`) |
| BoundingBoxes.UnionCommutative | source/spatial_partitions/BoundingBox.ts:51-63 | union is commutative |
| BoundingBoxes.IntersectionCommutative | source/spatial_partitions/BoundingBox.ts:65-77 | intersection is commutative |
| BoundingBoxes.OverlapsSymmetric | source/spatial_partitions/BoundingBox.ts:96-102 | overlap is symmetric |
| BoundingBoxes.OverlapsClosed | source/spatial_partitions/BoundingBox.ts:89-102 | boxes sharing only an edge overlap, while their intersection is degenerate |
| BoundingBoxes.OverlapsIffIntersectionProper | source/spatial_partitions/BoundingBox.ts:65-102 | for proper boxes, overlap holds exactly when the intersection is proper; disjoint boxes have a degenerate intersection |
| BoundingBoxes.ContainsReflexive | source/spatial_partitions/BoundingBox.ts:104-110 | containment is reflexive |
| BoundingBoxes.ContainsTransitive | source/spatial_partitions/BoundingBox.ts:104-110 | containment is transitive |
| BoundingBoxes.ContainsImpliesOverlaps | source/spatial_partitions/BoundingBox.ts:96-110 | a proper box overlaps every box that contains it |
| BoundingBoxes.OverlapsMonotone | source/spatial_partitions/BoundingBox.ts:96-110 | overlap is preserved when the overlapping box is enlarged |
| RigidBodies.CheckParameters | source/simulation/RigidBody.ts:10-17 | a body is accepted exactly when mass > 0 and elasticity >= 0; a bad mass is reported before a bad elasticity; elasticities above 1 pass |
| RigidBodies.RigidBody.constructor | source/simulation/RigidBody.ts:8-41 | once the checks pass, the body has the given mass and elasticity, mass inverse 1/mass, and is at rest at the origin |
| RigidBodies.RigidBody.Momentum | source/simulation/RigidBody.ts:44-47 | dividing the momentum by the mass gives the velocity back; a body at rest has zero momentum |
| RigidBodies.RigidBody.KineticEnergy | source/simulation/RigidBody.ts:49-52 | the energy is non-negative and equals half the dot product of momentum and velocity |
| RigidBodies.Create | source/simulation/RigidBody.ts:8-23 | construction fails with the check's error exactly when the check fails; otherwise it gives a fresh valid body at rest |
| Entities.InverseOf | source/simulation/Entity.ts:17 | the inverse is finite exactly for a non-zero moment, and then multiplies with it to 1 |
| Entities.Entity.constructor | source/simulation/Entity.ts:11-36 | the entity holds the body and geometry, with a moment of inertia derived from them, is not static, and has no applied force or torque |
| Entities.Entity.InertiaInverseFinite | source/simulation/Entity.ts:16-17 | the moment is non-negative, and has a finite inverse exactly when the radius is non-zero |
| Buffers.Written | source/collision/narrowphase/detection.ts:178-183 | writing a slot sets that slot; writing past the end grows the array to hold it, with holes in between; every other slot is kept |
| Buffers.Listed | source/collision/narrowphase/detection.ts:183-185 | writing values to slots 0, 1, ... leaves them as a prefix, followed by what lay beyond |
| Buffers.ListedNext | source/collision/narrowphase/detection.ts:183-185 | writing the next slot in order extends the written prefix by that value |
| Buffers.Filled | source/collision/narrowphase/detection.ts:156 | the reset loop sets the first n slots to the fill value and keeps the rest |
| Buffers.FilledNext | source/collision/narrowphase/detection.ts:156 | one more iteration of the reset loop extends the filled prefix by one |
| Buffers.Holes | source/simulation/World.ts:85-88 | `new Array(n)` has n slots, all holes |
| Buffers.Buffer.constructor | source/simulation/World.ts:85-88 | a new buffer of n holes |
| Buffers.Buffer.Reset | source/simulation/World.ts:85-88 | the buffer is replaced by n holes |
| Buffers.Buffer.Put | source/collision/narrowphase/detection.ts:178-183 | the buffer becomes `Written` of its old contents |
| CollisionTester.CollisionQuadratic | source/collision/narrowphase/detection.ts:73-92 | the coefficients handed to the solver have a non-negative leading term |
| CollisionTester.LeadingCoefficientPositive | source/collision/narrowphase/detection.ts:73-92 | for different velocities the leading coefficient is positive |
| CollisionTester.QuadraticIsGap | source/collision/narrowphase/detection.ts:24-92 | at time t, the quadratic equals the squared distance between the moved centres minus the squared sum of the radii |
| CollisionTester.GapIffIntersect | source/collision/narrowphase/detection.ts:24-92 | the quadratic is at most zero at t exactly when the discs, moved for time t, intersect |
| CollisionTester.SelectTime | source/collision/narrowphase/detection.ts:94-111 | no roots gives -1. With two roots, if the smaller is negative and the larger not, the result is 0; else the smaller root if it lies in [0, dt]; else -1. One root counts only if in [0, dt]. The result is -1 or lies in [0, dt] |
| CollisionTester.TestForCollision | source/collision/narrowphase/detection.ts:24-112 | the result is -1 or a time in [0, dt] |
| CollisionTester.CollisionQuadraticSymmetric | source/collision/narrowphase/detection.ts:73-92 | swapping the discs gives the same coefficients |
| CollisionTester.TestForCollisionSymmetric | source/collision/narrowphase/detection.ts:24-112 | the collision test does not depend on the order of the discs |
| CollisionTester.CompleteSquare | source/collision/narrowphase/detection.ts:94-111 | 4a times q(t) equals (2at + b)^2 minus the discriminant |
| CollisionTester.NoRootPositive | source/collision/narrowphase/detection.ts:94-111 | with no real root, the gap quadratic is positive everywhere |
| CollisionTester.DoubleRootSign | source/collision/narrowphase/detection.ts:94-111 | with a double root, the quadratic is non-negative, and zero only at that root |
| CollisionTester.Factor | source/collision/narrowphase/detection.ts:94-111 | a quadratic with two distinct roots factors through them |
| CollisionTester.BetweenRootsSign | source/collision/narrowphase/detection.ts:94-111 | with two roots, the quadratic is at most zero exactly between them |
| CollisionTester.SelectTimeIsEarliest | source/collision/narrowphase/detection.ts:94-111 | with an exact solver, the selected time is the earliest t in [0, dt] where the quadratic is at most zero, or -1 when there is none |
| CollisionTester.CollisionIsEarliestContact | source/collision/narrowphase/detection.ts:24-112 | for different velocities and an exact solver, the result is -1 exactly when the discs never intersect in [0, dt]; otherwise it is the earliest time they do |
| CollisionTester.EqualVelocitiesMissOverlap | source/collision/narrowphase/detection.ts:88-111 | for equal velocities the solver gets a = b = 0; when its result is no root or a root outside [0, dt] (as the NaN root of the source's solver is), overlapping discs get -1 although they intersect at every time in [0, dt] |
| PairScans.FirstPartnerFrom | source/collision/narrowphase/detection.ts:232-252 | the inner search returns the first candidate partner at or after k, or -1 when none exists |
| PairScans.FirstPartner | source/collision/narrowphase/detection.ts:232-251 | the partner the inner loop finds for j: the first later index forming a candidate pair, or -1 (characterised by `FirstPartnerFrom`) |
| PairScans.MayIntersect | source/collision/narrowphase/detection.ts:236-241 | a candidate pair: not both static, and the discs intersect |
| PairScans.ClaimStep | source/collision/narrowphase/detection.ts:225-251 | one outer pass of `find_intersecting_pairs`, which keeps the pair buffer's length; what the passes together compute is stated by `PairScans.IntersectingPairs` |
| PairScans.IntersectScan | source/collision/narrowphase/detection.ts:222-254 | the scan keeps the pair buffer's length; its result is characterised in full by `PairScans.IntersectingPairs` (each entity paired with its first unclaimed partner, reported once) |
| PairScans.ClaimedExtend | source/collision/narrowphase/detection.ts:232-251 | reporting j claims exactly j's first partner in addition |
| PairScans.ClaimStepPairs | source/collision/narrowphase/detection.ts:243-250 | a pass that pairs an unpaired entity with its partner keeps the scan invariant |
| PairScans.ClaimStepSkips | source/collision/narrowphase/detection.ts:225 | a pass that skips an already paired entity, or finds no partner, keeps the invariant |
| PairScans.ClaimsStart | source/collision/narrowphase/detection.ts:222 | the invariant holds once the pair slots are reset |
| PairScans.ClaimStepKeeps | source/collision/narrowphase/detection.ts:223-253 | every outer pass keeps the invariant |
| PairScans.IntersectScanStep | source/collision/narrowphase/detection.ts:223-253 | the invariant carries from one prefix of the scan to the next |
| PairScans.IntersectScanInvariant | source/collision/narrowphase/detection.ts:222-254 | the invariant holds at every point of the scan |
| PairScans.IntersectingPairs | source/collision/narrowphase/detection.ts:206-255 | in `find_intersecting_pairs`, reported indices are below n and strictly increasing. Each is paired with its first candidate partner. An entity is reported exactly when it has a partner and no earlier reported entity claimed it. A pair slot stays -1 exactly when its entity is neither reported nor claimed |
| PairScans.NoneReportedIffNoCandidates | source/collision/narrowphase/detection.ts:206-255 | `find_intersecting_pairs` reports nothing exactly when no two of the first n entities form a candidate pair |
| PairScans.PartnersBelowExactly | source/collision/narrowphase/detection.ts:165-187 | the listed partners of j are exactly the colliding k in range, in increasing order |
| PairScans.LastClaimerIsLast | source/collision/narrowphase/detection.ts:178-179 | the last claimer is the largest earlier entity that collides with m, or -1 |
| PairScans.ContactStep | source/collision/narrowphase/detection.ts:169-186 | one inner pass of `find_colliding_pairs`, which keeps the pair buffer's length; its effect on a row is stated by `PairScans.RowEffect` |
| PairScans.CollisionTime | source/collision/narrowphase/detection.ts:171-175 | the time `test_for_collision` reports for the pair j, k |
| PairScans.Collides | source/collision/narrowphase/detection.ts:169-176 | a colliding pair: not both static, and the collision test reports a time |
| PairScans.RowScan | source/collision/narrowphase/detection.ts:165-187 | one row keeps the pair buffer's length; what it reports, pairs and times is stated by `PairScans.RowEffect` |
| PairScans.ContactScan | source/collision/narrowphase/detection.ts:156-189 | the whole scan keeps the pair buffer's length; its result is characterised in full by `PairScans.CollidingPairs` (one report per colliding pair, each slot holding the last partner and the last pair's time) |
| PairScans.RowEffect | source/collision/narrowphase/detection.ts:165-187 | row j reports j once per partner; it pairs j with its last partner, and each partner with j; it records the last pair's time at j |
| PairScans.RowStep | source/collision/narrowphase/detection.ts:169-186 | the row's effect extends by one inner pass |
| PairScans.RowStepHit | source/collision/narrowphase/detection.ts:176-185 | a colliding inner pass extends the row's effect |
| PairScans.RowStepMiss | source/collision/narrowphase/detection.ts:169-176 | a non-colliding inner pass extends the row's effect |
| PairScans.RowPairedGrows | source/collision/narrowphase/detection.ts:178-179 | pairing j and k extends the row's pairing |
| PairScans.RowTimedGrows | source/collision/narrowphase/detection.ts:181 | recording the time at j extends the row's timing |
| PairScans.ContactScanInvariant | source/collision/narrowphase/detection.ts:157-189 | the scan invariant holds after every row |
| PairScans.ScanReported | source/collision/narrowphase/detection.ts:183-185 | after each row, one report per colliding pair, in non-decreasing order |
| PairScans.ScanPaired | source/collision/narrowphase/detection.ts:178-179 | after each row, each pair slot holds the last partner found for it |
| PairScans.ScanTimed | source/collision/narrowphase/detection.ts:181 | after each row, the time slots of rows with partners hold the last pair's time |
| PairScans.RowReported | source/collision/narrowphase/detection.ts:165-187 | a row keeps the reporting invariant |
| PairScans.RowPairs | source/collision/narrowphase/detection.ts:165-187 | a row keeps the pairing invariant |
| PairScans.RowTimes | source/collision/narrowphase/detection.ts:165-187 | a row keeps the timing invariant |
| PairScans.ReportedStep | source/collision/narrowphase/detection.ts:183-185 | appending the row's reports keeps the reporting invariant |
| PairScans.RowCounted | source/collision/narrowphase/detection.ts:183-185 | each entity is reported once per partner after it |
| PairScans.RowOrdered | source/collision/narrowphase/detection.ts:183-185 | reports stay in non-decreasing order |
| PairScans.PairedStep | source/collision/narrowphase/detection.ts:178-179 | a row's pairing extends the pairing invariant |
| PairScans.TimedStep | source/collision/narrowphase/detection.ts:181 | a row's timing extends the timing invariant |
| PairScans.CollidingPairs | source/collision/narrowphase/detection.ts:133-190 | `find_colliding_pairs` reports one index per colliding pair: its first member, in non-decreasing order. A pair slot ends holding the entity's last later partner, or else its last earlier claimer, or -1. The time slot of an entity with later partners holds the last such pair's time; other time slots are untouched |
| PairScans.UnpairedIffNoCollision | source/collision/narrowphase/detection.ts:133-190 | a pair slot ends -1 exactly when its entity collides with no other entity, before or after it |
| Detection.FirstPartnerAt | source/collision/narrowphase/detection.ts:232-251 | the partner where the inner loop stops is the first one |
| Detection.NoFirstPartner | source/collision/narrowphase/detection.ts:232-252 | an inner loop that runs out means there is no partner |
| Detection.ResetPairs | source/collision/narrowphase/detection.ts:222 | the first n pair slots become -1 |
| Detection.SearchPartner | source/collision/narrowphase/detection.ts:232-252 | the loop returns the first candidate partner of j, or n when there is none |
| Detection.ClaimPass | source/collision/narrowphase/detection.ts:225-252 | one outer pass has exactly the effect of `ClaimStep`, and the reports are written in order |
| Detection.FindIntersectingPairs | source/collision/narrowphase/detection.ts:206-255 | count, pair slots and index buffer are exactly what `IntersectScan` gives after the reset, so `IntersectingPairs` describes them |
| Detection.TestPair | source/collision/narrowphase/detection.ts:167-186 | one inner pass has exactly the effect of `ContactStep` |
| Detection.CollideRow | source/collision/narrowphase/detection.ts:165-187 | one row has exactly the effect of `RowScan` |
| Detection.FindCollidingPairs | source/collision/narrowphase/detection.ts:133-190 | count, pair, time and index buffers are exactly what `ContactScan` gives after the reset, so `CollidingPairs` describes them |
| Detection.CollideRows | source/collision/narrowphase/detection.ts:157-189 | the outer loop has exactly the effect of `ContactScan` |
| Resolution.Targeted | source/collision/narrowphase/resolution.ts:100-106 | an untargeted side keeps its old value; with both targeted the computed pair is taken |
| NaiveBroadphases.IndexOf | source/collision/broadphase/NaiveBroadphase.ts:19 | the result is the first position of the entity, or -1 exactly when it is absent |
| NaiveBroadphases.Spliced | source/collision/broadphase/NaiveBroadphase.ts:17-21 | `splice(i, 1)`, where an index of -1 removes the last element (see `SplicedCount`) |
| NaiveBroadphases.Removed | source/collision/broadphase/NaiveBroadphase.ts:17-21 | `remove(x)`: splice at `indexOf(x)` (see `RemovedPresent`, `RemovedAbsent`) |
| NaiveBroadphases.RemovedPresent | source/collision/broadphase/NaiveBroadphase.ts:17-21 | removing a listed entity drops its first occurrence, keeps the others in order, and removes one copy from the multiset |
| NaiveBroadphases.RemovedAbsent | source/collision/broadphase/NaiveBroadphase.ts:17-21 | removing an unlisted entity from a non-empty list drops the list's last element (`splice(-1, 1)`) |
| NaiveBroadphases.SplicedCount | source/collision/broadphase/NaiveBroadphase.ts:20 | splicing out a position removes one copy of its element |
| NaiveBroadphases.AddThenRemove | source/collision/broadphase/NaiveBroadphase.ts:15-21 | adding an unlisted entity and then removing it restores the list |
| NaiveBroadphases.NaiveBroadphase.constructor | source/collision/broadphase/NaiveBroadphase.ts:37 | the list starts empty |
| NaiveBroadphases.NaiveBroadphase.Clear | source/collision/broadphase/NaiveBroadphase.ts:12 | the list becomes empty |
| NaiveBroadphases.NaiveBroadphase.Add | source/collision/broadphase/NaiveBroadphase.ts:15 | the entity is appended |
| NaiveBroadphases.NaiveBroadphase.Remove | source/collision/broadphase/NaiveBroadphase.ts:17-21 | the list becomes `Removed` of the old list |
| NaiveBroadphases.NaiveBroadphase.Update | source/collision/broadphase/NaiveBroadphase.ts:24 | a move changes nothing |
| NaiveBroadphases.NaiveBroadphase.Groups | source/collision/broadphase/NaiveBroadphase.ts:31-35 | exactly one group, the whole list, even when empty |
| QuadtreeBroadphases.RegionAt | source/collision/broadphase/QuadtreeBroadphase.ts:38-43 | the region is the square of half-side r around the position |
| QuadtreeBroadphases.Region | source/collision/broadphase/QuadtreeBroadphase.ts:38-43 | the box around an entity's current position with its radius |
| QuadtreeBroadphases.Members | source/collision/broadphase/QuadtreeBroadphase.ts:53-60 | the group is the leaf's active entries, in slot order |
| QuadtreeBroadphases.MembersWithin | source/collision/broadphase/QuadtreeBroadphase.ts:53-60 | a group lists each entity once, and only entities the tree holds |
| QuadtreeBroadphases.QuadtreeBroadphase.constructor | source/collision/broadphase/QuadtreeBroadphase.ts:18-25 | the broadphase wraps the given root tree |
| QuadtreeBroadphases.QuadtreeBroadphase.Create | source/collision/broadphase/QuadtreeBroadphase.ts:18-25 | construction fails exactly when the tree is not a root or is not empty |
| QuadtreeBroadphases.QuadtreeBroadphase.Clear | source/collision/broadphase/QuadtreeBroadphase.ts:28 | the tree is cleared as `ClearRoot` says |
| QuadtreeBroadphases.QuadtreeBroadphase.Add | source/collision/broadphase/QuadtreeBroadphase.ts:31 | the entity is added under the square around its current position |
| QuadtreeBroadphases.QuadtreeBroadphase.Remove | source/collision/broadphase/QuadtreeBroadphase.ts:33 | the entity is removed under the square around its current position |
| QuadtreeBroadphases.QuadtreeBroadphase.Update | source/collision/broadphase/QuadtreeBroadphase.ts:36-45 | the entity is moved from the square around the previous position to the square around the current one |
| QuadtreeBroadphases.QuadtreeBroadphase.Groups | source/collision/broadphase/QuadtreeBroadphase.ts:53-60 | one group per leaf with at least two entities, in the tree's leaf order, each the leaf's active entries |
| Broadphases.Broadphase.Clear | source/collision/broadphase/Broadphase.ts:10 | afterwards nothing is held: the naive list is empty, or the tree is cleared |
| Broadphases.Broadphase.Add | source/collision/broadphase/Broadphase.ts:13 | the naive list appends; the tree adds under the entity's region; only that entity is new |
| Broadphases.Broadphase.Remove | source/collision/broadphase/Broadphase.ts:15 | the naive list removes; the tree removes under the entity's region; nothing new is held |
| Broadphases.Broadphase.Update | source/collision/broadphase/Broadphase.ts:18 | the naive list is unchanged; the tree moves the entity from its previous region to its current one |
| Broadphases.Broadphase.Groups | source/collision/broadphase/Broadphase.ts:22-23 | the groups of either broadphase; every group lists held entities, each once |
| Broadphases.RemovedKeepsGroup | source/collision/broadphase/NaiveBroadphase.ts:17-21 | removing from a duplicate-free list of held entities leaves such a list |
| Broadphases.SplicedKeepsGroup | source/collision/broadphase/NaiveBroadphase.ts:20 | splicing a position out of such a list leaves such a list |
| QuadtreeModel.ChildBoundsAreQuadrants | source/spatial_partitions/Quadtree.ts:29-54 | the four children's bounds are the four closed quadrants cut by the centre lines, in the order SW, SE, NW, NE |
| QuadtreeModel.OverlappingChildren | source/spatial_partitions/Quadtree.ts:359-377 | the visited quadrants are exactly those whose half-plane test passes, each once |
| QuadtreeModel.SelectedIffOverlaps | source/spatial_partitions/Quadtree.ts:359-377 | for a region overlapping a proper node, a quadrant is visited exactly when the region overlaps its closed bounds, which lie inside the node |
| QuadtreeModel.SelectedMonotone | source/spatial_partitions/Quadtree.ts:359-377 | a larger region selects at least the quadrants a smaller one does |
| QuadtreeModel.Build | source/spatial_partitions/Quadtree.ts:17-60 | the constructor's tree: depth clamped to 1, bounds as given, empty, well formed, shaped by the quadrant bounds, of uniform depth, a leaf exactly at depth 1 |
| QuadtreeModel.BuildKids | source/spatial_partitions/Quadtree.ts:44-54 | a node of depth at least 2 gets four children of depth one less, over the four quadrants |
| QuadtreeModel.CountNonNegative | source/spatial_partitions/Quadtree.ts:221-333 | counts are never negative in a well-formed tree, and a child's count never exceeds its parent's |
| QuadtreeModel.IndexOf | source/spatial_partitions/Quadtree.ts:251 | the first slot holding the entity, or -1 exactly when no slot holds it; holes never match |
| QuadtreeModel.IndexOfActive | source/spatial_partitions/Quadtree.ts:250-252 | the test `indexOf < count` holds exactly when the entity is active in the leaf |
| QuadtreeModel.LeafAssociate | source/spatial_partitions/Quadtree.ts:250-261 | a leaf adds the entity unless `indexOf` finds it among the active entries (proved in `LeafAssociateSpec`) |
| QuadtreeModel.LeafDisassociate | source/spatial_partitions/Quadtree.ts:276-287 | a leaf removes the entity when `indexOf` finds it among the active entries (proved in `LeafDisassociateSpec`) |
| QuadtreeModel.LeafAdd | source/spatial_partitions/Quadtree.ts:336-347 | the active prefix grows by the entity; the array keeps its length when it has a spare slot, and grows by one otherwise |
| QuadtreeModel.LeafRemove | source/spatial_partitions/Quadtree.ts:349-356 | the active prefix loses exactly the entry at the index, keeping the rest in order |
| QuadtreeModel.LeafAssociateSpec | source/spatial_partitions/Quadtree.ts:250-261 | in a leaf, associating keeps the prefix duplicate-free, makes exactly the entity newly active, and changes nothing if it was already active |
| QuadtreeModel.LeafDisassociateSpec | source/spatial_partitions/Quadtree.ts:276-287 | in a leaf, disassociating keeps the prefix duplicate-free, makes exactly the entity inactive, and changes nothing if it was not active |
| QuadtreeModel.SpliceDistinct | source/spatial_partitions/Quadtree.ts:353 | splicing a slot out of a duplicate-free prefix leaves every other entry, still without duplicates |
| QuadtreeModel.Associate | source/spatial_partitions/Quadtree.ts:237-262 | `_associate` keeps the counting invariant and the tree's shape |
| QuadtreeModel.Disassociate | source/spatial_partitions/Quadtree.ts:263-288 | `_disassociate` keeps the counting invariant and the tree's shape |
| QuadtreeModel.Move | source/spatial_partitions/Quadtree.ts:289-333 | `_move` keeps the counting invariant and the tree's shape |
| QuadtreeModel.Clear | source/spatial_partitions/Quadtree.ts:221-235 | `_clear` keeps the shape and leaves count zero |
| QuadtreeModel.Add | source/spatial_partitions/Quadtree.ts:97-112 | `add` reports true exactly when the region overlaps the root bounds, and leaves the tree unchanged otherwise |
| QuadtreeModel.Remove | source/spatial_partitions/Quadtree.ts:118-133 | `remove` reports true exactly when the region overlaps the root bounds, and leaves the tree unchanged otherwise |
| QuadtreeModel.MoveRoot | source/spatial_partitions/Quadtree.ts:138-175 | `move` reports true exactly when the current region overlaps the root bounds; the tree stays well formed and of the same shape |
| QuadtreeModel.ClearRoot | source/spatial_partitions/Quadtree.ts:86-91 | `clear` keeps the invariant and the shape |
| QuadtreeModel.ApplyWalk | source/spatial_partitions/Quadtree.ts:237-333 | every walk keeps the invariant and the shape |
| QuadtreeModel.WalkedKids | source/spatial_partitions/Quadtree.ts:239-248 | the children stay well formed as the walk visits them |
| QuadtreeModel.WalkedKidsStep | source/spatial_partitions/Quadtree.ts:242-245 | visiting the next selected quadrant finds it untouched, and updates only it |
| QuadtreeModel.SelectedKids | source/spatial_partitions/Quadtree.ts:239-248 | walking the selected children keeps them well formed |
| QuadtreeModel.WalkedKidsSelected | source/spatial_partitions/Quadtree.ts:359-377 | after the visit, exactly the selected quadrants have been walked, whatever the visiting order |
| QuadtreeModel.ApplyWalkNode | source/spatial_partitions/Quadtree.ts:239-248 | at an internal node, the walk updates the selected children and adds their count changes to the node's count |
| QuadtreeModel.WalkKid | source/spatial_partitions/Quadtree.ts:242-245 | a child is walked exactly when its half-plane test passes |
| QuadtreeModel.WalkNode | source/spatial_partitions/Quadtree.ts:239-248 | the node after the walk, in terms of the visit in order |
| QuadtreeModel.ClearedKids | source/spatial_partitions/Quadtree.ts:229-232 | the children stay well formed as `_clear` visits them |
| QuadtreeModel.ClearedKidsStep | source/spatial_partitions/Quadtree.ts:231 | clearing the next child changes only it |
| QuadtreeModel.ClearNode | source/spatial_partitions/Quadtree.ts:221-235 | a non-empty internal node clears every child and zeroes its count |
| QuadtreeModel.ActiveAtIsLeafPath | source/spatial_partitions/Quadtree.ts:237-288 | an entity is active only at the end of a path to a leaf |
| QuadtreeModel.ReachedIsLeafPath | source/spatial_partitions/Quadtree.ts:359-377 | a walk reaches only leaves |
| QuadtreeModel.SameShapePaths | source/spatial_partitions/Quadtree.ts:17-60 | trees of one shape have the same leaves, leaf bounds and walks |
| QuadtreeModel.LeafInside | source/spatial_partitions/Quadtree.ts:29-54 | every leaf of a proper node is a proper box inside it |
| QuadtreeModel.ReachedIffOverlaps | source/spatial_partitions/Quadtree.ts:359-377 | for a region overlapping the node, the walk reaches exactly the leaves whose closed bounds the region overlaps |
| QuadtreeModel.OverlapsLeafOverlapsRoot | source/spatial_partitions/Quadtree.ts:97-112 | a region overlapping some leaf overlaps the root |
| QuadtreeModel.AssociateMembership | source/spatial_partitions/Quadtree.ts:237-262 | `_associate` makes the entity active in exactly the leaves its walk reaches, and changes nothing else |
| QuadtreeModel.DisassociateMembership | source/spatial_partitions/Quadtree.ts:263-288 | `_disassociate` makes the entity inactive in exactly the leaves its walk reaches, and changes nothing else |
| QuadtreeModel.AddPlacesEntity | source/spatial_partitions/Quadtree.ts:97-112 | after `add`, an absent entity is active in exactly the leaves its region overlaps, and every other entity stays where it was |
| QuadtreeModel.RemoveTakesEntity | source/spatial_partitions/Quadtree.ts:118-133 | after `remove`, the entity is inactive in every leaf its region overlaps and unchanged elsewhere; other entities stay |
| QuadtreeModel.MatchesRegionKid | source/spatial_partitions/Quadtree.ts:289-333 | if a node holds the entity exactly where a region overlaps, so does each child |
| QuadtreeModel.MissesBelow | source/spatial_partitions/Quadtree.ts:359-377 | a region missing a node misses all of its leaves, as does any region it contains |
| QuadtreeModel.MoveFollowsCurrent | source/spatial_partitions/Quadtree.ts:289-333 | consider the pruned `_move` walk over the union. If the entity was held exactly where the previous region overlaps, afterwards it is held exactly where the current region overlaps. Other entities are untouched |
| QuadtreeModel.DisassociateMatchedEmpties | source/spatial_partitions/Quadtree.ts:263-288 | disassociating an entity with the region it is filed under leaves it nowhere |
| QuadtreeModel.RemoveThenAddPlaces | source/spatial_partitions/Quadtree.ts:97-133 | remove then add files the entity exactly where the current region overlaps, and keeps everyone else |
| QuadtreeModel.MoveRootPlaces | source/spatial_partitions/Quadtree.ts:138-175 | on each of `move`'s three paths, the entity ends up held exactly where the current region overlaps, and others are unchanged |
| QuadtreeModel.SameMembership | source/spatial_partitions/Quadtree.ts:138-175 | two trees agreeing on all other entities, and holding the entity at the same region, have equal membership |
| QuadtreeModel.MoveMatchesRemoveThenAdd | source/spatial_partitions/Quadtree.ts:138-175 | when the entity was filed under its previous region, `move` leaves the same membership as `remove` followed by `add` |
| QuadtreeModel.Abstract | source/spatial_partitions/Quadtree.ts:336-356 | cutting each leaf down to its active prefix keeps every count |
| QuadtreeModel.AbsentInKid | source/spatial_partitions/Quadtree.ts:237-288 | an entity absent from a node is absent from each child |
| QuadtreeModel.AssociateDisassociateRestores | source/spatial_partitions/Quadtree.ts:237-288 | for an absent entity with the same region, `_associate` then `_disassociate` restores every count and every active prefix |
| QuadtreeModel.LeafRoundTrip | source/spatial_partitions/Quadtree.ts:336-356 | in a leaf, adding an inactive entity and then removing it restores the active prefix |
| QuadtreeModel.AddThenRemoveRestores | source/spatial_partitions/Quadtree.ts:97-133 | for an absent entity with the same region, `add` then `remove` restores what the tree holds (the arrays may keep a stale slot past the count) |
| QuadtreeModel.ZeroCountEmpty | source/spatial_partitions/Quadtree.ts:79 | a node of count zero holds nothing below it |
| QuadtreeModel.PositiveCountActive | source/spatial_partitions/Quadtree.ts:79 | a node of positive count holds some entity at some leaf |
| QuadtreeModel.EmptyIffZeroCount | source/spatial_partitions/Quadtree.ts:79 | `is_empty` (count zero) holds exactly when no leaf below holds anything |
| QuadtreeModel.ClearEmpties | source/spatial_partitions/Quadtree.ts:86-91 | after `clear`, the count is zero and nothing is held anywhere |
| QuadtreeModel.BuildSpec | source/spatial_partitions/Quadtree.ts:17-60 | the constructed tree covers the bounds, is well formed, shaped and empty, and has uniform depth max(depth, 1); it is a leaf exactly when depth <= 1 |
| QuadtreeModel.VisitAtLeast | source/spatial_partitions/Quadtree.ts:201-214 | the leaves `for_each_leaf_with_at_least` calls back, in child order, pruning any node below the threshold (characterised by `VisitIsFilter`) |
| QuadtreeModel.VisitKids | source/spatial_partitions/Quadtree.ts:209-212 | one run of visited leaves per child, in order |
| QuadtreeModel.VisitNode | source/spatial_partitions/Quadtree.ts:205-213 | a node at or above the threshold yields its children's runs one after the other |
| QuadtreeModel.LeavesBelowCount | source/spatial_partitions/Quadtree.ts:201-214 | every leaf below a node has a count between 0 and the node's |
| QuadtreeModel.VisitIsFilter | source/spatial_partitions/Quadtree.ts:201-214 | `for_each_leaf_with_at_least` visits exactly the leaves whose count reaches the threshold, in leaf order SW, SE, NW, NE; pruning loses none |
| QuadtreeModel.ActiveIsWithin | source/spatial_partitions/Quadtree.ts:237-288 | an entity held by a tree within a set is in the set |
| QuadtreeModel.WithinFromActive | source/spatial_partitions/Quadtree.ts:237-288 | a well-formed tree whose held entities are all in a set is within that set |
| QuadtreeModel.MoveOthers | source/spatial_partitions/Quadtree.ts:289-333 | `_move` changes where no other entity is held |
| QuadtreeModel.AddStaysWithin | source/spatial_partitions/Quadtree.ts:97-112 | `add` brings in no entity but the added one |
| QuadtreeModel.RemoveStaysWithin | source/spatial_partitions/Quadtree.ts:118-133 | `remove` brings in no entity |
| QuadtreeModel.MoveStaysWithin | source/spatial_partitions/Quadtree.ts:138-175 | `move` brings in no entity but the moved one |
| QuadtreeModel.ClearStaysWithin | source/spatial_partitions/Quadtree.ts:86-91 | after `clear`, no entity is held |
| QuadtreeModel.VisitedLeaf | source/spatial_partitions/Quadtree.ts:201-214 | a visited node is a well-formed leaf holding at least the threshold |
| QuadtreeModel.VisitedWithin | source/spatial_partitions/Quadtree.ts:201-214 | a visited leaf holds only entities the tree holds |
| Quadtrees.Quadtree.constructor | source/spatial_partitions/Quadtree.ts:17-60 | depth is clamped to at least 1; a depth-1 node is a leaf with two hole slots; otherwise four quadrant children are built; every count is zero |
| Quadtrees.Quadtree.NewQuadrants | source/spatial_partitions/Quadtree.ts:44-54 | four fresh non-root children, with disjoint subtrees, over the quadrants SW, SE, NW, NE |
| Quadtrees.Quadtree.AddQuadrant | source/spatial_partitions/Quadtree.ts:50-53 | one more fresh child over the next quadrant |
| Quadtrees.Quadtree.BlankModel | source/spatial_partitions/Quadtree.ts:17-60 | a node as the constructor leaves it holds the tree `Build` describes, so `BuildSpec` applies |
| Quadtrees.Quadtree.IsEmpty | source/spatial_partitions/Quadtree.ts:79 | true exactly when the count is zero, hence when nothing is held |
| Quadtrees.Quadtree.Clear | source/spatial_partitions/Quadtree.ts:86-91 | a non-root fails with NotRoot and is unchanged; a root becomes `ClearRoot` of its old state |
| Quadtrees.Quadtree.Add | source/spatial_partitions/Quadtree.ts:97-112 | a non-root fails with NotRoot and is unchanged; a root returns and becomes what `QuadtreeModel.Add` says |
| Quadtrees.Quadtree.Remove | source/spatial_partitions/Quadtree.ts:118-133 | a non-root fails with NotRoot and is unchanged; a root returns and becomes what `QuadtreeModel.Remove` says |
| Quadtrees.Quadtree.Move | source/spatial_partitions/Quadtree.ts:138-175 | a non-root fails with NotRoot and is unchanged; a root returns and becomes what `MoveRoot` says |
| Quadtrees.Quadtree.LeavesWithAtLeast | source/spatial_partitions/Quadtree.ts:201-214 | the nodes visited, in order, are those `VisitAtLeast` lists |
| Quadtrees.Quadtree.LeavesOfChildren | source/spatial_partitions/Quadtree.ts:209-212 | the children's visits, one after the other |
| Quadtrees.Quadtree.HoldsLeafBelow | source/spatial_partitions/Quadtree.ts:201-214 | a leaf of a child is a leaf of the node |
| Quadtrees.Quadtree.ClearCounts | source/spatial_partitions/Quadtree.ts:221-235 | the subtree becomes `QuadtreeModel.Clear` of its old state |
| Quadtrees.Quadtree.ClearChildren | source/spatial_partitions/Quadtree.ts:229-232 | every child is cleared |
| Quadtrees.Quadtree.ClearChild | source/spatial_partitions/Quadtree.ts:231 | child k is cleared; the others are unchanged |
| Quadtrees.Quadtree.Associate | source/spatial_partitions/Quadtree.ts:237-262 | the subtree becomes `QuadtreeModel.Associate` of its old state, and the result is the change in count |
| Quadtrees.Quadtree.Disassociate | source/spatial_partitions/Quadtree.ts:263-288 | the subtree becomes `QuadtreeModel.Disassociate` of its old state, and the result is the change in count |
| Quadtrees.Quadtree.MoveEntity | source/spatial_partitions/Quadtree.ts:289-333 | the subtree becomes `QuadtreeModel.Move` of its old state, and the result is the change in count |
| Quadtrees.Quadtree.WalkBelow | source/spatial_partitions/Quadtree.ts:239-248 | at an internal node the walk continues into the selected children, and the count takes the sum of their changes |
| Quadtrees.Quadtree.Walk | source/spatial_partitions/Quadtree.ts:237-333 | the subtree becomes `ApplyWalk` of its old state, and the result is the change in count |
| Quadtrees.Quadtree.ForEachOverlappingChild | source/spatial_partitions/Quadtree.ts:359-377 | exactly the selected children are walked, and the sum of their changes is returned |
| Quadtrees.Quadtree.WalkChild | source/spatial_partitions/Quadtree.ts:242-245 | child k is walked and its change returned; the others are unchanged |
| Quadtrees.Quadtree.AddEntry | source/spatial_partitions/Quadtree.ts:336-347 | the leaf becomes `LeafAdd` of its old state |
| Quadtrees.Quadtree.RemoveEntry | source/spatial_partitions/Quadtree.ts:349-356 | the leaf becomes `LeafRemove` of its old state |
| Worlds.TargetFor | source/simulation/World.ts:280-283 | a static first side makes only the second move; otherwise each side moves exactly when it is not static |
| Worlds.Clamped | source/simulation/World.ts:115-122 | a velocity below the rest threshold becomes zero; any other is kept |
| Worlds.ClampedIdempotent | source/simulation/World.ts:115-122 | the rest clamp is idempotent |
| Worlds.Settled | source/simulation/World.ts:117-121 | a velocity the rest clamp leaves alone: zero, or of squared length at least the threshold |
| Worlds.Advanced | source/simulation/World.ts:251-268 | the velocity changes by force times inverse mass times dt; with no force the position moves by velocity times dt; dt = 0 changes nothing |
| Worlds.Spun | source/simulation/World.ts:269-274 | the spin changes by torque times inverse moment times dt; with no torque the rotation moves by spin times dt; dt = 0 changes nothing |
| Worlds.Separated | source/simulation/World.ts:278-289 | a static side keeps its position; a moving side takes what `separate` computes |
| Worlds.Collided | source/simulation/World.ts:292-317 | a static side keeps its velocity; the responder is called in the order the source uses, and only moving sides take its result |
| Worlds.StepMotion | source/simulation/World.ts:251-275 | `_step_entity` on a motion: semi-implicit Euler for position and velocity, and for rotation and angular velocity unless the inertia inverse is infinite (see `SteppedZero`, `SteppedFree`) |
| Worlds.Stepped | source/simulation/World.ts:251-275 | `StepMotion` with an entity's applied force and torque and its inverse mass and inertia |
| Worlds.CollidedSwapsWithStatic | source/simulation/World.ts:292-317 | with exactly one static side, swapping the pair swaps the result |
| Worlds.Set | source/simulation/World.ts:151-152 | `dirty_set.set` overwrites the stored position; a new key is appended to the key order |
| Worlds.SetKeepsLatest | source/simulation/World.ts:151-152 | two writes for one entity keep the second position, not the first |
| Worlds.SetIfAbsent | source/simulation/World.ts:151-152 | only the first write for an entity is kept |
| Worlds.SetIfAbsentKeepsFirst | source/simulation/World.ts:151-152 | two writes for one entity keep the first position |
| Worlds.BuildTwo | source/spatial_partitions/Quadtree.ts:17-60 | the constructor with depth 2 gives a node split at the centre of its bounds over four empty leaves, one per quadrant, in the order SW, SE, NW, NE |
| Worlds.BuildQuadrants | source/spatial_partitions/Quadtree.ts:17-60 | over [0, 4] x [0, 4] those leaves are [0, 2] x [0, 2], [2, 4] x [0, 2], [0, 2] x [2, 4] and [2, 4] x [2, 4] |
| Worlds.QuadrantsEmpty | source/spatial_partitions/Quadtree.ts:17-60 | a freshly built tree lists no entity in any leaf |
| Worlds.ReachedSouthWest | source/spatial_partitions/Quadtree.ts:359-377 | the walk for the box around (1, 1) with radius 0.5 enters the south-west child and no other leaf |
| Worlds.MissedSouthWest | source/spatial_partitions/Quadtree.ts:359-377 | the walk for the box around (3, 1) with radius 0.5 does not enter the south-west child |
| Worlds.ReachedNorthEast | source/spatial_partitions/Quadtree.ts:359-377 | the walk for the box around (3, 3) with radius 0.5 enters the north-east child and no other leaf |
| Worlds.AddedSouthWest | source/spatial_partitions/Quadtree.ts:97-112 | adding an entity around (1, 1) with radius 0.5 to that tree keeps its shape and lists the entity in the south-west leaf only |
| Worlds.LatestMarkListing | source/simulation/World.ts:151-152 | after `move` from the region around its latest mark (3, 1) to the one around (3, 3), that entity is listed in exactly the south-west and north-east leaves |
| Worlds.LatestMarkSouthWestBounds | source/spatial_partitions/Quadtree.ts:138-175 | that `move` keeps the root's four children, the south-west one over [0, 2] x [0, 2] |
| Worlds.LatestMarkLeavesStaleLeaf | source/simulation/World.ts:151-152 | moving that entity from the region around its latest mark (3, 1) to the one around (3, 3) leaves it listed in exactly the south-west and north-east leaves, though the new region does not overlap the south-west leaf |
| Worlds.FirstMarkMovesCleanly | source/simulation/World.ts:151-152 | moving it from the region around its first mark instead takes it out of the south-west leaf and lists it in the north-east one |
| Worlds.MinTime | source/simulation/World.ts:210-223 | the minimum of t and the recorded times: a lower bound of all of them that is one of them |
| Worlds.RecordedTimes | source/simulation/World.ts:211-215 | the times recorded at the reported indices, in report order |
| Worlds.RecordedTimesNext | source/simulation/World.ts:211-215 | one more report adds its time |
| Worlds.EarliestContact | source/simulation/World.ts:210-223 | the chosen time is the minimum of t and the recorded times; a tie keeps the earlier choice; a time below t comes with the pair that recorded it |
| Worlds.ChoiceKept | source/simulation/World.ts:217-222 | a time that is not strictly smaller keeps the current choice |
| Worlds.ChoiceReplaced | source/simulation/World.ts:217-222 | a strictly smaller time replaces the choice with its pair |
| Worlds.ReportedContact | source/simulation/World.ts:206-215 | every reported pair collides at its recorded time |
| Worlds.SteppedZero | source/simulation/World.ts:251-275 | a step of zero changes no motion |
| Worlds.SteppedFree | source/simulation/World.ts:251-275 | with no force or torque, the step moves position and rotation linearly, with constant velocity and spin |
| Worlds.StepEntity | source/simulation/World.ts:251-275 | the body's motion becomes `Stepped` of its old motion |
| Worlds.Separate | source/simulation/World.ts:278-289 | the two positions become `Separated` of the old particles |
| Worlds.Collide | source/simulation/World.ts:292-317 | the two velocities become `Collided` of the old particles |
| Worlds.States | source/collision/narrowphase/detection.ts:159-163 | the snapshot the scans read: one state per entity, with its position, velocity, radius and static flag |
| Worlds.AdvanceAll | source/simulation/World.ts:224-227 | every entity of the group is stepped by the given time |
| Worlds.ResolveContact | source/simulation/World.ts:228-232 | the pair's velocities become `Collided` and its positions `Separated` |
| Worlds.StepThenResolve | source/simulation/World.ts:224-232 | all are stepped to the contact, then only the contact pair is resolved |
| Worlds.ChooseContact | source/simulation/World.ts:206-223 | the earliest recorded contact: the least of t and the times recorded for the reported entities, each being that entity's last later partner's time; below t the chosen pair collides at that time, otherwise the previous pair is kept |
| Worlds.LastPartnerHidesEarlierContact | source/collision/narrowphase/detection.ts:169-184 | with three discs where 0 meets 1 at 0.1 and 2 at 0.5, the scan records only 0.5 for entity 0, so the time `_step_group` picks is 0.5 while a contact at 0.1 exists |
| Worlds.PickEarliest | source/simulation/World.ts:210-223 | the minimum over the colliding scan's reports |
| Worlds.StepGroupOnce | source/simulation/World.ts:204-233 | one iteration steps the group to its earliest recorded contact (each reported entity's last later partner's time), or to the end, and resolves the contact pair |
| Worlds.StepGroup | source/simulation/World.ts:192-235 | the time left stays in [0, dt]; a loop that stops before its fuel runs out has at most MIN_TIME_STEP_SIZE left; a step no longer than MIN_TIME_STEP_SIZE does nothing |
| Worlds.ScannedPair | source/simulation/World.ts:140-149 | every reported intersecting pair is a candidate pair |
| Worlds.Prior | source/simulation/World.ts:160-163 | the region of each dirty entity at its recorded position, in key order |
| Worlds.MovedAll | source/simulation/World.ts:160-163 | successive quadtree moves keep the tree well formed |
| Worlds.Everyone | source/simulation/World.ts:160-163 | every dirty entity is moved |
| Worlds.Moving | source/simulation/World.ts:240-248 | exactly the non-static entities are moved |
| Worlds.Marked | source/simulation/World.ts:151-152 | marking keeps the dirty map well formed |
| Worlds.MarkedTracks | source/simulation/World.ts:151-152 | after marking, each moving side of the pair is dirty, recorded at its position from before the pass |
| Worlds.ResolveIntersection | source/simulation/World.ts:143-156 | the pair is separated as `Separated` says, and the dirty map keeps tracking start positions |
| Worlds.ScanIntersections | source/simulation/World.ts:140 | the scan finds nothing exactly when no candidate pair intersects |
| Worlds.ScanReady | source/simulation/World.ts:140 | the scan's reports give a state ready for resolution |
| Worlds.ResolvedPair | source/simulation/World.ts:148-155 | resolving pair j, k changes only entries j and k, never a static one, and keeps every flag, mass, elasticity and radius |
| Worlds.ResolvedAll | source/simulation/World.ts:143-156 | the fold of `ResolvedPair` over the first `count` reported pairs keeps every flag, mass, elasticity and radius |
| Worlds.ResolvedAllKeeps | source/simulation/World.ts:143-156 | the loop leaves alone a static entry and any entry that is in no reported pair |
| Worlds.ResolvedAllKeepsStatic | source/simulation/World.ts:143-156 | every static entry comes out of the loop unchanged |
| Worlds.ReadyResolvable | source/simulation/World.ts:140-146 | the indices and pairs a scan reports are in range and never pair two static entries, so every reported pair can be resolved |
| Worlds.ResolveAll | source/simulation/World.ts:143-156 | the reported pairs can be resolved, and the group's particles become `ResolvedAll` of the old ones: each reported pair j, k in report order is separated, then collided; the dirty map keeps tracking start positions |
| Worlds.SeparateGroup | source/simulation/World.ts:140-158 | a loop that stops before its fuel runs out leaves no candidate pair intersecting; static entries keep their particle |
| Worlds.SeparateRound | source/simulation/World.ts:141-158 | one round resolves the reported pairs as `ResolvedAll` says and rescans; the new count is zero exactly when no candidate pair intersects; static entries are unchanged |
| Worlds.UpdateDirty | source/simulation/World.ts:160-163 | the broadphase is told of every dirty entity's move |
| Worlds.UpdateEach | source/simulation/World.ts:160-163 | the tree becomes `MovedAll` over the dirty keys, from prior regions to current ones; the naive list is unchanged |
| Worlds.UpdateOne | source/simulation/World.ts:162 | one more move; bodies are untouched |
| Worlds.SeparateGroups | source/simulation/World.ts:137-159 | each group goes through the separation loop; the dirty map records start positions, and every static entity keeps its position and velocity |
| Worlds.Positions | source/simulation/World.ts:130-164 | the start positions of the entities |
| Worlds.SeparateColliding | source/simulation/World.ts:130-164 | dirty entities are recorded at their start positions; others have not moved; the tree moved every dirty entity |
| Worlds.SteppedUnlessStatic | source/simulation/World.ts:237-249 | static entities keep their motion; the others are stepped |
| Worlds.StepAt | source/simulation/World.ts:242-247 | entity i is stepped (unless static) and moved in the broadphase |
| Worlds.StepOne | source/simulation/World.ts:240-248 | one loop iteration keeps the stepping invariant |
| Worlds.StepEach | source/simulation/World.ts:237-249 | every non-static entity is stepped and moved in the broadphase from where it was |
| Worlds.SteppedAll | source/simulation/World.ts:240-248 | at the end of the loop, all motions are stepped and the tree moved them all |
| Worlds.Marks | source/simulation/World.ts:173-176 | every entity is recorded at its position; other entries are kept |
| Worlds.MarksAt | source/simulation/World.ts:173-176 | each entity's mark is its given position |
| Worlds.MarkAll | source/simulation/World.ts:173-176 | the loop computes `Marks` of the current positions |
| Worlds.MarksNext | source/simulation/World.ts:175 | one more mark is one more `Set` |
| Worlds.AddMembers | source/simulation/World.ts:180 | the group joins the stepped set |
| Worlds.StepGroups | source/simulation/World.ts:178-182 | the stepped set grows by every group; entities of no group keep their motion |
| Worlds.StepRest | source/simulation/World.ts:183-186 | entities outside the stepped set are stepped by dt; the rest are untouched |
| Worlds.StepGrouped | source/simulation/World.ts:177-186 | after the groups and the rest, each entity is stepped exactly as `RestStepped` says |
| Worlds.StepGroupsThenRest | source/simulation/World.ts:177-186 | the stepped set is exactly the grouped entities, and the rest are stepped by dt |
| Worlds.StoreAndUpdate | source/simulation/World.ts:187-190 | the dirty map is stored and the broadphase told of each move; bodies are untouched |
| Worlds.StepPiecewiseOver | source/simulation/World.ts:166-191 | every position is marked; the stepped set lies in the world; the rest are stepped; the tree moves every marked entity |
| Worlds.Settle | source/simulation/World.ts:115-122 | only the velocity can change, to zero, and afterwards it is settled |
| Worlds.SettleIdempotent | source/simulation/World.ts:115-122 | settling twice is settling once |
| Worlds.SettleAll | source/simulation/World.ts:115-122 | every body is settled |
| Worlds.SplicedOut | source/simulation/World.ts:64-71 | splicing an entity out of a duplicate-free list removes exactly it |
| Worlds.AddedAll | source/simulation/World.ts:92-96 | adding the entities one by one keeps the tree well formed |
| Worlds.DirtyMap.constructor | source/simulation/World.ts:322-330 | the dirty map starts empty |
| Worlds.EntitySet.constructor | source/simulation/World.ts:322-330 | the stepped set starts empty |
| Worlds.World.DistinctBodies | source/simulation/World.ts:54-62 | distinct spawned entities have distinct bodies |
| Worlds.World.EntityCount | source/simulation/World.ts:46 | the number of spawned entities |
| Worlds.World.Contains | source/simulation/World.ts:49-52 | whether the entity is in the world's set |
| Worlds.World.constructor | source/simulation/World.ts:37-43 | no entities, not initialized, with the given broadphase and stepping mode |
| Worlds.World.Spawn | source/simulation/World.ts:54-62 | fails exactly when the body's checks fail, leaving the set alone; otherwise a fresh non-static entity at rest at the origin is appended, and the count rises by one |
| Worlds.World.Register | source/simulation/World.ts:59 | a new entity with a body of its own joins the set |
| Worlds.World.Despawn | source/simulation/World.ts:64-71 | an entity not in the set is an error and changes nothing; otherwise only it leaves the set, with the others in order |
| Worlds.World.Clear | source/simulation/World.ts:73-76 | the set becomes empty |
| Worlds.World.Initialize | source/simulation/World.ts:79-97 | the snapshot equals the set; the four buffers are n holes; the broadphase is cleared, then holds every entity under its region |
| Worlds.World.Rebuild | source/simulation/World.ts:90-96 | the broadphase is cleared and refilled from the set |
| Worlds.World.Refill | source/simulation/World.ts:85-88 | each buffer becomes n holes |
| Worlds.World.Fill | source/simulation/World.ts:92-96 | the snapshot is the set, and the broadphase holds every entity |
| Worlds.World.PushAndAdd | source/simulation/World.ts:94-95 | one entity is pushed and added |
| Worlds.World.SnapshotBodiesDistinct | source/simulation/World.ts:54-62 | the entities of the snapshot have bodies of their own |
| Worlds.World.SeparationPass | source/simulation/World.ts:130-164 | the dirty map holds each moved entity's start position; unlisted entities did not move; the broadphase was told of every move |
| Worlds.World.StepSimple | source/simulation/World.ts:237-249 | every non-static entity is stepped by dt and moved in the broadphase; static ones stay |
| Worlds.World.StepPiecewise | source/simulation/World.ts:166-191 | the positions are marked; grouped entities are stepped by their groups, the rest by dt; the broadphase is told of each move |
| Worlds.World.SettleBodies | source/simulation/World.ts:114-122 | every velocity in the snapshot is settled |
| Worlds.World.Step | source/simulation/World.ts:99-123 | a non-positive dt changes nothing; otherwise, afterwards every velocity in the snapshot is zero or at least the rest threshold |

## Left out

- Floating point: all arithmetic is over exact reals. Rounding, overflow, NaN and infinity are
  not modelled. The one exception is `1 / 0` for the moment of inertia of a disc of radius 0,
  which `Entities.InverseOf` maps to `None` ("infinite"). The `Worlds.StepMotion` line below
  says what the stepping then does differently.
- `Math.pow(x, 2)` is `x * x` (`Intersection.Square`, `Discs.Disc.MomentOfInertia`).
- `source/numerical_analysis/quadratic.ts` is not part of this model. The collision test takes
  the quadratic solver as a parameter (`CollisionTester.Solver`). The earliest-contact
  property is proved for an exact solver.
- CollisionTester.CollisionIsEarliestContact: proved only for discs with different
  velocities. With equal velocities the solver is handed a = b = 0 (detection.ts:88-92).
  `solve` then sees a zero discriminant and returns the root -0 / (2 * 0), which is NaN.
  `0 <= NaN` is false, so detection.ts:110-111 returns -1 even for discs that overlap, as
  they keep doing throughout. NaN is not modelled, so the model leaves the solver's result
  at a = 0 open. `CollisionTester.EqualVelocitiesMissOverlap` states what follows for a
  result of that kind: overlapping discs moving together get -1.
- Worlds.StepMotion, Worlds.Stepped, Worlds.StepEntity, Worlds.SteppedZero: for a disc of
  radius 0 the inverse moment of inertia is `1 / 0`, which is Infinity (Entity.ts:16-17).
  World.ts:270-273 then multiplies the torque by Infinity. That writes NaN (when the torque
  or dt is 0) or plus or minus Infinity into `rotation` and `angular_velocity`. The model
  keeps both unchanged in that case, so `SteppedZero`'s "a zero step changes nothing" holds
  in the model but not in the source for such a disc.
- Quadtrees.Quadtree.constructor, QuadtreeModel.Build: the depth is an integer.
  Quadtree.ts:18-25 accepts any number. A fractional depth such as 2.5 is not a leaf; its
  children get 1.5, theirs 0.5, which is clamped to 1, so three levels are built and the
  root keeps depth 2.5. Every caller in the repository passes an integer.
- `source/collision/narrowphase/resolution.ts`: `separate` and `apply_collision_response`
  involve square roots and normalisation. They are function parameters
  (`Resolution.Separator`, `Resolution.Responder`). The model keeps only that an update
  changes the targeted sides of a pair.
- Worlds.World.Step, Worlds.StepGroup, Worlds.SeparateGroup: the `while` loops of
  `_separate_colliding_bodies` and `_step_group` end when float geometry converges. They are
  bounded by a `rounds` parameter. The contracts state what holds when the loop stops before
  the bound; they do not claim that the loop terminates.
- Worlds.SeparateGroup, Worlds.SeparateGroups: each round is characterised exactly
  (`SeparateRound` and `ResolveAll` make the particles `ResolvedAll` of the old ones). Across
  rounds and groups, the contracts state only that static entities keep their particle,
  that the dirty map tracks start positions, and that an early stop leaves no candidate pair
  intersecting. The positions and velocities of moving bodies after the whole loop are not
  given as a closed form, because the number of rounds depends on the float geometry.
- Worlds.World.Step: it requires that `initialize` has run, since the snapshot it walks comes
  from there. Its own `ensures` states the `dt <= 0` guard and the rest clamp. The
  separation and stepping effects are stated by `SeparationPass`, `StepSimple` and
  `StepPiecewise`.
- Worlds.World.StepPiecewise: the stepped set is characterised exactly for the naive
  broadphase. For the quadtree it is only known to lie within the snapshot.
- Worlds.StepGroups: an entity in several quadtree leaves is stepped once for each of its
  groups, as in the source. The model does not characterise the result beyond the
  group-stepping contracts.
- The callbacks of `for_each_potential_collision_group` are modelled by computing the list of
  groups first and then looping over it. This is equivalent because the callbacks do not change
  the broadphase.
- In `_step_piecewise`, the dirty map is written once after the groups are stepped, not
  before. This is equivalent because stepping never reads the dirty map. The separation pass
  likewise stores its dirty map at the end.
- The buffers of `initialize` are reset by assigning `new Array(n)`; holes are a fixed value
  (`Buffers.Holes`). Vectors inside `RigidBody` are held as values, since the source never
  aliases them.
- The `Broadphase` interface is a tagged datatype over the two implementations.
- `Quadtree`: the quadtree broadphase derives each entity's region, so the optional region
  argument of `add`/`remove`/`move` is always supplied. `for_each_leaf`, `for_each_child` and
  `for_each_entity` are not part of this model: the world and the broadphase never call them.
- `Vector.length`, `unit`, `normalize`, `with_length`, `set_length`, `distance_to` and `map`
  involve square roots or callbacks and are not part of this model.
- The demo application and the repository's tests are not modelled.
- Worlds.World.Spawn, RigidBodies.Create: `spawn(mass, radius, elasticity = 1)` and
  `new RigidBody(mass, elasticity = 1)` default the elasticity to 1. Dafny methods have no
  default arguments here, so callers pass the elasticity explicitly. A call that omits it in
  the source corresponds to passing 1.0.

Where the code's behaviour and its evident intent differ, the model follows the code, with
one exception. The model follows the code in these places:
- Piecewise stepping is chosen by the `do_step_piecewise` option (World.ts:19-31), whatever
  the broadphase.
- The rest clamp at the end of `step` visits static entities too.
- The comment on `find_colliding_pairs` (detection.ts:126-129) pairs each entity with "its
  colliding partner" and "the time of collision", and `_step_group` uses those times to step
  to the earliest contact. When an entity has several later partners, the code keeps the last
  one and its time. So `_step_group` can advance past an earlier contact
  (`Worlds.LastPartnerHidesEarlierContact` shows three discs where it does).
  `Worlds.ChooseContact` and `Worlds.StepGroupOnce` state the code's behaviour.
- The comment on `test_for_collision` (detection.ts:21-22) promises the time of collision
  whenever the discs collide within dt. For equal velocities the code returns -1 even for
  overlapping discs; see the `CollisionTester.CollisionIsEarliestContact` line above.

The one exception, where the model does not follow the code:
- `broadphase.update(entity, previous_position)` must be given the position the broadphase
  last saw, which for a separated entity is where it stood before its first separation in
  the pass. The code's dirty map keeps the position before its last separation (`Worlds.Set`,
  `Worlds.SetKeepsLatest`). The separation pass of the model records the first one
  (`Worlds.SetIfAbsent`), as the Findings row explains. Piecewise marking overwrites as the
  code does (`Worlds.Marks`), which is correct there because each entity is marked once.

## Findings

| source | as written | input that shows it | evidently intended | confidence | as-written member | corrected member |
|---|---|---|---|---|---|---|
| source/simulation/World.ts:151-152 | each separation writes `dirty_set.set(entity, position)` and overwrites an earlier entry | an entity separated in two rounds of the `while` loop, moving from p0 to p1 to p2: the map holds p1, and `broadphase.update` then moves it from the region at p1, which the quadtree never held, so the leaves of p0 that p1 does not reach keep a stale entry (`Worlds.LatestMarkLeavesStaleLeaf`: p0 = (1, 1), p1 = (3, 1), p2 = (3, 3), radius 0.5, on a depth-2 tree over [0, 4] x [0, 4]) | record only the first pre-separation position of each entity in the pass, so the broadphase moves it from where it actually was (`Worlds.FirstMarkMovesCleanly` on the same tree) | medium, not executed | Worlds.SetKeepsLatest | Worlds.SetIfAbsentKeepsFirst |
