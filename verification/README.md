# AlpaSim: a verified model of its core algorithms

AlpaSim is a driving simulator: a runtime drives rollouts through rendering, physics, traffic, controller and
driver services. This project models the algorithms under that plumbing and proves what they promise:

- **Curves** (`Vectors`, `Poses`, `Curves`, `Trajectories`, `YawUnwrap`): rigid poses as quaternion and position;
  trajectories as strictly increasing timestamps with interpolation by binary search, `clip`, `append`, `transform`,
  relative deltas, and the nested in-place yaw unwrapping.
- **Polylines** (`Projection`, `Arcs`, `Interpolators`, `Remainders`): closest-point projection, arc lengths, the two
  arc-length interpolators, the route that remains ahead of a point, and resampling from a point. The reference is
  `Arcs.ArcPoint`, the polyline's parametrisation by arc length with no tolerance in it.
- **Routes and lanes** (`Routes`, `RouteExtension`, `RouteLimits`, `LaneChoice`): from recorded waypoints to the fixed-size
  padded route the driving policy gets, the route that grows as the vehicle nears its end, and the greedy choice of a lane
  for every waypoint of a map route.
- **Control** (`VehicleModels`, `VehicleMotion`, `Ranges`, `ControlLoop`, `ControlMeaning`): the sub-stepped second-order
  integrator and the motion it computes, and the loop that merges controller boundaries, reporting times and a target time
  into one list of steps over many requests.
- **Slots** (`AddressPools`): the pools of service slots, all-or-nothing booking with rollback, and the cap on jobs in flight.
- **Protocols and codecs** (`DelayBuffers`, `MapExporter`, `PlyText`, `Ply`, `PlyBytes`, `PlyRoundTrip`, `PlyAscii`,
  `PlyStreams`): a queue that forgets as it answers, the map exporter's publishers and worker as interleaved steps, and the
  PLY writer and reader, binary and ASCII, with where each byte of a mesh stands in its file.

Single-precision floats are exact reals. The square root is a parameter with the hypothesis `IsSqrt`; `slerp`, the
trigonometric functions and the controller's solver are parameters as well. Code that updates state in place is a class
or a method over an array, tied to functions about which the theorems are proved.

## Where a promise does not hold as stated

Each of these comes with an input that breaks it or the condition under which it holds; "exactly when" means that both
directions are proved for all inputs.

- *Projection is the global minimum.* A segment shorter than 1e-6 is replaced by its start. The projection is a closest
  point of the polyline exactly when for the best point of every segment that short, some segment offers one no farther,
  short ones offering their start (`Projection.GlobalExactlyWhen`); the foot on one segment exactly when the segment is
  long enough or its start is closest (`Projection.FootIsClosestExactlyWhenSafe`). `RouteLimits.ShortSegmentMisses` is a
  polyline where it is not. In any case it is less than 1e-6 too far (`Projection.ProjectionNearlyGlobal`). A stored route
  is thinned to 0.2 m and always exact (`Routes.ThinnedProjectsExactly`).
- *Both interpolators agree.* They agree at every distance, whatever the binary searches return, exactly unless the
  polyline ends in a segment shorter than 1e-10 with only empty ones, and at least one, after it
  (`Interpolators.AgreeExactlyUnlessEndsInTiny`). On waypoints a, b, b with a and b that close, at the total length, one
  gives b and the other a (`Interpolators.RepeatedEndDisagrees`).
- *Interpolation follows the polyline.* A segment shorter than 1e-10 is sampled at its start. Each interpolator is exact at
  every distance exactly when every segment that short is empty (`Interpolators.ExactExactlyWhenNoTiny`,
  `Interpolators.DedupExactExactlyWhenNoTiny`); halfway through any other one it is not.
- *Length is conserved.* When the projection lies within 1e-10 of the last waypoint without being on it, that gap is
  dropped; otherwise nothing is lost (`Remainders.LengthConserved`). On a metre, half of 1e-10 before its end, it is
  (`RouteLimits.SnapLosesLength`).
- *The route is extended to 80 m ahead.* It is exactly when something of it is ahead of the vehicle and some number of the
  map's next waypoint lists makes it so, with no empty list and no route that folds back or leaves nothing ahead on the
  way (`RouteExtension.EnoughExactlyWhen`). A list without waypoints ends the extension although later ones would do
  (`RouteLimits.EmptyEntryStops`), and with nothing ahead of the vehicle nothing is added
  (`RouteLimits.NothingAddedPastEnd`). A route has all its 20 points exactly when 80 m are ahead
  (`Routes.FullExactlyWhenEnough`).
- *Route points are 80/19 m apart at most.* True on every route in which each segment shorter than 1e-10 is empty
  (`Routes.GenerateRoute`), so on every route as the generator first stores it, thinned to 0.2 m
  (`Routes.ThinnedHasNoTiny`). Extending it through map data may add other segments: a tiny one inside the route can
  stretch a gap, as it does on `RouteLimits.Stretched` (`RouteLimits.TinySegmentStretches`), always by less than 1e-10.
- *A generated route is spaced as the policy wants it.* It is never cut for a gap that is too long, and what fits is kept
  exactly when no gap is shorter than 3.5 m (`Routes.KeptExactlyWhenNotShort`). A route around a right angle is cut
  (`RouteLimits.BentRouteIsCut`).
- *Fewest lane changes.* The unique-successor shortcut can enter a lane that ends before the one that reaches farthest;
  each such entry costs no change more, or one. The selection has the fewest changes plus the sum of these costs
  (`LaneChoice.ChangesOverFewest`), and so the fewest exactly when all of them are zero
  (`LaneChoice.FewestExactlyWithoutDetours`). They are on every map where the only continuation of a lane that ends costs
  nothing (`LaneChoice.FewestWhereShortcutsAreFree`). `LaneChoice.ShortcutCanCost` is a map where one does.
- *Appending keeps both trajectories.* The first is kept, and the second exactly when the two poses at a shared timestamp
  are equal (`Curves.AppendJoins`); `append` accepts poses that are only close (`Trajectories.CloseJointMoves`). Positions
  move by less than 1e-5 then (`Trajectories.AppendShiftsLittle`).
- *Unwrapped angles change by at most half a turn.* True exactly when neighbouring inputs differ by at most three
  half-turns (`YawUnwrap.SmoothExactlyWhenClose`), which angles in (-pi, pi] always do.
- *A request that passes its checks succeeds.* It does exactly when the plan's times increase and the plan starts no
  earlier than the trajectory and no later than the times the controller runs at, if it runs at all
  (`ControlLoop.SucceedsExactlyWhen`). `ControlLoop.LatePlanFails` is one that does not. A request that fails after its
  checks has changed the last pose, and may have run part of its steps, but the loop's invariant holds
  (`ControlLoop.RespondKeeps`).
- *A coerced velocity is taken over.* The forward speed is. The sideways velocity asked for is turned into that of the centre
  of gravity with the yaw rate asked for, but the vehicle keeps its own yaw rate, so that the rig has the velocity asked for
  exactly when the two yaw rates are the same (`ControlMeaning.CoercedExactlyWhen`).
- *The vehicle does not reverse.* Its speed is never negative (`VehicleModels.SpeedBounds`), but a sub-step moves by the speed
  half a step on, before that is cut off at zero: driving straight, it goes backward exactly when that speed is negative
  (`VehicleMotion.BackwardExactlyWhen`), as a braking vehicle does that stands still (`VehicleMotion.BrakingRollsBack`).
- *A failed booking returns its slots.* True when there is a pool for the renderer slot, as in the scheduler. Given a
  renderer slot without there being a renderer pool, a failing `try_acquire_all` raises on its way back and returns nothing
  (`AddressPools.TryAcquireAll`). The pools are then as they were exactly when every pool before the first empty one is
  skipped (`AddressPools.DrainsNothingExactlyWhen`); `AddressPools.BookingCanLeak` loses a driver's slot.
- *The delay buffer answers from its whole history.* True of a query exactly when nothing was dropped or the head is
  ready at that time (`DelayBuffers.DelayBuffer.ItemAt`); always so when query times do not go back.
- *The exporter's second put finds room.* True of every run exactly when there is at most one publisher or the queue is
  unbounded (`MapExporter.LosesNothingExactlyWhen`). With two publishers a map can be lost while its key stays scheduled.
- *Every map has its own key.* Two different maps share a key exactly when one's scene, continued after the separator, is
  the other's, and its map starts with what the scene is continued by (`MapExporter.SameKeyExactlyWhen`). Two scenes have
  such maps exactly when one's name and the separator begin the other's (`MapExporter.ScenesCanCollideExactlyWhen`).
  `MapExporter.KeysCanCollide` has two, of which only one can be scheduled at a time.
- *PLY indices survive.* True exactly when all of them are 32-bit integers (`PlyRoundTrip.WrappedIsSame`).

Two places where the code and its documentation differ, and the model follows the code: the vehicle model's constructor
documents its velocity as that of the rig and stores it as that of the centre of gravity
(`src/controller/alpasim_controller/vehicle_model.py:52-80`); and `get_cumulative_distances_from_point` guards against an
empty polyline with a test that never holds, because the arc lengths of an empty polyline are `[0.0]`
(`src/utils_rs/src/polyline.rs:881-892`), so that the model reports an error there, where the code panics in the projection.

## Model

| member | source | states |
|---|---|---|
| Poses.QMulAssoc | src/utils_rs/src/pose.rs:58-65 | quaternion composition is associative |
| Poses.RotateMul | src/utils_rs/src/pose.rs:58-65 | rotating by a product is rotating twice |
| Poses.RotateIsometry | src/utils_rs/src/pose.rs:58-65 | rotation by a unit quaternion keeps lengths |
| Poses.RotateLinear | src/utils_rs/src/pose.rs:58-65 | rotation is linear |
| Poses.RotateIsMatrix | src/utils_rs/src/polyline.rs:942-970 | rotation by a unit quaternion is the matrix of its components, written out row by row |
| Poses.ActCompose | src/utils_rs/src/pose.rs:58-65 | a composed pose acts as its second and then its first factor |
| Poses.ComposeAssoc | src/utils_rs/src/pose.rs:58-65 | composition of poses is associative |
| Poses.InvIsInverse | src/utils_rs/src/pose.rs:69-75 | for a unit quaternion, `inv` is a two-sided inverse, and unit again |
| Poses.ComposeUnit | src/utils_rs/src/pose.rs:58-65 | composition keeps quaternions unit |
| Poses.ActIsometry | src/utils_rs/src/polyline.rs:942-970 | a rigid transform of the waypoints keeps distances |
| Poses.DeltasChain | src/utils_rs/src/trajectory.rs:816-820 | inverse(a) b composed with inverse(b) c is inverse(a) c |
| Curves.PartitionPoint | src/utils_rs/src/trajectory.rs:947-994 | the binary search's result: exactly the leading timestamps are at or before t |
| Curves.AtOnSegment | src/utils_rs/src/trajectory.rs:947-994 | whichever segment holds t, shared ends included, its mix at t is the interpolated value |
| Curves.AtKnot | src/utils_rs/src/trajectory.rs:947-994 | interpolating at a stored timestamp gives the stored value |
| Curves.InterpolateCovered | src/utils_rs/src/trajectory.rs:947-994 | interpolation succeeds exactly inside the closed time range; an empty trajectory and a time outside have errors of their own |
| Curves.OnCurve | src/utils_rs/src/trajectory.rs:833-874 | a trajectory whose knots lie on a curve and leave none of its knots out is that curve on its own range |
| Curves.Clip | src/utils_rs/src/trajectory.rs:833-874 | the loop computes `ClipOf`, errors included |
| Curves.ClipPreservesCurve | src/utils_rs/src/trajectory.rs:833-874 | clip fails exactly on a reversed range; otherwise timestamps increase, the times covered are exactly the intersection, and every covered time interpolates as before |
| Curves.ClipOfClip | src/utils_rs/src/trajectory.rs:833-874 | clipping twice is clipping to the common range, knot for knot, and empty without one |
| Curves.AppendJoins | src/utils_rs/src/trajectory.rs:880-923 | append succeeds exactly when the ranges do not overlap but for one shared time with close poses; the first part interpolates as before, and the second exactly when no time is shared or the shared poses are equal |
| Curves.AppendOutcome | src/utils_rs/src/trajectory.rs:880-923 | with one side empty the other is the result; otherwise each error has its cause: a shared time with poses that are not close, or overlapping ranges |
| Curves.JointPayload | src/utils_rs/src/trajectory.rs:880-923 | at a shared time the first part's pose wins |
| Curves.ClipsRejoin | src/utils_rs/src/trajectory.rs:833-923 | two clips meeting at m append, cover the whole range and interpolate like the clip of it |
| Curves.ClipsRejoinAt | src/utils_rs/src/trajectory.rs:833-923 | the same against the original trajectory, at every time in range |
| Trajectories.LerpGeodesic | src/utils_rs/src/trajectory.rs:947-994 | linear interpolation of positions meets its ends and subdivides, the two laws the curve theorems need |
| Trajectories.MixPoseGeodesic | src/utils_rs/src/trajectory.rs:947-994 | poses have those laws as soon as slerp has |
| Trajectories.PositionAt | src/utils_rs/src/trajectory.rs:947-994 | whatever slerp does, positions interpolate linearly |
| Trajectories.PositionIsPartWay | src/utils_rs/src/trajectory.rs:947-994 | between two knots the position has gone the fraction of the way that the time has gone of the interval, in distance from both ends |
| Trajectories.ClipPositions | src/utils_rs/src/trajectory.rs:833-874 | with no law about slerp, the positions of a clip are the clip of the positions |
| Trajectories.ClipKeepsPositions | src/utils_rs/src/trajectory.rs:833-874 | with no law about slerp, a clip interpolates to the same positions |
| Trajectories.RejoinAppends | src/utils_rs/src/trajectory.rs:880-923 | with no law about slerp, two clips meeting at m append, positions included |
| Trajectories.RejoinKeepsPositions | src/utils_rs/src/trajectory.rs:880-923 | with no law about slerp, the rejoined trajectory interpolates to the original positions |
| Trajectories.AppendShiftsLittle | src/utils_rs/src/trajectory.rs:880-923 | with no law about slerp, appending moves no position of the second trajectory by 1e-5 or more |
| Trajectories.CloseJointMoves | src/utils_rs/src/trajectory.rs:880-923 | two trajectories that append although their poses at the shared time differ, and the second one's position moves |
| Trajectories.CloseExactlyWhen | src/utils_rs/src/trajectory.rs:880-907 | what counts as the same pose at a joint: positions less than 1e-5 apart and each quaternion component within 1e-5 |
| Trajectories.TransformBack | src/utils_rs/src/trajectory.rs:474-502 | transforming by T and then by T's inverse restores the trajectory, relative or absolute |
| Trajectories.TransformActs | src/utils_rs/src/trajectory.rs:474-502 | a transform keeps length and timestamps; each new pose acts as the transform followed by the old pose when relative, and as the old pose followed by the transform when absolute |
| Trajectories.RelativeTurnStays | src/utils_rs/src/trajectory.rs:474-502 | a relative transform without a translation moves no position |
| Trajectories.TransformMovesCurve | src/utils_rs/src/trajectory.rs:474-502 | an absolute transform moves the interpolated positions, not just the stored ones |
| Trajectories.DeltasCompose | src/utils_rs/src/trajectory.rs:816-820 | delta(a,b) composed with delta(b,c) is delta(a,c) |
| Trajectories.DeltaLeads | src/utils_rs/src/trajectory.rs:816-820 | there is a delta exactly between covered times, and the start pose composed with it is the end pose |
| Trajectories.FromPoses | src/utils_rs/src/trajectory.rs:182-222 | succeeds exactly for equal lengths and increasing timestamps, with an error of its own for different lengths, and pairs timestamps and poses in order |
| Trajectories.InterpolateMany | src/utils_rs/src/trajectory.rs:708-790 | succeeds exactly when every target is covered, gives every interpolated pose, and is increasing exactly when the unchecked targets are |
| Trajectories.Trajectory.UpdateAbsolute | src/utils_rs/src/trajectory.rs:225-245 | appends exactly when the timestamp is later, otherwise changes nothing |
| Trajectories.Trajectory.UpdateRelative | src/utils_rs/src/trajectory.rs:248-258 | appends the last pose composed with the delta, or changes nothing |
| Trajectories.Trajectory.SetPose | src/utils_rs/src/trajectory.rs:278-290 | replaces one pose, counted from the end when negative, and keeps every timestamp |
| YawUnwrap.UnwrapInPlace | src/utils_rs/src/trajectory.rs:1055-1077 | the nested in-place loop computes the single-pass form: each angle plus a cumulative whole number of turns |
| YawUnwrap.SmoothExactlyWhenClose | src/utils_rs/src/trajectory.rs:1066-1077 | neighbours end within half a turn exactly when the inputs differ by at most three half-turns |
| YawUnwrap.SmoothForAngles | src/utils_rs/src/trajectory.rs:1055-1077 | so it is for all angles in (-pi, pi] |
| YawUnwrap.UnwrappingIsUnique | src/utils_rs/src/trajectory.rs:1055-1077 | where neighbours differ by at most three half-turns, any whole-turn shifts that start at none and leave neighbours less than half a turn apart are the ones computed |
| Projection.FootOnSegment | src/utils_rs/src/polyline.rs:87-134 | the foot is on the segment, its distance along and its distance to the point are what they claim to be |
| Projection.SafeFootIsClosest | src/utils_rs/src/polyline.rs:87-134 | on a safe segment no point is closer than the foot |
| Projection.FootIsClosestExactlyWhenSafe | src/utils_rs/src/polyline.rs:87-134 | the foot is a closest point if and only if the segment is not degenerate or its start is closest |
| Projection.FootNearlyClosest | src/utils_rs/src/polyline.rs:87-134 | on any segment the foot is less than 1e-6 too far |
| Projection.Nearest | src/utils_rs/src/polyline.rs:137-177 | the chosen segment has the smallest distance, and it is the first that has |
| Projection.ProjectPoint | src/utils_rs/src/polyline.rs:137-177 | the loop over mutable bests computes `ProjectOf` |
| Projection.ProjectionOnPolyline | src/utils_rs/src/polyline.rs:137-177 | the projection is on the reported segment at the reported fraction of it |
| Projection.ProjectionIsGlobal | src/utils_rs/src/polyline.rs:137-177 | no point of any segment is closer, and every point of an earlier segment is farther |
| Projection.ProjectionOnPoint | src/utils_rs/src/polyline.rs:137-177 | a polyline of one point projects everything onto it |
| Projection.SafeForEveryPoint | src/utils_rs/src/polyline.rs:87-177 | segments that are empty or at least 1e-6 long are safe for every point |
| Projection.ProjectionNearlyGlobal | src/utils_rs/src/polyline.rs:137-177 | on any polyline the projection is less than 1e-6 too far |
| Projection.ClosestOnIsClosest | src/utils_rs/src/polyline.rs:87-134 | the foot without the branch for short segments is a closest point of any segment |
| Projection.GlobalExactlyWhen | src/utils_rs/src/polyline.rs:137-177 | the projection is a global minimum if and only if, for the best point of every segment shorter than 1e-6, some segment offers a point no farther: its start when it is that short, its best point otherwise |
| RouteLimits.ShortSegmentMisses | src/utils_rs/src/polyline.rs:87-177 | a polyline and a point where the projection is not a closest point |
| Arcs.CumulativeLengths | src/utils_rs/src/polyline.rs:192-208 | the running sum gives the arc length of every waypoint |
| Arcs.ArcSkip | src/utils_rs/src/polyline.rs:276-356 | the reference point past a waypoint can be found from that waypoint on |
| Arcs.ArcPointOnSegment | src/utils_rs/src/polyline.rs:743-798 | x metres into a segment the point is x from its start and the rest of its length from its end |
| Arcs.ArcPointBeyond | src/utils_rs/src/polyline.rs:743-798 | before the start the reference is the first point and past the end the last |
| Arcs.ArcLipschitz | src/utils_rs/src/polyline.rs:743-798 | a chord is never longer than the arc |
| Arcs.BinarySearch | src/utils_rs/src/polyline.rs:743-770 | the search's promise, without saying which of several equal entries it finds |
| Arcs.SampleOnArc | src/utils_rs/src/polyline.rs:743-798 | sampling a bracketing segment gives the reference point, moved back by less than 1e-10 on a tiny segment |
| Interpolators.DistinctRuns | src/utils_rs/src/polyline.rs:276-320 | deduplication keeps the first of every run of equal arc lengths and loses no length |
| Interpolators.Deduplicate | src/utils_rs/src/polyline.rs:276-320 | the loop computes those indices and lengths |
| Interpolators.PositionAt | src/utils_rs/src/polyline.rs:276-356 | one answer of the deduplicating interpolator: the sample of what the search on the distinct lengths finds |
| Interpolators.PositionsAt | src/utils_rs/src/polyline.rs:276-356 | fails exactly on an empty polyline or a distance out of range; otherwise each answer is the sample of what a search on the distinct lengths finds |
| Interpolators.DirectAnswers | src/utils_rs/src/polyline.rs:743-798 | the non-deduplicating interpolator answers, whichever duplicate the search lands on |
| Interpolators.DedupAnswers | src/utils_rs/src/polyline.rs:276-356 | the deduplicating interpolator answers |
| Interpolators.InterpolatorsAgree | src/utils_rs/src/polyline.rs:276-356 | without tiny segments both give the reference point for every in-range distance |
| Interpolators.AgreeExactlyUnlessEndsInTiny | src/utils_rs/src/polyline.rs:276-356 | the two agree at every distance, for all results of the searches, if and only if the polyline does not end in a tiny segment followed by empty ones |
| Interpolators.RepeatedEndDisagrees | src/utils_rs/src/polyline.rs:276-356 | on a, b, b with a and b closer than 1e-10 one gives b and the other a |
| Interpolators.AnswerIsNear | src/utils_rs/src/polyline.rs:743-798 | an answer of either is the polyline's point at the distance, or at one less than 1e-10 before it |
| Interpolators.AnswerIsExact | src/utils_rs/src/polyline.rs:743-798 | when only the first segment can be tiny, answers past it are the polyline's points |
| Interpolators.ExactExactlyWhenNoTiny | src/utils_rs/src/polyline.rs:743-798 | the direct interpolator is exact at all distances if and only if no segment is tiny but not empty |
| Interpolators.DedupExactExactlyWhenNoTiny | src/utils_rs/src/polyline.rs:276-356 | so is the deduplicating one, under the same condition |
| Remainders.BuildRemaining | src/utils_rs/src/polyline.rs:211-273 | computes the rest of the route and the projection, or neither |
| Remainders.PastEndExactlyWhen | src/utils_rs/src/polyline.rs:244-256 | a point k metres past the end along the last segment, and any distance aside, counts as past the end exactly when k is more than 1e-6 |
| Remainders.NothingLeftExactlyWhen | src/utils_rs/src/polyline.rs:211-273 | nothing is left of an empty polyline and for a point past the end whose projection is on the last segment, and of nothing else |
| Remainders.CutArc | src/utils_rs/src/polyline.rs:211-273 | cutting a polyline inside a segment leaves its curve from there on |
| Remainders.LengthConserved | src/utils_rs/src/polyline.rs:211-273 | distance to the projection plus the rest is the total; less than 1e-10 is lost exactly when the projection snaps to the last waypoint |
| RouteLimits.SnapLosesLength | src/utils_rs/src/polyline.rs:211-273 | a polyline and a point where a length is lost |
| Remainders.RemainderIsRestOfCurve | src/utils_rs/src/polyline.rs:211-273 | the rest, x metres in, is the route x metres past the projection |
| Remainders.CumulativeDistancesFromPoint | src/utils_rs/src/polyline.rs:881-920 | gives the arc lengths of the rest and the distance to the projection, which add up |
| Remainders.DistanceIsAtProjection | src/utils_rs/src/polyline.rs:881-920 | the distance reported is the arc length at which the projection lies, past the end as well |
| Remainders.SampleDistancesGrid | src/utils_rs/src/polyline.rs:743-750 | the sampled distances are exactly the first multiples of the spacing that fit |
| Remainders.ResampleFromPoint | src/utils_rs/src/polyline.rs:710-804 | point k is the sample of what a search for k spacings finds in the rest's arc lengths, for as many as fit, at most n, whatever the sign of the spacing |
| Routes.ThinnedApart | src/utils_rs/src/polyline.rs:851-872 | what thinning keeps is at least the minimum apart, starts where it did and invents no point |
| Routes.ThinnedKeepsApart | src/utils_rs/src/polyline.rs:851-872 | a polyline already apart is kept as it is |
| Routes.ThinnedIsGreedy | src/utils_rs/src/polyline.rs:851-872 | thinning keeps the first point and then each next one that is the minimum or more from the last one kept; all it drops is nearer than that |
| Routes.Polyline.Downsample | src/utils_rs/src/polyline.rs:851-872 | overwrites the points with the thinned ones |
| Routes.StoreRoute | src/runtime/alpasim_runtime/route_generator.py:69-91 | rejects fewer than two waypoints, a negative offset, and a route that folds back once thinned to 0.2 m, in this order, and stores the thinned route |
| Routes.SanityCheck | src/runtime/alpasim_runtime/route_generator.py:236-258 | finds a fold exactly when there is a turn by more than 150 degrees between two segments of 1 mm or more |
| Routes.FoldsExactlyWhen | src/runtime/alpasim_runtime/route_generator.py:236-258 | a corner counts as a fold exactly when both segments are 1 mm or longer and their dot product is less than minus half the square root of three times their lengths |
| Routes.ThinnedHasDirections | src/runtime/alpasim_runtime/route_generator.py:85-94 | on a stored route no corner is passed over as too short |
| Routes.ThinnedProjectsExactly | src/runtime/alpasim_runtime/route_generator.py:85-91 | projection on a stored route is a global minimum with no further condition |
| Routes.InRigShortens | src/runtime/alpasim_runtime/route_generator.py:128-133 | the move to the rig frame and its plane lengthens no gap |
| Routes.InRigIsSeen | src/runtime/alpasim_runtime/route_generator.py:128-133 | the point that the pose maps to u, flattened, is where u is seen from the rig; there always is such a point |
| Routes.SeenOnce | src/runtime/alpasim_runtime/route_generator.py:128-133 | and it is the only one |
| Routes.SeesAhead | src/runtime/alpasim_runtime/route_generator.py:128-133 | the vehicle sees itself at the origin, and what is d ahead along its heading at (d, 0, 0) |
| Routes.TrimDropsExactly | src/runtime/alpasim_runtime/route_generator.py:137-151 | trimming drops exactly the points less than the offset along the route |
| Routes.ThinnedHasNoTiny | src/runtime/alpasim_runtime/route_generator.py:85-91 | a stored route has no tiny segment |
| Routes.RoutePointIsExact | src/runtime/alpasim_runtime/route_generator.py:121-135 | on a route without tiny segments each resampled point is exactly the rest's point that many spacings in, though the cut at the vehicle may be tiny |
| Routes.RoutePointsSpaced | src/runtime/alpasim_runtime/route_generator.py:121-135 | two consecutive points of a route are at most 80/19 m apart on a route without tiny segments, as a thinned one is, and less than 1e-10 more on any other |
| Routes.GenerateRoute | src/runtime/alpasim_runtime/route_generator.py:120-135 | the whole chain: how many points, where on the stored route each lies and that it is where the vehicle sees that point, which are trimmed, and that they are exact and at most 80/19 m apart on every route without tiny segments |
| Routes.FullExactlyWhenEnough | src/runtime/alpasim_runtime/route_generator.py:120-126 | all 20 points are there if and only if 80 m of the route are ahead |
| RouteExtension.ExtendedByEntries | src/runtime/alpasim_runtime/route_generator.py:153-193 | the route has grown by the fewest of the map's next waypoint lists, whole, in order and none skipped, and each way of ending has its cause: 80 m ahead, a list that is empty or missing, a fold, or nothing ahead |
| RouteExtension.EnoughExactlyWhen | src/runtime/alpasim_runtime/route_generator.py:153-193 | 80 m are ahead afterwards, with no error, if and only if something is ahead before and some number of the lists gives it, none of them empty and no route on the way folded back or with nothing ahead |
| RouteExtension.RouteGenerator.ExtendWaypoints | src/runtime/alpasim_runtime/route_generator.py:380-432 | appends the next list, and reports whether it had waypoints |
| RouteExtension.RouteGenerator.EnsureSufficient | src/runtime/alpasim_runtime/route_generator.py:153-193 | the loop leaves the route and the map's lists as the model says, errors included |
| RouteExtension.RouteGenerator.Generate | src/runtime/alpasim_runtime/route_generator.py:109-135 | the route is extended and then sampled, moved to the rig and trimmed; it has all 20 points if and only if 80 m are ahead, and is exact and spaced as `Routes.GenerateRoute` says |
| RouteLimits.EmptyEntryStops | src/runtime/alpasim_runtime/route_generator.py:176-180 | a route left short of 80 m by an empty list, though the next one reaches them |
| RouteLimits.NothingAddedPastEnd | src/runtime/alpasim_runtime/route_generator.py:160-168 | a vehicle past the end of its route, to which nothing is added though the map has 98 m more |
| Routes.PolicyRows | src/runtime/alpasim_runtime/route_generator.py:199-234 | always 20 rows: the longest leading run with gaps in [3.5, 4.5], then padding |
| Routes.NeverCutForLength | src/runtime/alpasim_runtime/route_generator.py:199-234 | a generated route is never cut for a gap above 4.5 m |
| Routes.KeptExactlyWhenNotShort | src/runtime/alpasim_runtime/route_generator.py:199-234 | of a generated route all that fits is kept if and only if no gap is below 3.5 m |
| RouteLimits.TinySegmentStretches | src/runtime/alpasim_runtime/route_generator.py:121-135 | a route with a tiny segment inside whose points are more than 80/19 m apart |
| RouteLimits.BentRouteIsCut | src/runtime/alpasim_runtime/route_generator.py:199-234 | a stored route with a right angle whose generated route is cut |
| LaneChoice.FindConsistent | src/runtime/alpasim_runtime/route_generator.py:467-481 | returns a candidate with the longest unbroken presence, and says which one on ties |
| LaneChoice.DetermineLanes | src/runtime/alpasim_runtime/route_generator.py:434-464 | keeps the lane while offered, then the only continuation, then the longest-lasting candidate that the order of the list picks |
| LaneChoice.SelectionIsUnique | src/runtime/alpasim_runtime/route_generator.py:434-481 | the candidates and the map's continuations determine the selection: what is promised of it admits one sequence |
| LaneChoice.OnlyOneGoesOn | src/runtime/alpasim_runtime/route_generator.py:445-456 | a lane no longer offered is followed by the one offered lane that continues it, if there is just one |
| LaneChoice.OtherwiseLongest | src/runtime/alpasim_runtime/route_generator.py:457-464 | if none continues it, or two do, it is followed by a lane offered at least as long from there as any other |
| LaneChoice.ChosenAreOffered | src/runtime/alpasim_runtime/route_generator.py:434-464 | every chosen lane is offered at its waypoint, and a lane is left only when no longer offered |
| LaneChoice.NearlyFewestChanges | src/runtime/alpasim_runtime/route_generator.py:434-464 | no admissible sequence has fewer changes by more than the short-sighted shortcuts taken |
| LaneChoice.FewestChanges | src/runtime/alpasim_runtime/route_generator.py:434-464 | without a short-sighted shortcut no admissible sequence has fewer changes |
| LaneChoice.NeedIsLeast | src/runtime/alpasim_runtime/route_generator.py:434-464 | no admissible sequence uses fewer lanes than going on to the farthest-reaching one each time |
| LaneChoice.NeedIsReached | src/runtime/alpasim_runtime/route_generator.py:434-464 | some admissible sequence uses just so many |
| LaneChoice.EntryCost | src/runtime/alpasim_runtime/route_generator.py:467-481 | entering any offered lane takes as many lanes from there as the farthest-reaching one does, or one more |
| LaneChoice.DetourOnlyAtShortcut | src/runtime/alpasim_runtime/route_generator.py:447-456 | an entry of the selection costs one lane more only where the shortcut made it |
| LaneChoice.ChangesOverFewest | src/runtime/alpasim_runtime/route_generator.py:434-464 | the selection has the fewest changes of any admissible sequence plus its entries' costs |
| LaneChoice.FewestExactlyWithoutDetours | src/runtime/alpasim_runtime/route_generator.py:434-464 | no admissible sequence has fewer changes if and only if no entry costs one |
| LaneChoice.FewestWhereShortcutsAreFree | src/runtime/alpasim_runtime/route_generator.py:434-464 | the selection has the fewest changes wherever the only continuation of a lane that ends costs no lane more, a condition on candidates and map alone |
| LaneChoice.NoShortcutNoShortSight | src/runtime/alpasim_runtime/route_generator.py:445-464 | where the shortcut never fires there is no short-sighted choice |
| LaneChoice.ShortcutCanCost | src/runtime/alpasim_runtime/route_generator.py:447-456 | a map where the shortcut costs exactly one change |
| VehicleModels.SubStepsCover | src/controller/alpasim_controller/vehicle_model.py:143-149 | the sub-steps add up to exactly dt, all of the maximal size but the last |
| VehicleModels.VehicleModel.constructor | src/controller/alpasim_controller/vehicle_model.py:52-88 | the initial state and its steering estimate |
| VehicleModels.VehicleModel.ResetOrigin | src/controller/alpasim_controller/vehicle_model.py:116-118 | zeroes the pose and nothing else |
| VehicleModels.VehicleModel.SetVelocity | src/controller/alpasim_controller/vehicle_model.py:120-128 | sets the two velocities and nothing else |
| VehicleModels.VehicleModel.Advance | src/controller/alpasim_controller/vehicle_model.py:130-172 | the loop ends, having run exactly those sub-steps, and returns the pose reached |
| VehicleMotion.SubStepIsMidpoint | src/controller/alpasim_controller/vehicle_model.py:147-156 | a sub-step adds to every component the step times its rate half a step on, and cuts the speed off at zero |
| VehicleMotion.VelocityInBody | src/controller/alpasim_controller/vehicle_model.py:184-248 | the planar velocity turned back by the yaw is the speed forward, and sideways nothing below the kinematic speed and vy - 1.59 yawRate from it on; the yaw turns at the yaw rate |
| VehicleMotion.SlipsDieOut | src/controller/alpasim_controller/vehicle_model.py:193-207 | below the kinematic speed the slip of the rear axle and that of the steered front axle die out at rate 10 |
| VehicleMotion.ForcesBalance | src/controller/alpasim_controller/vehicle_model.py:208-240 | from the kinematic speed on mass times lateral acceleration and inertia times yaw acceleration are the forces and moments of the tyres, each stiffness times slip angle |
| VehicleMotion.PoseFaces | src/controller/alpasim_controller/vehicle_model.py:166-172 | the pose returned maps the origin to (x, y, 0), forward to the direction of the yaw, and left to the direction a quarter turn on |
| VehicleMotion.RunSeenFrom | src/controller/alpasim_controller/vehicle_model.py:130-172 | a run started from any pose is the run started from the origin, moved and turned by that pose |
| VehicleMotion.StoppingChangesNothing | src/controller/alpasim_controller/vehicle_model.py:116-172 | stopping midway, putting the origin there and composing the two poses is running through |
| VehicleMotion.StraightRun | src/controller/alpasim_controller/vehicle_model.py:130-172 | driving straight stays straight, and goes ahead by the time times a speed between those the accelerations allow |
| VehicleMotion.BackwardExactlyWhen | src/controller/alpasim_controller/vehicle_model.py:152-156 | a straight sub-step goes backward if and only if the speed half a step on is negative |
| VehicleMotion.BrakingRollsBack | src/controller/alpasim_controller/vehicle_model.py:152-156 | a standing vehicle whose brakes are on moves backward by half the squared step |
| VehicleModels.ActuatorsDecay | src/controller/alpasim_controller/vehicle_model.py:143-162 | steering and acceleration errors shrink by the same closed-form factor, whatever the rest of the state does |
| VehicleModels.ActuatorsNeverOvershoot | src/controller/alpasim_controller/vehicle_model.py:245-257 | steering and acceleration stay between where they were and their commands |
| VehicleModels.SpeedBounds | src/controller/alpasim_controller/vehicle_model.py:143-162 | over any sub-steps speed is non-negative and within the bounds the accelerations allow |
| VehicleModels.AdvanceBounds | src/controller/alpasim_controller/vehicle_model.py:130-172 | the same for a whole call: speed at most initial + dt * max(0, initial, commanded acceleration), and steering and acceleration move toward their commands without reaching them |
| ControlLoop.StepKeeps | src/controller/alpasim_controller/system.py:267-318 | a step that crosses no controller boundary and solves exactly on one keeps the loop's invariant |
| ControlMeaning.StepMoves | src/controller/alpasim_controller/system.py:267-318 | a step appends one knot, the last pose moved by the run from the origin under the control in force, and that is the one just solved for the state at the origin, or the one before |
| ControlMeaning.StepTakesItsTime | src/controller/alpasim_controller/system.py:306-310 | the sub-steps of a step, at most 10 ms each, add up to its microseconds |
| ControlMeaning.TwoStepsAreOneRun | src/controller/alpasim_controller/system.py:267-318 | two steps under one control, each with its own origin, end in the pose of one run over both: reporting in between changes the motion by no more than the sub-steps |
| ControlMeaning.ReferenceIsPlan | src/controller/alpasim_controller/system.py:327-354 | seen from the world, the reference given to the solver is the plan moved by the pose the vehicle had at the plan's first time |
| ControlLoop.TargetsEnds | src/controller/alpasim_controller/system.py:171-190 | the step list is increasing, ahead of the clock, and ends at the target time |
| ControlLoop.StepListExactlyWhen | src/controller/alpasim_controller/system.py:159-190 | a time after the clock and no later than the target time is in the step list if and only if it is that, a controller boundary before it, or a whole number of reporting intervals after the clock; no other time is |
| ControlLoop.TargetsPlan | src/controller/alpasim_controller/system.py:171-190 | that list is a plan that crosses no controller boundary and solves on all of them |
| Ranges.RangeMembers | src/controller/alpasim_controller/system.py:160-178 | a range holds exactly what is a whole number of steps from its start and before its end |
| ControlLoop.DriveKeeps | src/controller/alpasim_controller/system.py:192-214 | following a plan keeps the invariant, whether it ends at the target time or a step fails before |
| ControlLoop.RespondKeeps | src/controller/alpasim_controller/system.py:96-214 | a request rejected by its checks changes nothing; an accepted one moves the clock to its target; and the invariant is kept in any case, also by a request that fails midway |
| ControlMeaning.RejectedExactlyWhen | src/controller/alpasim_controller/system.py:115-151 | which request gets which error, the first cause counting |
| ControlMeaning.PreparedIs | src/controller/alpasim_controller/system.py:145-157 | an accepted request overrides the last pose and, if told to, two velocities, and nothing else |
| ControlMeaning.CoercedExactlyWhen | src/controller/alpasim_controller/system.py:80-94 | with the velocity coerced the rig has the forward speed asked for, and the sideways one if and only if its yaw rate is the one asked for |
| ControlLoop.SucceedsExactlyWhen | src/controller/alpasim_controller/system.py:96-354 | a request succeeds if and only if it passes the checks, its plan's times increase, and the plan starts no earlier than the trajectory and no later than each time the controller runs at, if any |
| ControlLoop.LatePlanFails | src/controller/alpasim_controller/system.py:327-354 | a request that passes the checks and fails, having overridden the pose |
| ControlLoop.ReportedTimes | src/controller/alpasim_controller/system.py:192-214 | a successful request reports at strictly increasing times, and at x if and only if x is the target time, or before it a positive whole number of reporting intervals after the clock |
| ControlMeaning.ReportedPosesAreRecorded | src/controller/alpasim_controller/system.py:202-214 | every pose reported is the trajectory's pose at that time |
| ControlMeaning.DynamicsAreOfRig | src/controller/alpasim_controller/system.py:220-265 | a report's velocity and acceleration are those of the centre of gravity plus the rotation's cross products with the arm of 1.59 m to the rig |
| ControlLoop.RunsOnGrid | src/controller/alpasim_controller/system.py:171-214 | over any requests, rejected and failed ones among them, the controller solves at exactly t0 plus the multiples of its period below the clock, every propagation uses the control solved at the start of its own period, and the trajectory ends at the clock |
| ControlLoop.CutsDoNotMatter | src/controller/alpasim_controller/system.py:171-214 | two ways of cutting the same time into requests solve at the same times |
| ControlLoop.System.constructor | src/controller/alpasim_controller/system.py:42-81 | the initial state satisfies the invariant |
| ControlLoop.System.Step | src/controller/alpasim_controller/system.py:267-318 | the in-place step is the step of the model, and fails where solving finds no reference |
| ControlLoop.System.Observe | src/controller/alpasim_controller/system.py:220-265 | a report holds the clock, the last pose and the dynamic state moved from the centre of gravity to the rig |
| ControlLoop.System.RunRequest | src/controller/alpasim_controller/system.py:96-218 | the request handler does to the whole state what the model says, whether it succeeds, is rejected or fails midway, reports included |
| ControlLoop.System.RequestTimes | src/controller/alpasim_controller/system.py:160-190 | computes the boundaries, the reporting times and the step list |
| ControlLoop.System.Follow | src/controller/alpasim_controller/system.py:192-214 | the loop over the step list is the model's drive, with its reports, up to a step that fails |
| AddressPools.AcquiredAtTakesOne | src/runtime/alpasim_runtime/address_pool.py:80-88 | a slot at an address is found exactly when one is free; the first such slot leaves the pool, and the others keep their order |
| AddressPools.ConfiguredIs | src/runtime/alpasim_runtime/address_pool.py:44-60 | a pool has n slots for each address, in order, and none for an n below one |
| AddressPools.PoolIsQueue | src/runtime/alpasim_runtime/address_pool.py:62-74 | a limiting pool is a first-in first-out queue of slots, and a skipped one gives a synthetic slot and never changes |
| AddressPools.ServicesAre | src/runtime/alpasim_runtime/config.py:13-21 | the five services |
| AddressPools.BookingOutcome | src/runtime/alpasim_runtime/address_pool.py:102-130 | booking succeeds exactly when every pool not yet booked has a slot, and takes the first of each and nothing else |
| AddressPools.FailureReturnsEverything | src/runtime/alpasim_runtime/address_pool.py:125-129 | a failed booking returns every slot it took and the pre-acquired one |
| AddressPools.BookingTakes | src/runtime/alpasim_runtime/address_pool.py:102-130 | what a booking holds is what left the pools |
| AddressPools.DispatchKeeps | src/runtime/alpasim_runtime/daemon/scheduler.py:506-551 | dispatching, with any reservation of the renderer slot, successful or not, conserves every pool |
| AddressPools.FinishKeeps | src/runtime/alpasim_runtime/address_pool.py:133-139 | a finished job gives every pool its slot back |
| AddressPools.RunConserves | src/runtime/alpasim_runtime/address_pool.py:62-139 | over every run, free slots plus held slots are the configured multiset of each non-skip pool |
| AddressPools.ComputeMaxInFlight | src/runtime/alpasim_runtime/runtime_context.py:60-85 | the cap is the smallest capacity of a limiting pool; with none, 16 for each worker, and 1 without workers; a limiting service without capacity is an error |
| AddressPools.SmallestCap | src/runtime/alpasim_runtime/runtime_context.py:72-83 | the smallest capacity of the limiting pools, if there is one |
| AddressPools.FirstEmpty | src/runtime/alpasim_runtime/runtime_context.py:75-78 | a service with no capacity is found exactly when there is one |
| AddressPools.DispatchOutcome | src/runtime/alpasim_runtime/daemon/scheduler.py:506-551 | a job is dispatched exactly when its renderer slot can be reserved and every other pool has a slot |
| AddressPools.DispatchTakes | src/runtime/alpasim_runtime/daemon/scheduler.py:506-551 | a job dispatched holds the front slot of every service's queue, or for the renderer the reserved one, and joins the jobs at the end |
| AddressPools.FinishReturns | src/runtime/alpasim_runtime/daemon/scheduler.py:553-561 | a job that finishes leaves the jobs, and each of its slots goes to the end of its queue |
| AddressPools.NeverFailsBelowCap | src/runtime/alpasim_runtime/runtime_context.py:60-85 | with fewer jobs than the cap, booking never fails |
| AddressPools.CapIsTight | src/runtime/alpasim_runtime/runtime_context.py:60-85 | with a limiting pool the cap is never exceeded, and at the cap nothing is dispatched |
| AddressPools.RunNeverFailsBelowCap | src/runtime/alpasim_runtime/runtime_context.py:60-85 | from the configured pools over every run: below the cap booking never fails, and with a limiting pool the cap is never exceeded and at the cap nothing is dispatched |
| AddressPools.ConsumersCover | src/runtime/alpasim_runtime/runtime_context.py:88-115 | consumers of all workers together cover the jobs in flight, and one fewer each would not |
| AddressPools.AddressPool.constructor | src/runtime/alpasim_runtime/address_pool.py:44-60 | the nested loops fill the pool with each address as often as configured |
| AddressPools.AddressPool.TryAcquire | src/runtime/alpasim_runtime/address_pool.py:62-68 | takes the first slot, or none |
| AddressPools.AddressPool.Release | src/runtime/alpasim_runtime/address_pool.py:70-74 | appends the slot unless the pool is skipped |
| AddressPools.AddressPool.TryAcquireForAddress | src/runtime/alpasim_runtime/address_pool.py:80-88 | the loop deletes the first slot at the address, or finds none |
| AddressPools.AddressPool.FreeAddresses | src/runtime/alpasim_runtime/address_pool.py:76-78 | the addresses with a free slot |
| AddressPools.TryAcquireAll | src/runtime/alpasim_runtime/address_pool.py:102-130 | the loop over pool objects, rollback included, does what `BookedAll` says of their states; without a pool for the given renderer slot a rollback raises and nothing is returned |
| AddressPools.DrainsNothingExactlyWhen | src/runtime/alpasim_runtime/address_pool.py:119-129 | without a rollback a failed booking leaves the pools as they were if and only if every pool before the first empty one is skipped or was booked already |
| AddressPools.BookingCanLeak | src/runtime/alpasim_runtime/address_pool.py:119-129 | pools of which a failed booking loses a slot |
| AddressPools.ReleaseAll | src/runtime/alpasim_runtime/address_pool.py:133-139 | releasing in booking order does what `ReleasedAll` says, which has no order |
| DelayBuffers.LatestReadyMeans | src/runtime/alpasim_runtime/delay_buffer.py:35-49 | the reference answer is the latest item due, or the first when none is |
| DelayBuffers.AnswerIsLatestReady | src/runtime/alpasim_runtime/delay_buffer.py:35-49 | with items gone, the queue's answer is the reference answer if and only if nothing was dropped or the head is due |
| DelayBuffers.PoppingChangesNothing | src/runtime/alpasim_runtime/delay_buffer.py:24-49 | for any interleaving of adds and queries with non-decreasing query times every reply is that of a buffer that never forgets |
| DelayBuffers.ReferenceReplyIs | src/runtime/alpasim_runtime/delay_buffer.py:24-49 | each reply of the buffer that never forgets, in terms of the items added by then: accepted when later than all, and answered with the latest one due, or the first |
| DelayBuffers.GoingBackCanDiffer | src/runtime/alpasim_runtime/delay_buffer.py:35-49 | a history and two query times, going back, where the answers differ |
| DelayBuffers.DelayBuffer.constructor | src/runtime/alpasim_runtime/delay_buffer.py:15-22 | an empty buffer |
| DelayBuffers.DelayBuffer.Add | src/runtime/alpasim_runtime/delay_buffer.py:24-33 | accepts exactly an item later than every one before it, otherwise changes nothing |
| DelayBuffers.DelayBuffer.DropStale | src/runtime/alpasim_runtime/delay_buffer.py:43-46 | the popping loop leaves what the model keeps |
| DelayBuffers.DelayBuffer.ItemAt | src/runtime/alpasim_runtime/delay_buffer.py:35-49 | the answer, and exactly when it is that of the full history |
| DelayBuffers.DelayBuffer.At | src/runtime/alpasim_runtime/delay_buffer.py:51-59 | the same without the timestamp |
| MapExporter.StepAccounts | src/runtime/alpasim_runtime/map_tcp.py:475-538 | every atomic step keeps it that a key is scheduled exactly when it is in one place |
| MapExporter.RunAccounts | src/runtime/alpasim_runtime/map_tcp.py:475-657 | so does every interleaving of any number of publishers with the worker |
| MapExporter.NoKeySentTwice | src/runtime/alpasim_runtime/map_tcp.py:475-657 | no key is sent twice in any run |
| MapExporter.SentInPutOrder | src/runtime/alpasim_runtime/map_tcp.py:475-657 | in any run maps are sent in the order they were put, with superseded ones left out |
| MapExporter.PassSends | src/runtime/alpasim_runtime/map_tcp.py:616-657 | a pass whose send succeeds sends the first map on its way, and no other |
| MapExporter.WorkerDelivers | src/runtime/alpasim_runtime/map_tcp.py:616-657 | with sends that succeed, as many passes as maps on their way send all of them, in order |
| MapExporter.FailedSendWaits | src/runtime/alpasim_runtime/map_tcp.py:616-657 | a map whose send fails stays pending, to be tried again |
| MapExporter.SameKeyExactlyWhen | src/runtime/alpasim_runtime/map_tcp.py:540-545 | two maps share a key if and only if they are the same or shifted past a separator in a scene name |
| MapExporter.ScenesCanCollideExactlyWhen | src/runtime/alpasim_runtime/map_tcp.py:540-545 | some maps of two different scenes share a key if and only if one name and the separator begin the other name |
| MapExporter.KeysTellMapsApart | src/runtime/alpasim_runtime/map_tcp.py:540-545 | two maps of one scene, or of scenes without the separator, have one key only if they are the same |
| MapExporter.KeysCanCollide | src/runtime/alpasim_runtime/map_tcp.py:540-545 | two maps with one key |
| MapExporter.NothingVanishes | src/runtime/alpasim_runtime/map_tcp.py:500-657 | a map leaves the queue only to be pending or evicted, and leaves pending only by being sent |
| MapExporter.SupersededIsFreed | src/runtime/alpasim_runtime/map_tcp.py:502-520 | a superseded map's key is freed and left nowhere |
| MapExporter.FailedIsFreed | src/runtime/alpasim_runtime/map_tcp.py:483-498 | so is the key of a map that could not be serialized |
| MapExporter.RunQueuesNewest | src/runtime/alpasim_runtime/map_tcp.py:500-524 | the queue is within its bound and holds the newest maps put, in order |
| MapExporter.OnePublisherRun | src/runtime/alpasim_runtime/map_tcp.py:475-657 | with one publisher every run keeps room for the retry and never loses the newest map |
| MapExporter.SecondPutHasRoom | src/runtime/alpasim_runtime/map_tcp.py:500-524 | with one publisher the second put never finds the queue full, and once the worker has caught up the last map sent is the last one put |
| MapExporter.LosesNothingExactlyWhen | src/runtime/alpasim_runtime/map_tcp.py:500-524 | no run loses a map if and only if there is at most one publisher or the queue is unbounded |
| MapExporter.MapTcpExporter.HasMapForScene | src/runtime/alpasim_runtime/map_tcp.py:436-448 | true exactly when a map with that key is queued, pending or sent, and then it is there just once |
| MapExporter.MapTcpExporter.PublishVectorMap | src/runtime/alpasim_runtime/map_tcp.py:450-538 | without a map nothing changes, nor for a repeated key; otherwise, run without interference, the map joins the end of the queue, whose front gives way when it is full |
| MapExporter.MapTcpExporter.WorkerPass | src/runtime/alpasim_runtime/map_tcp.py:616-657 | one pass of the worker takes the first map if none is pending, and sends the pending one if the send succeeds; it changes nothing else |
| PlyText.SplitJoin | src/physics/alpasim_physics/ply_io.py:55-56 | splitting a written line gives its tokens back |
| PlyText.SplitIs | src/physics/alpasim_physics/ply_io.py:55-56 | the tokens of any line are its longest runs of characters other than white space, however much of that is between them |
| PlyText.StripIs | src/physics/alpasim_physics/ply_io.py:42-55 | stripping takes off the white space at both ends and nothing else |
| PlyText.BlanksAre | src/physics/alpasim_physics/ply_io.py:42-55 | which bytes and which characters are white space |
| PlyText.ParseDecimal | src/physics/alpasim_physics/ply_io.py:75-79 | reading a written count gives it back |
| PlyText.IntExactlyWhen | src/physics/alpasim_physics/ply_io.py:75-79 | a token reads as an integer if and only if, its sign aside, it is digits with single underscores between them |
| PlyText.DigitAdded | src/physics/alpasim_physics/ply_io.py:75-79 | one digit more, with an underscore before it or without, makes ten times the number and the digit |
| PlyText.SignsRead | src/physics/alpasim_physics/ply_io.py:75-79 | one sign in front is taken off and applied |
| PlyText.FromToBytes | src/physics/alpasim_physics/ply_io.py:333-342 | bytes, least significant first, read back |
| Ply.LastNamed | src/physics/alpasim_physics/ply_io.py:95-112 | the last element of a name, found exactly when there is one |
| Ply.IgnoredLines | src/physics/alpasim_physics/ply_io.py:50-57 | empty lines, comments and lines with an unknown first word change nothing |
| Ply.DeclaringLines | src/physics/alpasim_physics/ply_io.py:59-86 | what each declaring line does, and why it fails |
| PlyRoundTrip.HeaderReads | src/physics/alpasim_physics/ply_io.py:40-92 | a written header is read back: format, elements with their counts and properties, and where the body starts |
| PlyBytes.HeaderIs | src/physics/alpasim_physics/ply_io.py:316-327 | the header of a saved mesh, line by line |
| PlyBytes.SavedBytes | src/physics/alpasim_physics/ply_io.py:329-344 | a saved file byte by byte: the words of the coordinates as they were given, and for each face a three and its indices modulo 2 to the 32, least significant byte first |
| PlyBytes.KindsAre | src/physics/alpasim_physics/ply_io.py:15-33 | the size of each kind of number, and which are integers and have a sign |
| PlyBytes.FieldReads | src/physics/alpasim_physics/ply_io.py:142-196 | an integer field reads as the sum of its bytes times powers of 256, counted from its start in a little-endian and from its end in a big-endian file, less 256 to its size when it is signed and that large |
| PlyBytes.OrderedAt | src/physics/alpasim_physics/ply_io.py:142-163 | a coordinate has the bytes of its field, the last one first when the file is big-endian |
| PlyBytes.FieldIs | src/physics/alpasim_physics/ply_io.py:142-163 | a named field has the kind of its property and the bytes after all earlier properties |
| PlyBytes.VerticesOfAnyLayout | src/physics/alpasim_physics/ply_io.py:142-163 | vertices of any scalar layout are read if and only if what is there is a whole number of records, each from its own record, wherever x, y and z stand in it |
| PlyBytes.VerticesExactlyWhen | src/physics/alpasim_physics/ply_io.py:142-163 | vertices are read if and only if their properties are scalars of known kinds and different names, x, y and z among them, and what is there is a whole number of records |
| PlyBytes.FacesOfAnyKind | src/physics/alpasim_physics/ply_io.py:166-196 | faces of any integer kinds are read, each from its own record, and which of two errors there is otherwise |
| PlyBytes.FaceIs | src/physics/alpasim_physics/ply_io.py:166-196 | a face is read if and only if its count is three; its indices are those after the count, each changed by a multiple of 2 to the 32 |
| PlyRoundTrip.VerticesRead | src/physics/alpasim_physics/ply_io.py:142-163 | the vertex block, in either byte order, gives back every word and stops where it ends |
| PlyRoundTrip.FacesRead | src/physics/alpasim_physics/ply_io.py:166-196 | the face block, in either byte order, gives back every index, wrapped to 32 bits |
| PlyRoundTrip.ExtraSkipped | src/physics/alpasim_physics/ply_io.py:199-217 | an unknown element, of scalars only or with lists, is skipped by exactly its bytes |
| PlyRoundTrip.UnknownElementsIgnored | src/physics/alpasim_physics/ply_io.py:120-217 | in either byte order, unknown elements anywhere, earlier ones named like the mesh's, the order of vertices and faces, and trailing bytes do not change what is loaded |
| PlyRoundTrip.SaveThenLoad | src/physics/alpasim_physics/ply_io.py:298-344 | loading what was saved gives back every word and every index, wrapped; saving fails exactly for other than three columns |
| PlyRoundTrip.WrappedIsSame | src/physics/alpasim_physics/ply_io.py:333-342 | indices are unchanged if and only if all fit in 32 bits |
| PlyText.DecimalIsFloat | src/physics/alpasim_physics/ply_io.py:236-247 | a number written in decimals reads as a float |
| PlyText.FloatExactlyWhen | src/physics/alpasim_physics/ply_io.py:236-247 | a token without underscores reads as a float if and only if, at most one sign aside, it is inf, infinity or nan in letters of any case, or has the parts of a number |
| PlyText.PlainExactlyWhen | src/physics/alpasim_physics/ply_io.py:236-247 | those parts are digits, a point with digits after it, and an exponent, and all may be missing but a digit before the exponent |
| PlyText.UnderscoresExactlyWhen | src/physics/alpasim_physics/ply_io.py:236-247 | a token with underscores does if and only if each stands between two digits and the token without them does |
| PlyText.UnderscoreClosesUp | src/physics/alpasim_physics/ply_io.py:236-247 | taking out an underscore joins what is around it, and changes nothing else |
| PlyAscii.TokensRead | src/physics/alpasim_physics/ply_io.py:242-252 | the next line of an ASCII body reads as its tokens and nothing more |
| PlyAscii.AsciiVerticesRead | src/physics/alpasim_physics/ply_io.py:235-247 | vertex lines give the tokens in the columns of x, y and z |
| PlyAscii.VertexLineExactlyWhen | src/physics/alpasim_physics/ply_io.py:240-247 | a line is a vertex if and only if the three columns are there and hold floats |
| PlyAscii.ColumnsAre | src/physics/alpasim_physics/ply_io.py:235-238 | the column of a coordinate is the number of scalar properties before the first scalar of that name; each name must be that of a scalar |
| PlyAscii.AsciiFacesRead | src/physics/alpasim_physics/ply_io.py:249-258 | face lines give what their three index tokens read as |
| PlyAscii.FaceLineExactlyWhen | src/physics/alpasim_physics/ply_io.py:249-258 | a line is a face if and only if it starts with a three and has three integers of 32 bits after it |
| PlyAscii.AsciiLoads | src/physics/alpasim_physics/ply_io.py:225-295 | an ASCII file whose last vertex and face elements have readable lines loads as what they say, whatever other elements it has |
| PlyStreams.Stream.Read | src/physics/alpasim_physics/ply_io.py:154-155 | a read takes what is there, and everything for a negative size |
| PlyStreams.Stream.ReadLine | src/physics/alpasim_physics/ply_io.py:42-51 | a line with its newline |
| PlyStreams.ReadHeaderLines | src/physics/alpasim_physics/ply_io.py:46-86 | the header loop, its errors and where it leaves the stream |
| PlyStreams.ParseHeader | src/physics/alpasim_physics/ply_io.py:40-92 | the stream reader of headers is the reader on bytes |
| PlyStreams.VertexSize | src/physics/alpasim_physics/ply_io.py:145-153 | the loop over vertex properties and its errors |
| PlyStreams.ReadVertices | src/physics/alpasim_physics/ply_io.py:142-163 | the stream reader of vertices is the reader on bytes |
| PlyStreams.ReadFaces | src/physics/alpasim_physics/ply_io.py:166-196 | the stream reader of faces is the reader on bytes |
| PlyStreams.SkipElement | src/physics/alpasim_physics/ply_io.py:199-217 | both ways of skipping leave the stream where the reader on bytes says |
| PlyStreams.FindElements | src/physics/alpasim_physics/ply_io.py:95-112 | the loop finds the last vertex and the last face element |
| PlyStreams.LoadBinary | src/physics/alpasim_physics/ply_io.py:120-139 | the loop over elements is the reader on bytes |
| PlyStreams.ReadAsciiVertices | src/physics/alpasim_physics/ply_io.py:235-247 | the loop over vertex lines is the reader on bytes |
| PlyStreams.ReadAsciiFaces | src/physics/alpasim_physics/ply_io.py:249-258 | the loop over face lines is the reader on bytes |
| PlyStreams.LoadAscii | src/physics/alpasim_physics/ply_io.py:225-265 | the loop over elements is the reader on bytes |
| PlyStreams.LoadMesh | src/physics/alpasim_physics/ply_io.py:272-295 | the whole stream reader is `Load`, binary and ASCII, errors included |

## Left out

- Floating point: single- and double-precision rounding is left out, everything is exact; so are infinities and NaN, except that the policy's NaN padding is a row of its own.
- Timestamps: overflow of the unsigned 64-bit exclusive end of a time range is left out.
- slerp: glam's meets the two laws assumed of it only up to the sign of the quaternion and rounding; the position theorems of `Trajectories` assume nothing about it.
- Quaternion on vector: glam's optimised product is modelled by the sandwich product, which is the polyline's rotation matrix (`Poses.RotateIsMatrix`).
- Square roots, sine, cosine, arctangent and the controller's solver: parameters, the square root with its defining property.
- Polylines in two dimensions: represented with z = 0; the flat storage of points and the dimension checks are left out.
- Routes.GenerateRoute: for a route with a tiny segment inside promises 80/19 m plus 1e-10 only, because it can be that far (`RouteLimits.TinySegmentStretches`). It assumes a unit quaternion, which the pose constructors check up to a tolerance.
- RouteExtension.RouteGenerator.ExtendWaypoints: which waypoints the map adds next (the lane's centre line from the route's end on, and the lane that continues it) is library geometry; here they come as a finite list of lists.
- LaneChoice.FindConsistent: assumes at least one waypoint with a candidate; the code fails on an index otherwise, and never asks.
- Trajectory and polyline extras: `filter`, `slice`, `blend`, `resample_by_spacing`, velocities, accelerations and the pickling and numpy layers would only add easy members.
- ControlLoop.System.RunRequest: a failure of the solver itself is left out. The controller's period in microseconds is a positive parameter.
- Scheduling: which job is picked, scene caches, per-request pool overrides, requests and their results; any order of dispatches and completions is covered.
- AddressPools.ConsumersCover: the code divides in floating point before rounding up.
- The event loop, logging, sockets, sleeps and JSON: a send is a step that succeeds or not.
- PLY lists whose count or index type is a floating-point type: reported as errors of their own. An ASCII index that does not fit into 32 bits is an error, as with NumPy 2.
- Vertex coordinates: kept as their kind and bytes, or as their text; the conversion to and from double precision is left out.
- The other exporters, dynamic trajectories, rollout timing, scene cache counters, configuration and plotting: easier, or outside the core.
