/**
 From the stored route to the policy's route: thinning, sampling ahead of the vehicle, the
 move to the rig frame, trimming and padding (src/runtime/alpasim_runtime/route_generator.py).
 */
module Routes {
  import opened Wrappers
  import opened Vectors
  import opened Poses
  import opened Arcs
  import P = Projection
  import I = Interpolators
  import opened Remainders

  const NUM_WAYPOINTS: nat := 20
  const LOOKAHEAD: real := 80.0
  const SPACING: real := LOOKAHEAD / 19.0
  const DOWNSAMPLE_MIN: real := 0.2
  const MIN_DIST: real := 3.5
  const MAX_DIST: real := 4.5

  datatype Error = TooFewWaypoints | NegativeOffset | FoldedBack | NothingAhead

  ghost predicate Spaced(sqrt: real -> real, pts: seq<Vec>, most: real) {
    forall i :: 0 <= i < |pts| - 1 ==> Gap(sqrt, pts, i) <= most
  }

  // ----- thinning

  /** Keep the first point, and then every point at least `least` from the last one kept. */
  function Thinned(sqrt: real -> real, pts: seq<Vec>, least: real): (r: seq<Vec>)
    ensures |pts| > 0 ==> |r| > 0
  {
    if |pts| <= 1 then pts
    else
      var kept, p := Thinned(sqrt, pts[..|pts| - 1], least), pts[|pts| - 1];
      if Dist(sqrt, kept[|kept| - 1], p) >= least then kept + [p] else kept
  }

  lemma {:induction false} ThinnedApart(sqrt: real -> real, pts: seq<Vec>, least: real)
    ensures var r := Thinned(sqrt, pts, least);
            && (forall i :: 0 <= i < |r| - 1 ==> Gap(sqrt, r, i) >= least)
            && (|pts| > 0 ==> r[0] == pts[0])
            && (forall v :: v in r ==> v in pts)
  {
    hide Dist;
    if |pts| > 1 {
      var kept := Thinned(sqrt, pts[..|pts| - 1], least);
      ThinnedApart(sqrt, pts[..|pts| - 1], least);
      var r := Thinned(sqrt, pts, least);
      forall i | 0 <= i < |r| - 1
        ensures Gap(sqrt, r, i) >= least
      {
        if i < |kept| - 1 {
          assert Gap(sqrt, kept, i) >= least;
          assert r[i] == kept[i] && r[i + 1] == kept[i + 1];
        }
      }
    }
  }

  /** From the `k`-th kept point on, the points are near it up to the next kept one, which is not. */
  ghost predicate KeepsAt(sqrt: real -> real, pts: seq<Vec>, least: real, f: seq<nat>, k: nat)
    requires k < |f|
  {
    var end := if k + 1 < |f| then f[k + 1] else |pts|;
    && f[k] < end <= |pts|
    && (forall i :: f[k] < i < end ==> Dist(sqrt, pts[f[k]], pts[i]) < least)
    && (k + 1 < |f| ==> end < |pts| && Dist(sqrt, pts[f[k]], pts[end]) >= least)
  }

  /** `r` are the points kept, `f` says which. */
  ghost predicate KeptBy(sqrt: real -> real, pts: seq<Vec>, least: real, f: seq<nat>, r: seq<Vec>) {
    && |f| == |r| > 0 && f[0] == 0
    && (forall k :: 0 <= k < |f| ==> f[k] < |pts| && r[k] == pts[f[k]])
    && (forall k :: 0 <= k < |f| ==> KeepsAt(sqrt, pts, least, f, k))
  }

  /** Thinning keeps the first point, then each time the next one that is `least` away, and drops what is nearer. */
  lemma {:induction false} ThinnedIsGreedy(sqrt: real -> real, pts: seq<Vec>, least: real) returns (f: seq<nat>)
    requires |pts| > 0
    ensures KeptBy(sqrt, pts, least, f, Thinned(sqrt, pts, least))
  {
    hide Dist, KeepsAt, KeptBy, Thinned;
    if |pts| == 1 {
      f := [0];
      ThinnedOne(sqrt, pts, least);
      KeptOne(sqrt, pts, least);
    } else {
      var n := |pts| - 1;
      f := ThinnedIsGreedy(sqrt, pts[..n], least);
      ThinnedMore(sqrt, pts, least);
      var kept := Thinned(sqrt, pts[..n], least);
      KeptMore(sqrt, pts, least, f, kept);
      f := if Dist(sqrt, kept[|kept| - 1], pts[n]) >= least then f + [n] else f;
    }
  }

  lemma KeptOne(sqrt: real -> real, pts: seq<Vec>, least: real)
    requires |pts| == 1
    ensures KeptBy(sqrt, pts, least, [0], [pts[0]])
  {
    hide Dist;
  }

  lemma KeptMore(sqrt: real -> real, pts: seq<Vec>, least: real, g: seq<nat>, kept: seq<Vec>)
    requires |pts| > 1 && |kept| > 0 && KeptBy(sqrt, pts[..|pts| - 1], least, g, kept)
    ensures var n := |pts| - 1; var far := Dist(sqrt, kept[|kept| - 1], pts[n]) >= least;
            KeptBy(sqrt, pts, least, if far then g + [n] else g, if far then kept + [pts[n]] else kept)
  {
    hide Dist, KeepsAt;
    var n := |pts| - 1;
    var f := if Dist(sqrt, kept[|kept| - 1], pts[n]) >= least then g + [n] else g;
    forall k | 0 <= k < |f|
      ensures KeepsAt(sqrt, pts, least, f, k)
    {
      if k < |g| {
        KeepsOn(sqrt, pts, least, g, k);
      } else {
        KeepsLast(sqrt, pts, least, f);
      }
    }
  }

  lemma ThinnedOne(sqrt: real -> real, pts: seq<Vec>, least: real)
    requires |pts| == 1
    ensures Thinned(sqrt, pts, least) == [pts[0]]
  {
  }

  lemma ThinnedMore(sqrt: real -> real, pts: seq<Vec>, least: real)
    requires |pts| > 1
    ensures var n := |pts| - 1;
            var kept := Thinned(sqrt, pts[..n], least);
            |kept| > 0
            && Thinned(sqrt, pts, least)
               == if Dist(sqrt, kept[|kept| - 1], pts[n]) >= least then kept + [pts[n]] else kept
  {
    hide Dist;
  }

  /** One more point at the end: kept, or near the last one kept. */
  lemma KeepsOn(sqrt: real -> real, pts: seq<Vec>, least: real, g: seq<nat>, k: nat)
    requires |pts| > 1 && k < |g| && KeepsAt(sqrt, pts[..|pts| - 1], least, g, k) && g[|g| - 1] < |pts| - 1
    ensures var n := |pts| - 1; var far := Dist(sqrt, pts[g[|g| - 1]], pts[n]) >= least;
            KeepsAt(sqrt, pts, least, if far then g + [n] else g, k)
  {
    hide Dist;
    var front := pts[..|pts| - 1];
    assert forall i :: 0 <= i < |front| ==> pts[i] == front[i];
  }

  lemma KeepsLast(sqrt: real -> real, pts: seq<Vec>, least: real, f: seq<nat>)
    requires |pts| > 0 && |f| > 0 && f[|f| - 1] == |pts| - 1
    ensures KeepsAt(sqrt, pts, least, f, |f| - 1)
  {
  }

  /** A polyline whose points are already apart is left alone; so thinning twice is thinning once. */
  lemma {:induction false} ThinnedKeepsApart(sqrt: real -> real, pts: seq<Vec>, least: real)
    requires forall i :: 0 <= i < |pts| - 1 ==> Gap(sqrt, pts, i) >= least
    ensures Thinned(sqrt, pts, least) == pts
  {
    hide Dist;
    if |pts| > 1 {
      var rest := pts[..|pts| - 1];
      forall i | 0 <= i < |rest| - 1
        ensures Gap(sqrt, rest, i) >= least
      {
        assert Gap(sqrt, pts, i) >= least;
      }
      ThinnedKeepsApart(sqrt, rest, least);
      assert Gap(sqrt, pts, |pts| - 2) >= least;
      assert pts == rest + [pts[|pts| - 1]];
    }
  }

  /** On a thinned route every projection is exact. */
  lemma ThinnedProjectsExactly(sqrt: real -> real, pts: seq<Vec>, p: Vec, i: nat, s: real)
    requires IsSqrt(sqrt) && 0.0 <= s <= 1.0
    requires var r := Thinned(sqrt, pts, DOWNSAMPLE_MIN); i + 1 < |r|
    ensures var r := Thinned(sqrt, pts, DOWNSAMPLE_MIN);
            Dist(sqrt, p, P.ProjectOf(sqrt, r, p).point) <= Dist(sqrt, p, Lerp(r[i], r[i + 1], s))
  {
    hide Dist, Norm, IsSqrt, P.ProjectOf, Lerp, Thinned, P.SafeFor;
    var r := Thinned(sqrt, pts, DOWNSAMPLE_MIN);
    ThinnedApart(sqrt, pts, DOWNSAMPLE_MIN);
    forall k | 0 <= k < |r| - 1
      ensures Norm(sqrt, Sub(r[k + 1], r[k])) >= P.DEGENERATE
    {
      P.NormIsDist(sqrt, r[k], r[k + 1]);
      assert Gap(sqrt, r, k) >= DOWNSAMPLE_MIN;
    }
    P.SafeForEveryPoint(sqrt, r, p);
    P.ProjectionIsGlobal(sqrt, r, p, i, s);
  }

  class Polyline {
    var points: seq<Vec>

    constructor (pts: seq<Vec>)
      ensures points == pts
    {
      points := pts;
    }

    /** `downsample_with_min_distance` */
    method Downsample(sqrt: real -> real, least: real)
      modifies this
      ensures points == Thinned(sqrt, old(points), least)
    {
      hide Dist;
      if |points| < 2 {
        return;
      }
      var kept, last := [points[0]], points[0];
      for i := 1 to |points|
        invariant points == old(points)
        invariant kept == Thinned(sqrt, points[..i], least) && last == kept[|kept| - 1]
      {
        assert points[..i + 1][..i] == points[..i];
        if Dist(sqrt, last, points[i]) >= least {
          kept := kept + [points[i]];
          last := points[i];
        }
      }
      assert points[..|points|] == points;
      points := kept;
    }
  }

  // ----- folding back

  /** Shorter segments have no direction. */
  const NO_DIRECTION: real := 0.001

  /** The cosine of the angle by which the route turns at waypoint `i`. */
  function CosOfTurn(sqrt: real -> real, pts: seq<Vec>, i: int): real
    requires 1 <= i < |pts| - 1
  {
    var u, v := Sub(pts[i], pts[i - 1]), Sub(pts[i + 1], pts[i]);
    if Norm(sqrt, u) == 0.0 || Norm(sqrt, v) == 0.0 then 1.0
    else Dot(Scale(1.0 / Norm(sqrt, u), u), Scale(1.0 / Norm(sqrt, v), v))
  }

  /** A turn by more than 150 degrees, between two segments that have a direction. */
  predicate FoldsAt(sqrt: real -> real, pts: seq<Vec>, i: int)
    requires 1 <= i < |pts| - 1
  {
    && Norm(sqrt, Sub(pts[i], pts[i - 1])) >= NO_DIRECTION
    && Norm(sqrt, Sub(pts[i + 1], pts[i])) >= NO_DIRECTION
    && CosOfTurn(sqrt, pts, i) < -sqrt(3.0) / 2.0
  }

  ghost predicate FoldsBack(sqrt: real -> real, pts: seq<Vec>) {
    exists i :: 1 <= i < |pts| - 1 && FoldsAt(sqrt, pts, i)
  }

  /** In terms of lengths and of the product of the two segments, with no direction taken. */
  lemma FoldsExactlyWhen(sqrt: real -> real, pts: seq<Vec>, i: nat)
    requires IsSqrt(sqrt) && 1 <= i < |pts| - 1
    ensures var u, v := Sub(pts[i], pts[i - 1]), Sub(pts[i + 1], pts[i]);
            var a, b := Dist(sqrt, pts[i - 1], pts[i]), Dist(sqrt, pts[i], pts[i + 1]);
            FoldsAt(sqrt, pts, i) <==> a >= 0.001 && b >= 0.001 && 2.0 * Dot(u, v) < -sqrt(3.0) * (a * b)
  {
    var u, v := Sub(pts[i], pts[i - 1]), Sub(pts[i + 1], pts[i]);
    var a, b := Dist(sqrt, pts[i - 1], pts[i]), Dist(sqrt, pts[i], pts[i + 1]);
    P.NormIsDist(sqrt, pts[i - 1], pts[i]);
    P.NormIsDist(sqrt, pts[i], pts[i + 1]);
    hide Norm, Dist, IsSqrt, Sub, Dot, Scale;
    if a >= 0.001 && b >= 0.001 {
      UnitDot(u, v, a, b);
      ScaledBelow(CosOfTurn(sqrt, pts, i), a, b, sqrt(3.0), Dot(u, v));
    }
  }

  lemma UnitDot(u: Vec, v: Vec, a: real, b: real)
    requires a > 0.0 && b > 0.0
    ensures a * b * Dot(Scale(1.0 / a, u), Scale(1.0 / b, v)) == Dot(u, v)
  {
    var x, y := Scale(1.0 / a, u), Scale(1.0 / b, v);
    Undone(a, u.x);
    Undone(a, u.y);
    Undone(a, u.z);
    Undone(b, v.x);
    Undone(b, v.y);
    Undone(b, v.z);
    FourFactors(a, b, x.x, y.x);
    FourFactors(a, b, x.y, y.y);
    FourFactors(a, b, x.z, y.z);
    Distributed(a * b, x.x * y.x, x.y * y.y, x.z * y.z);
  }

  lemma Undone(a: real, x: real)
    requires a > 0.0
    ensures a * ((1.0 / a) * x) == x
  {
    assert a * (1.0 / a) == 1.0;
    assert a * ((1.0 / a) * x) == (a * (1.0 / a)) * x;
  }

  lemma FourFactors(a: real, b: real, x: real, y: real)
    ensures a * b * (x * y) == (a * x) * (b * y)
  {
  }

  lemma Distributed(k: real, x: real, y: real, z: real)
    ensures k * (x + y + z) == k * x + k * y + k * z
  {
  }

  lemma ScaledBelow(c: real, a: real, b: real, root: real, d: real)
    requires a > 0.0 && b > 0.0 && a * b * c == d
    ensures c < -root / 2.0 <==> 2.0 * d < -root * (a * b)
  {
    var p, e := a * b, 2.0 * c + root;
    Product(a, b, p);
    Product(p, e, p * e);
    assert p * e == 2.0 * d + root * p;
  }

  /** `sanity_check_waypoints_for_foldback` */
  method SanityCheck(sqrt: real -> real, pts: seq<Vec>) returns (ok: bool)
    ensures ok <==> !FoldsBack(sqrt, pts)
  {
    hide FoldsAt;
    var i := 1;
    while i < |pts| - 1
      invariant 1 <= i && forall k :: 1 <= k < i && k < |pts| - 1 ==> !FoldsAt(sqrt, pts, k)
    {
      if FoldsAt(sqrt, pts, i) {
        return false;
      }
      i := i + 1;
    }
    return true;
  }

  /** On a thinned route every corner is looked at. */
  lemma ThinnedHasDirections(sqrt: real -> real, pts: seq<Vec>, i: nat)
    requires IsSqrt(sqrt)
    requires 1 <= i < |Thinned(sqrt, pts, DOWNSAMPLE_MIN)| - 1
    ensures var r := Thinned(sqrt, pts, DOWNSAMPLE_MIN);
            FoldsAt(sqrt, r, i) <==> CosOfTurn(sqrt, r, i) < -sqrt(3.0) / 2.0
  {
    hide Norm, Dist, IsSqrt, Thinned, CosOfTurn;
    var r := Thinned(sqrt, pts, DOWNSAMPLE_MIN);
    ThinnedApart(sqrt, pts, DOWNSAMPLE_MIN);
    P.NormIsDist(sqrt, r[i - 1], r[i]);
    P.NormIsDist(sqrt, r[i], r[i + 1]);
    assert Gap(sqrt, r, i - 1) >= DOWNSAMPLE_MIN && Gap(sqrt, r, i) >= DOWNSAMPLE_MIN;
  }

  /** The checks and the thinning of the constructor. */
  method StoreRoute(sqrt: real -> real, waypoints: seq<Vec>, offset: real) returns (r: Result<Polyline, Error>)
    ensures r == Err(TooFewWaypoints) <==> |waypoints| < 2
    ensures r == Err(NegativeOffset) <==> |waypoints| >= 2 && offset < 0.0
    ensures r.Ok? <==> |waypoints| >= 2 && offset >= 0.0 && !FoldsBack(sqrt, Thinned(sqrt, waypoints, 0.2))
    ensures r.Ok? ==> fresh(r.value) && r.value.points == Thinned(sqrt, waypoints, 0.2)
  {
    hide FoldsBack;
    if |waypoints| < 2 {
      return Err(TooFewWaypoints);
    }
    if offset < 0.0 {
      return Err(NegativeOffset);
    }
    var polyline := new Polyline(waypoints);
    polyline.Downsample(sqrt, DOWNSAMPLE_MIN);
    var ok := SanityCheck(sqrt, polyline.points);
    if !ok {
      return Err(FoldedBack);
    }
    return Ok(polyline);
  }

  // ----- into the rig frame

  function Flatten(v: Vec): Vec {
    Vec(v.x, v.y, 0.0)
  }

  function InRig(pose: Pose, v: Vec): Vec {
    Flatten(Act(Inv(pose), v))
  }

  function AllInRig(pose: Pose, pts: seq<Vec>): (r: seq<Vec>)
    ensures |r| == |pts| && forall i :: 0 <= i < |pts| ==> r[i] == InRig(pose, pts[i])
  {
    seq(|pts|, i requires 0 <= i < |pts| => InRig(pose, pts[i]))
  }

  /** `v` is where the vehicle sees `u`, in its own plane: the place in the rig that the pose takes to `u`. */
  ghost predicate Sees(pose: Pose, u: Vec, v: Vec) {
    exists w :: Act(pose, w) == u && v == Vec(w.x, w.y, 0.0)
  }

  /** A point of the world is moved to where the vehicle sees it, and that is one place. */
  lemma InRigIsSeen(pose: Pose, u: Vec, w: Vec)
    requires Unit(pose.quaternion)
    ensures Act(pose, w) == u ==> InRig(pose, u) == Vec(w.x, w.y, 0.0)
    ensures Act(pose, Act(Inv(pose), u)) == u && Sees(pose, u, InRig(pose, u))
  {
    hide Rotate, Unit, Act, Compose, Inv;
    InvIsInverse(pose);
    ActCompose(Inv(pose), pose, w);
    ActCompose(pose, Inv(pose), u);
    ActIdentity(w);
    ActIdentity(u);
  }

  lemma SeenOnce(pose: Pose, u: Vec, v: Vec)
    requires Unit(pose.quaternion) && Sees(pose, u, v)
    ensures v == InRig(pose, u)
  {
    hide Unit, Act, InRig;
    var w :| Act(pose, w) == u && v == Vec(w.x, w.y, 0.0);
    InRigIsSeen(pose, u, w);
  }

  /** The vehicle sees itself at the origin, and what is `d` ahead of it along its heading at `d` on its first axis. */
  lemma SeesAhead(pose: Pose, d: real)
    requires Unit(pose.quaternion)
    ensures InRig(pose, pose.position) == ZERO
    ensures InRig(pose, Add(pose.position, Scale(d, Rotate(pose.quaternion, Vec(1.0, 0.0, 0.0))))) == Vec(d, 0.0, 0.0)
  {
    hide Rotate, Unit, InRig, Act, Add, Scale;
    ActZero(pose);
    ActAhead(pose, d);
    InRigIsSeen(pose, pose.position, ZERO);
    InRigIsSeen(pose, Add(pose.position, Scale(d, Rotate(pose.quaternion, Vec(1.0, 0.0, 0.0)))), Vec(d, 0.0, 0.0));
  }

  lemma ActZero(pose: Pose)
    ensures Act(pose, ZERO) == pose.position
  {
    hide Rotate;
    RotateZero(pose.quaternion);
  }

  lemma ActAhead(pose: Pose, d: real)
    ensures Act(pose, Vec(d, 0.0, 0.0)) == Add(pose.position, Scale(d, Rotate(pose.quaternion, Vec(1.0, 0.0, 0.0))))
  {
    hide Rotate;
    var q, x := pose.quaternion, Vec(1.0, 0.0, 0.0);
    RotateZero(q);
    assert Add(ZERO, Scale(d, x)) == Vec(d, 0.0, 0.0);
    RotateLinear(q, ZERO, x, d);
  }

  lemma FlattenShortens(sqrt: real -> real, u: Vec, v: Vec)
    requires IsSqrt(sqrt)
    ensures Dist(sqrt, Flatten(u), Flatten(v)) <= Dist(sqrt, u, v)
  {
    var a, b := DistSq(u, v), DistSq(Flatten(u), Flatten(v));
    Square(u.z - v.z, (u.z - v.z) * (u.z - v.z));
    FlatSquare(u, v);
    hide DistSq;
    DistSqBasics(u, v);
    DistSqBasics(Flatten(u), Flatten(v));
    SqrtOrder(sqrt, b, a);
  }

  lemma FlatSquare(u: Vec, v: Vec)
    ensures DistSq(u, v) == DistSq(Flatten(u), Flatten(v)) + (u.z - v.z) * (u.z - v.z)
  {
  }

  lemma InRigShortens(sqrt: real -> real, pose: Pose, u: Vec, v: Vec)
    requires IsSqrt(sqrt) && Unit(pose.quaternion)
    ensures Dist(sqrt, InRig(pose, u), InRig(pose, v)) <= Dist(sqrt, u, v)
  {
    hide Dist, IsSqrt, Unit, Act, Inv, Flatten;
    InvIsInverse(pose);
    ActIsometry(sqrt, Inv(pose), u, v);
    FlattenShortens(sqrt, Act(Inv(pose), u), Act(Inv(pose), v));
  }

  // ----- trimming the start

  /** `np.searchsorted` on the left: how many leading entries are below `v`. */
  function SearchSorted(xs: seq<real>, v: real): (k: nat)
    ensures k <= |xs|
    ensures forall i :: 0 <= i < k ==> xs[i] < v
    ensures k < |xs| ==> v <= xs[k]
  {
    if |xs| == 0 || v <= xs[0] then 0 else 1 + SearchSorted(xs[1..], v)
  }

  function TrimCount(sqrt: real -> real, pts: seq<Vec>, offset: real): (k: nat)
    ensures k <= |pts|
  {
    if offset == 0.0 || |pts| == 0 then 0 else SearchSorted(ArcLengths(sqrt, pts), offset)
  }

  function TrimStart(sqrt: real -> real, pts: seq<Vec>, offset: real): seq<Vec> {
    pts[TrimCount(sqrt, pts, offset)..]
  }

  /** What is dropped is exactly the leading points less than `offset` along the route. */
  lemma TrimDropsExactly(sqrt: real -> real, pts: seq<Vec>, offset: real, k: nat)
    requires IsSqrt(sqrt) && k < |pts| && offset >= 0.0
    ensures k < TrimCount(sqrt, pts, offset) <==> ArcLength(sqrt, pts, k) < offset
  {
    var m := TrimCount(sqrt, pts, offset);
    LengthAtStart(sqrt, pts);
    hide ArcLength, IsSqrt;
    ArcLengthMonotone(sqrt, pts, 0, k);
    if m <= k && offset != 0.0 {
      ArcLengthMonotone(sqrt, pts, m, k);
      assert offset <= ArcLengths(sqrt, pts)[m];
    } else if k < m {
      assert ArcLengths(sqrt, pts)[k] < offset;
    }
  }

  // ----- `generate_route`

  /** `v` is the route's point `d` metres past the projection of the vehicle, seen from the rig. */
  ghost predicate IsRoutePoint(sqrt: real -> real, route: seq<Vec>, pose: Pose, d: real, v: Vec) {
    exists u :: I.Answers(sqrt, RemainingOf(sqrt, route, pose.position), d, u) && Sees(pose, u, v)
  }

  /** Two answers one spacing apart are less than a spacing and TINY apart. */
  lemma AnswersSpaced(sqrt: real -> real, pts: seq<Vec>, d: real, e: real, u: Vec, v: Vec)
    requires IsSqrt(sqrt) && I.Answers(sqrt, pts, d, u) && I.Answers(sqrt, pts, e, v) && d + TINY <= e
    ensures Dist(sqrt, u, v) < e - d + TINY
  {
    hide Dist, IsSqrt, ArcPoint, I.Answers;
    var x := I.AnswerIsNear(sqrt, pts, d, u);
    var y := I.AnswerIsNear(sqrt, pts, e, v);
    ArcPointLipschitz(sqrt, pts, x, y);
  }

  lemma ArcPointLipschitz(sqrt: real -> real, pts: seq<Vec>, x: real, y: real)
    requires IsSqrt(sqrt) && |pts| > 0 && 0.0 <= x <= y
    ensures Dist(sqrt, ArcPoint(sqrt, pts, x), ArcPoint(sqrt, pts, y)) <= y - x
  {
    hide Dist, IsSqrt, ArcFrom;
    ArcLipschitz(sqrt, pts, 0, x, y);
  }

  lemma RoutePointsSpaced(sqrt: real -> real, route: seq<Vec>, pose: Pose, k: nat, u: Vec, v: Vec)
    requires IsSqrt(sqrt) && Unit(pose.quaternion)
    requires IsRoutePoint(sqrt, route, pose, Multiple(k, SPACING), u)
    requires IsRoutePoint(sqrt, route, pose, Multiple(k + 1, SPACING), v)
    ensures Dist(sqrt, u, v) < SPACING + TINY
    ensures I.NoTinySegment(sqrt, route) ==> Dist(sqrt, u, v) <= SPACING
  {
    NextMultiple(k);
    hide Dist, IsSqrt, Unit, InRig, Sees, I.Answers, I.NoTinySegment, RemainingOf, Multiple, ArcPoint;
    var rest := RemainingOf(sqrt, route, pose.position);
    var a :| I.Answers(sqrt, rest, Multiple(k, SPACING), a) && Sees(pose, a, u);
    var b :| I.Answers(sqrt, rest, Multiple(k + 1, SPACING), b) && Sees(pose, b, v);
    SeenOnce(pose, a, u);
    SeenOnce(pose, b, v);
    AnswersSpaced(sqrt, rest, Multiple(k, SPACING), Multiple(k + 1, SPACING), a, b);
    InRigShortens(sqrt, pose, a, b);
    if I.NoTinySegment(sqrt, route) {
      RoutePointIsExact(sqrt, route, pose.position, k, a);
      RoutePointIsExact(sqrt, route, pose.position, k + 1, b);
      MultiplesOrder(0, k, SPACING);
      ArcPointLipschitz(sqrt, rest, Multiple(k, SPACING), Multiple(k + 1, SPACING));
    }
  }

  /** Only where the vehicle is can the rest of a route have a tiny segment that the route had not. */
  lemma RestHasNoTinyInside(sqrt: real -> real, route: seq<Vec>, p: Vec)
    requires IsSqrt(sqrt) && I.NoTinySegment(sqrt, route)
    ensures I.NoTinyInside(sqrt, RemainingOf(sqrt, route, p))
  {
    hide Dist, IsSqrt, P.ProjectOf, PastEnd;
    var rest := RemainingOf(sqrt, route, p);
    if |route| > 1 && rest != [] {
      RemainderForm(sqrt, route, p);
      var j := P.ProjectOf(sqrt, route, p).segment;
      forall k | 1 <= k < |rest| - 1
        ensures Gap(sqrt, rest, k) == Gap(sqrt, route, j + k)
      {
        assert rest[k] == route[j + k] && rest[k + 1] == route[j + k + 1];
      }
    }
  }

  /** On a route without tiny segments a sample is exactly the point its number of spacings ahead. */
  lemma RoutePointIsExact(sqrt: real -> real, route: seq<Vec>, p: Vec, k: nat, v: Vec)
    requires IsSqrt(sqrt) && I.NoTinySegment(sqrt, route)
    requires I.Answers(sqrt, RemainingOf(sqrt, route, p), Multiple(k, SPACING), v)
    ensures |RemainingOf(sqrt, route, p)| > 0 && v == ArcPoint(sqrt, RemainingOf(sqrt, route, p), Multiple(k, SPACING))
  {
    NotInsideFirst(k);
    hide IsSqrt, I.Answers, I.NoTinySegment, I.NoTinyInside, RemainingOf, Multiple, ArcPoint;
    RestHasNoTinyInside(sqrt, route, p);
    I.AnswerIsExact(sqrt, RemainingOf(sqrt, route, p), Multiple(k, SPACING), v);
  }

  lemma NotInsideFirst(k: nat)
    ensures Multiple(k, SPACING) == 0.0 || Multiple(k, SPACING) >= TINY
  {
    if k > 0 {
      NextMultiple(0);
      MultiplesOrder(1, k, SPACING);
      MultiplesOrder(0, 0, SPACING);
    }
  }

  /** A stored route has no tiny segments. */
  lemma ThinnedHasNoTiny(sqrt: real -> real, pts: seq<Vec>)
    ensures I.NoTinySegment(sqrt, Thinned(sqrt, pts, DOWNSAMPLE_MIN))
  {
    hide Gap, Thinned;
    ThinnedApart(sqrt, pts, DOWNSAMPLE_MIN);
  }

  lemma NextMultiple(k: nat)
    ensures Multiple(k + 1, SPACING) == Multiple(k, SPACING) + SPACING
    ensures SPACING >= 0.0 && SPACING >= TINY && SPACING + TINY < MAX_DIST
  {
  }

  /** How many points the sampler finds on the rest of the route. */
  ghost function SampleCount(sqrt: real -> real, rest: seq<Vec>): nat {
    if |rest| > 1 then |SampleDistances(NUM_WAYPOINTS, SPACING, Total(sqrt, rest))| else |rest|
  }

  /**
   * The route ahead of the vehicle. `whole` is the sampled route in the plane of the rig: one point per
   * spacing along the stored route, at most 20; the result starts at its first point `offset` metres along it.
   */
  method GenerateRoute(sqrt: real -> real, route: seq<Vec>, pose: Pose, offset: real)
      returns (r: seq<Vec>, ghost whole: seq<Vec>)
    requires IsSqrt(sqrt) && Unit(pose.quaternion)
    ensures |whole| == SampleCount(sqrt, RemainingOf(sqrt, route, pose.position)) <= NUM_WAYPOINTS
    ensures IsRoute(sqrt, route, pose, 0, whole) && r == TrimStart(sqrt, whole, offset) && |r| <= |whole|
    ensures IsRoute(sqrt, route, pose, |whole| - |r|, r)
    ensures Spaced(sqrt, r, SPACING + TINY)
    ensures I.NoTinySegment(sqrt, route) ==>
              Spaced(sqrt, r, SPACING) && IsExactRoute(sqrt, route, pose, |whole| - |r|, r)
  {
    hide *;
    NextMultiple(0);
    SampleCountIs(sqrt, RemainingOf(sqrt, route, pose.position));
    var sampled := ResampleFromPoint(sqrt, route, pose.position, SPACING, NUM_WAYPOINTS);
    var inRig := AllInRig(pose, sampled);
    SampledRoute(sqrt, route, pose, sampled);
    TrimmedRoute(sqrt, route, pose, inRig, offset);
    return TrimStart(sqrt, inRig, offset), inRig;
  }

  /** All 20 points are there exactly when 80 metres are left. */
  lemma FullExactlyWhenEnough(sqrt: real -> real, rest: seq<Vec>)
    requires IsSqrt(sqrt)
    ensures SampleCount(sqrt, rest) == 20 <==> Total(sqrt, rest) >= 80.0
  {
    hide ArcLength, IsSqrt, SampleDistances;
    if |rest| > 1 {
      var total := Total(sqrt, rest);
      NextMultiple(0);
      SampleDistancesGrid(NUM_WAYPOINTS, SPACING, total);
      var k := |SampleDistances(NUM_WAYPOINTS, SPACING, total)|;
      LastMultiple();
      if k < NUM_WAYPOINTS {
        MultiplesOrder(k, NUM_WAYPOINTS - 1, SPACING);
      }
    } else if |rest| == 1 {
      LengthAtStart(sqrt, rest);
    }
  }

  lemma LastMultiple()
    ensures Multiple(NUM_WAYPOINTS - 1, SPACING) == LOOKAHEAD > 0.0
  {
  }

  lemma SampleCountIs(sqrt: real -> real, rest: seq<Vec>)
    ensures |rest| > 1 ==> SampleCount(sqrt, rest) == |SampleDistances(NUM_WAYPOINTS, SPACING, Total(sqrt, rest))|
    ensures |rest| <= 1 ==> SampleCount(sqrt, rest) == |rest|
    ensures NUM_WAYPOINTS > 0
  {
  }

  ghost predicate IsRoute(sqrt: real -> real, route: seq<Vec>, pose: Pose, first: nat, r: seq<Vec>) {
    forall k :: 0 <= k < |r| ==> IsRoutePoint(sqrt, route, pose, Multiple(first + k, SPACING), r[k])
  }

  lemma SampledRoute(sqrt: real -> real, route: seq<Vec>, pose: Pose, sampled: seq<Vec>)
    requires Unit(pose.quaternion)
    requires forall k :: 0 <= k < |sampled| ==>
               I.Answers(sqrt, RemainingOf(sqrt, route, pose.position), Multiple(k, SPACING), sampled[k])
    ensures IsRoute(sqrt, route, pose, 0, AllInRig(pose, sampled))
  {
    hide InRig, Sees, Unit, I.Answers, RemainingOf, Multiple;
    forall k | 0 <= k < |sampled|
      ensures IsRoutePoint(sqrt, route, pose, Multiple(k, SPACING), AllInRig(pose, sampled)[k])
    {
      InRigIsSeen(pose, sampled[k], ZERO);
    }
  }

  lemma TrimmedRoute(sqrt: real -> real, route: seq<Vec>, pose: Pose, inRig: seq<Vec>, offset: real)
    requires IsSqrt(sqrt) && Unit(pose.quaternion) && IsRoute(sqrt, route, pose, 0, inRig)
    ensures var r, m := TrimStart(sqrt, inRig, offset), TrimCount(sqrt, inRig, offset);
            && |r| + m == |inRig| && IsRoute(sqrt, route, pose, m, r) && Spaced(sqrt, r, SPACING + TINY)
            && (I.NoTinySegment(sqrt, route) ==> Spaced(sqrt, r, SPACING) && IsExactRoute(sqrt, route, pose, m, r))
  {
    hide IsSqrt, Unit, IsRoute, I.NoTinySegment, ArcLength, IsExactRoute, Spaced;
    var r, m := TrimStart(sqrt, inRig, offset), TrimCount(sqrt, inRig, offset);
    RouteFrom(sqrt, route, pose, inRig, m);
    RouteIsSpaced(sqrt, route, pose, m, r);
    if I.NoTinySegment(sqrt, route) {
      RouteIsExact(sqrt, route, pose, m, r);
    }
  }

  lemma RouteFrom(sqrt: real -> real, route: seq<Vec>, pose: Pose, inRig: seq<Vec>, m: nat)
    requires m <= |inRig| && IsRoute(sqrt, route, pose, 0, inRig)
    ensures IsRoute(sqrt, route, pose, m, inRig[m..])
  {
    hide IsRoutePoint, Multiple;
    forall k | 0 <= k < |inRig| - m
      ensures IsRoutePoint(sqrt, route, pose, Multiple(m + k, SPACING), inRig[m..][k])
    {
      assert IsRoutePoint(sqrt, route, pose, Multiple(0 + (m + k), SPACING), inRig[m + k]);
    }
  }

  lemma RouteIsSpaced(sqrt: real -> real, route: seq<Vec>, pose: Pose, m: nat, r: seq<Vec>)
    requires IsSqrt(sqrt) && Unit(pose.quaternion) && IsRoute(sqrt, route, pose, m, r)
    ensures Spaced(sqrt, r, SPACING + TINY) && (I.NoTinySegment(sqrt, route) ==> Spaced(sqrt, r, SPACING))
  {
    hide IsSqrt, Unit, IsRoutePoint, I.NoTinySegment, Multiple, Dist;
    forall i | 0 <= i < |r| - 1
      ensures Gap(sqrt, r, i) <= SPACING + TINY
      ensures I.NoTinySegment(sqrt, route) ==> Gap(sqrt, r, i) <= SPACING
    {
      assert Multiple(m + (i + 1), SPACING) == Multiple(m + i + 1, SPACING);
      RoutePointsSpaced(sqrt, route, pose, m + i, r[i], r[i + 1]);
    }
  }

  /** Every point is the stored route's, a whole number of spacings past the vehicle, with no tolerance. */
  ghost predicate IsExactRoute(sqrt: real -> real, route: seq<Vec>, pose: Pose, first: nat, r: seq<Vec>) {
    var rest := RemainingOf(sqrt, route, pose.position);
    |r| > 0 ==>
      && |rest| > 0
      && forall k :: 0 <= k < |r| ==> Sees(pose, ArcPoint(sqrt, rest, Multiple(first + k, SPACING)), r[k])
  }

  lemma RouteIsExact(sqrt: real -> real, route: seq<Vec>, pose: Pose, first: nat, r: seq<Vec>)
    requires IsSqrt(sqrt) && I.NoTinySegment(sqrt, route) && IsRoute(sqrt, route, pose, first, r)
    ensures IsExactRoute(sqrt, route, pose, first, r)
  {
    hide IsSqrt, I.Answers, I.NoTinySegment, RemainingOf, Multiple, ArcPoint, Sees;
    var rest := RemainingOf(sqrt, route, pose.position);
    forall k | 0 <= k < |r|
      ensures |rest| > 0 && Sees(pose, ArcPoint(sqrt, rest, Multiple(first + k, SPACING)), r[k])
    {
      assert IsRoutePoint(sqrt, route, pose, Multiple(first + k, SPACING), r[k]);
      var u :| I.Answers(sqrt, rest, Multiple(first + k, SPACING), u) && Sees(pose, u, r[k]);
      RoutePointIsExact(sqrt, route, pose.position, first + k, u);
    }
    assert |r| > 0 ==> r[0] == r[0] && |rest| > 0;
  }

  // ----- `prepare_for_policy`

  /** A row of the policy's input: a waypoint, or the NaN padding. */
  datatype Row = Waypoint(v: Vec) | Padding

  predicate ValidGap(sqrt: real -> real, pts: seq<Vec>, i: nat)
    requires i + 1 < |pts|
  {
    MIN_DIST <= Gap(sqrt, pts, i) <= MAX_DIST
  }

  /** The first segment that is too short or too long, or the number of segments. */
  function FirstInvalid(sqrt: real -> real, pts: seq<Vec>, from: nat): (k: nat)
    requires from < |pts|
    ensures from <= k < |pts|
    ensures forall i :: from <= i < k ==> ValidGap(sqrt, pts, i)
    ensures k + 1 < |pts| ==> !ValidGap(sqrt, pts, k)
    decreases |pts| - from
  {
    if from + 1 < |pts| && ValidGap(sqrt, pts, from) then FirstInvalid(sqrt, pts, from + 1) else from
  }

  /** How many leading waypoints survive. */
  function KeptForPolicy(sqrt: real -> real, pts: seq<Vec>): nat {
    var kept := if |pts| == 0 then 0 else FirstInvalid(sqrt, pts, 0) + 1;
    if kept <= NUM_WAYPOINTS then kept else NUM_WAYPOINTS
  }

  function PrepareForPolicy(sqrt: real -> real, pts: seq<Vec>): seq<Row> {
    var kept := KeptForPolicy(sqrt, pts);
    seq(NUM_WAYPOINTS, i requires 0 <= i < NUM_WAYPOINTS => if i < kept && i < |pts| then Waypoint(pts[i]) else Padding)
  }

  /** Always 20 rows: the longest leading run of well-spaced waypoints, and then padding. */
  lemma PolicyRows(sqrt: real -> real, pts: seq<Vec>)
    ensures var rows, kept := PrepareForPolicy(sqrt, pts), KeptForPolicy(sqrt, pts);
            && |rows| == 20 && kept <= |pts| && kept <= 20
            && (forall i :: 0 <= i < 20 ==> rows[i] == if i < kept then Waypoint(pts[i]) else Padding)
            && (forall i :: 0 <= i < kept - 1 ==> 3.5 <= Gap(sqrt, pts, i) <= 4.5)
            && (0 < kept < |pts| && kept < 20 ==> !(3.5 <= Gap(sqrt, pts, kept - 1) <= 4.5))
            && (kept == 0 <==> |pts| == 0)
  {
    hide Gap;
    var kept := KeptForPolicy(sqrt, pts);
    forall i | 0 <= i < kept - 1
      ensures 3.5 <= Gap(sqrt, pts, i) <= 4.5
    {
      assert ValidGap(sqrt, pts, i);
    }
    assert 0 < kept < |pts| && kept < NUM_WAYPOINTS ==> !ValidGap(sqrt, pts, kept - 1);
  }

  /** A generated route is never cut for a segment that is too long, only for one that is too short. */
  lemma NeverCutForLength(sqrt: real -> real, pts: seq<Vec>)
    requires Spaced(sqrt, pts, SPACING + TINY)
    ensures var kept := KeptForPolicy(sqrt, pts);
            kept < |pts| && kept < 20 ==> kept > 0 && Gap(sqrt, pts, kept - 1) < 3.5
  {
    hide Gap;
    PolicyRows(sqrt, pts);
    NextMultiple(0);
  }

  /** All of a generated route that fits is kept exactly when none of its gaps is too short. */
  lemma KeptExactlyWhenNotShort(sqrt: real -> real, pts: seq<Vec>)
    requires Spaced(sqrt, pts, SPACING + TINY)
    ensures var fits := Min(|pts|, 20);
            KeptForPolicy(sqrt, pts) == fits <==> forall i :: 0 <= i && i + 1 < fits ==> Gap(sqrt, pts, i) >= 3.5
  {
    hide Gap;
    var fits, kept := Min(|pts|, NUM_WAYPOINTS), KeptForPolicy(sqrt, pts);
    PolicyRows(sqrt, pts);
    NextMultiple(0);
    if kept == fits {
      forall i | 0 <= i && i + 1 < fits
        ensures Gap(sqrt, pts, i) >= MIN_DIST
      {
        assert ValidGap(sqrt, pts, i);
      }
    } else {
      NeverCutForLength(sqrt, pts);
      assert 0 <= kept - 1 && (kept - 1) + 1 < fits && Gap(sqrt, pts, kept - 1) < MIN_DIST;
    }
  }
}
