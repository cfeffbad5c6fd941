/**
 Trajectories of poses (src/utils_rs/src/trajectory.rs): the curves of module Curves whose
 payload is a pose, their positions, transforms of them, and the updates made in place.
 */
module Trajectories {
  import opened Wrappers
  import opened Vectors
  import opened Poses
  import opened Curves

  // ----- trajectories of poses

  type Track = seq<Timed<Pose>>
  type Slerp = (Quat, Quat, real) -> Quat

  /** Positions blend linearly and orientations by `slerp`. */
  function MixPose(slerp: Slerp): (Pose, Pose, real) -> Pose {
    (p: Pose, q: Pose, alpha: real) =>
      Pose(Lerp(p.position, q.position, alpha), slerp(p.quaternion, q.quaternion, alpha))
  }

  /** How far apart two poses may be that count as the same. */
  const JOINT: real := 0.00001

  function PosesClose(sqrt: real -> real): (Pose, Pose) -> bool {
    (p: Pose, q: Pose) =>
      Norm(sqrt, Sub(p.position, q.position)) < JOINT
      && Near(p.quaternion.x, q.quaternion.x) && Near(p.quaternion.y, q.quaternion.y)
      && Near(p.quaternion.z, q.quaternion.z) && Near(p.quaternion.w, q.quaternion.w)
  }

  predicate Near(a: real, b: real) {
    -JOINT < a - b < JOINT
  }

  lemma PosesCloseReflexive(sqrt: real -> real)
    requires IsSqrt(sqrt)
    ensures forall p :: PosesClose(sqrt)(p, p)
  {
    hide Dot;
    forall p: Pose
      ensures PosesClose(sqrt)(p, p)
    {
      DistBasics(sqrt, p.position, p.position);
    }
  }

  lemma LerpGeodesic()
    ensures Geodesic(Lerp)
  {
    hide Lerp;
    forall p: Vec, q: Vec
      ensures Lerp(p, q, 0.0) == p && Lerp(p, q, 1.0) == q
    {
      LerpEnds(p, q);
    }
    forall p: Vec, q: Vec, a, b, c
      ensures Lerp(Lerp(p, q, a), Lerp(p, q, b), c) == Lerp(p, q, Part(a, b, c))
    {
      LerpOfLerps(p, q, a, b, c);
    }
  }

  lemma MixPoseGeodesic(slerp: Slerp)
    requires Geodesic(slerp)
    ensures Geodesic(MixPose(slerp))
  {
    hide Lerp, Part;
    var mix := MixPose(slerp);
    forall p: Pose, q: Pose
      ensures mix(p, q, 0.0) == p && mix(p, q, 1.0) == q
    {
      LerpEnds(p.position, q.position);
    }
    forall p: Pose, q: Pose, a, b, c | 0.0 <= a <= 1.0 && 0.0 <= b <= 1.0 && 0.0 <= c <= 1.0
      ensures mix(mix(p, q, a), mix(p, q, b), c) == mix(p, q, Part(a, b, c))
    {
      LerpOfLerps(p.position, q.position, a, b, c);
    }
  }

  function Positions(s: Track): (r: seq<Timed<Vec>>)
    ensures |r| == |s| && forall i :: 0 <= i < |s| ==> r[i] == Timed(s[i].t, s[i].p.position)
  {
    seq(|s|, i requires 0 <= i < |s| => Timed(s[i].t, s[i].p.position))
  }

  /** The position of an interpolated pose does not depend on how orientations are blended. */
  lemma PositionAt(slerp: Slerp, s: Track, t: nat)
    requires Covers(s, t) && Increasing(s)
    ensures Covers(Positions(s), t)
    ensures At(MixPose(slerp), s, t).position == At(Lerp, Positions(s), t)
  {
    hide Lerp, Fraction;
    if |s| > 1 {
      SegmentHolds(s, t);
      SegmentHolds(Positions(s), t);
      assert Segment(s, t) == Segment(Positions(s), t);
    }
  }

  lemma {:induction false} BetweenPositions(s: Track, a: nat, e: nat)
    ensures Positions(Between(s, a, e)) == Between(Positions(s), a, e)
  {
    if |s| > 0 {
      BetweenPositions(s[..|s| - 1], a, e);
      assert Positions(s)[..|s| - 1] == Positions(s[..|s| - 1]);
    }
  }

  lemma PiecePositions(slerp: Slerp, s: Track, start: nat, last: nat)
    requires Increasing(s) && Covers(s, start) && Covers(s, last)
    ensures Covers(Positions(s), start) && Covers(Positions(s), last)
    ensures Positions(Piece(MixPose(slerp), s, start, last)) == Piece(Lerp, Positions(s), start, last)
  {
    hide At, Lerp, MixPose, Between, Increasing;
    PositionAt(slerp, s, start);
    PositionAt(slerp, s, last);
    BetweenPositions(s, start, last);
    PositionsOfFramed(Timed(start, At(MixPose(slerp), s, start)), Between(s, start, last),
        Timed(last, At(MixPose(slerp), s, last)));
  }

  lemma PositionsOfFramed(x: Timed<Pose>, f: Track, y: Timed<Pose>)
    ensures Positions([x] + f + [y]) == [Timed(x.t, x.p.position)] + Positions(f) + [Timed(y.t, y.p.position)]
  {
  }

  /** Clipping a trajectory clips its positions. */
  lemma ClipPositions(slerp: Slerp, s: Track, a: nat, b: nat)
    requires Increasing(s) && a <= b
    ensures ClipOf(MixPose(slerp), s, a, b).Ok?
    ensures Ok(Positions(ClipOf(MixPose(slerp), s, a, b).value)) == ClipOf(Lerp, Positions(s), a, b)
  {
    hide ClipOf, Piece, Lerp, MixPose, Increasing;
    if a < b && |s| > 0 && s[0].t < b && a <= s[|s| - 1].t {
      ClipForm(MixPose(slerp), s, a, b);
      SameTimes(s);
      ClipForm(Lerp, Positions(s), a, b);
      PiecePositions(slerp, s, Max(a, s[0].t), Min(b - 1, s[|s| - 1].t));
    } else {
      NothingClipped(MixPose(slerp), s, a, b);
      NothingClipped(Lerp, Positions(s), a, b);
    }
  }

  lemma NothingClipped<P>(mix: (P, P, real) -> P, s: seq<Timed<P>>, a: nat, b: nat)
    requires a <= b && !(a < b && |s| > 0 && s[0].t < b && a <= s[|s| - 1].t)
    ensures ClipOf(mix, s, a, b) == Ok([])
  {
    hide Interpolate;
  }

  /** Positions survive clipping, whatever the blending of orientations does. */
  lemma ClipKeepsPositions(slerp: Slerp, s: Track, a: nat, b: nat, t: nat)
    requires Increasing(s) && a <= b && Covers(s, t) && a <= t < b
    ensures var r := ClipOf(MixPose(slerp), s, a, b);
            && r.Ok? && Increasing(r.value) && Covers(r.value, t)
            && At(MixPose(slerp), r.value, t).position == At(MixPose(slerp), s, t).position
  {
    hide ClipOf, At, Lerp, MixPose, Geodesic;
    LerpGeodesic();
    ClipPositions(slerp, s, a, b);
    var c := ClipOf(MixPose(slerp), s, a, b).value;
    ClipPreservesCurve(Lerp, Positions(s), a, b);
    PositionAt(slerp, s, t);
    assert Covers(Positions(c), t) && Increasing(Positions(c));
    SameTimes(c);
    PositionAt(slerp, c, t);
  }

  lemma SameTimes(c: Track)
    ensures Increasing(Positions(c)) <==> Increasing(c)
    ensures forall t: nat :: Covers(Positions(c), t) <==> Covers(c, t)
  {
    if Increasing(Positions(c)) {
      assert forall i :: 0 <= i < |c| ==> Positions(c)[i].t == c[i].t;
    }
  }

  const SAME: (Vec, Vec) -> bool := (p: Vec, q: Vec) => p == q

  /** Two clips that share their boundary time share the boundary pose, so their append succeeds. */
  lemma RejoinAppends(slerp: Slerp, sqrt: real -> real, s: Track, a: nat, m: nat, b: nat)
    requires IsSqrt(sqrt) && Increasing(s) && Covers(s, m) && a <= m < b
    ensures ClipOf(MixPose(slerp), s, a, m + 1).Ok? && ClipOf(MixPose(slerp), s, m, b).Ok?
    ensures var mix := MixPose(slerp);
            var x, y := ClipOf(mix, s, a, m + 1).value, ClipOf(mix, s, m, b).value;
            var r := AppendOf(PosesClose(sqrt), x, y);
            r.Ok? && Ok(Positions(r.value)) == AppendOf(SAME, Positions(x), Positions(y))
  {
    hide At, MixPose, ClipOf, PosesClose, Between;
    var mix := MixPose(slerp);
    ClipForm(mix, s, a, m + 1);
    ClipForm(mix, s, m, b);
    var x, y := ClipOf(mix, s, a, m + 1).value, ClipOf(mix, s, m, b).value;
    assert x[|x| - 1] == Timed(m, At(mix, s, m)) == y[0];
    PosesCloseReflexive(sqrt);
    assert Positions(x + y[1..]) == Positions(x) + Positions(y)[1..];
  }

  /** Positions survive cutting a clip in two and appending the halves, and the append always succeeds. */
  lemma RejoinKeepsPositions(slerp: Slerp, sqrt: real -> real, s: Track, a: nat, m: nat, b: nat, t: nat)
    requires IsSqrt(sqrt) && Increasing(s) && Covers(s, m) && a <= m < b && Covers(s, t) && a <= t < b
    ensures ClipOf(MixPose(slerp), s, a, m + 1).Ok? && ClipOf(MixPose(slerp), s, m, b).Ok?
    ensures var mix := MixPose(slerp);
            var r := AppendOf(PosesClose(sqrt), ClipOf(mix, s, a, m + 1).value, ClipOf(mix, s, m, b).value);
            && r.Ok? && Increasing(r.value) && Covers(r.value, t)
            && At(mix, r.value, t).position == At(mix, s, t).position
  {
    hide At, Lerp, MixPose, Geodesic, ClipOf, AppendOf, PosesClose, Increasing;
    var mix, p := MixPose(slerp), Positions(s);
    ClipPositions(slerp, s, a, m + 1);
    ClipPositions(slerp, s, m, b);
    RejoinAppends(slerp, sqrt, s, a, m, b);
    var j := AppendOf(PosesClose(sqrt), ClipOf(mix, s, a, m + 1).value, ClipOf(mix, s, m, b).value).value;
    LerpGeodesic();
    SameTimes(s);
    ClipsRejoinAt(Lerp, SAME, p, a, m, b, t);
    SameTimes(j);
    PositionAt(slerp, j, t);
    PositionAt(slerp, s, t);
  }

  // ----- appending with a joint that is only close

  /** Moving one end of a segment moves its points by no more. */
  lemma LerpShift(sqrt: real -> real, a: Vec, c: Vec, b: Vec, f: real)
    requires IsSqrt(sqrt) && 0.0 <= f <= 1.0
    ensures Dist(sqrt, Lerp(a, b, f), Lerp(c, b, f)) <= Dist(sqrt, a, c)
  {
    hide *;
    var p, q, s, l := Lerp(a, b, f), Lerp(c, b, f), 1.0 - f, Dist(sqrt, a, c);
    LerpShiftSq(a, c, b, f);
    DistBasics(sqrt, a, c);
    DistBasics(sqrt, p, q);
    SameRoot(s, l, DistSq(a, c), Dist(sqrt, p, q), DistSq(p, q));
    ShareOf(s, l);
  }

  lemma ShareOf(s: real, l: real)
    requires 0.0 <= s <= 1.0 && l >= 0.0
    ensures s * l <= l
  {
    Product(1.0 - s, l, (1.0 - s) * l);
    assert (1.0 - s) * l == l - s * l;
  }

  lemma LerpShiftSq(a: Vec, c: Vec, b: Vec, f: real)
    ensures DistSq(Lerp(a, b, f), Lerp(c, b, f)) == ((1.0 - f) * (1.0 - f)) * DistSq(a, c)
  {
    hide Dot, Mix;
    var k, d := 1.0 - f, Sub(a, c);
    MixShift(a.x, c.x, b.x, f, k, d.x);
    MixShift(a.y, c.y, b.y, f, k, d.y);
    MixShift(a.z, c.z, b.z, f, k, d.z);
    assert Sub(Lerp(a, b, f), Lerp(c, b, f)) == Scale(k, d);
    ScaledSquare(k, d);
  }

  lemma MixShift(a: real, c: real, b: real, f: real, k: real, d: real)
    requires k == 1.0 - f && d == a - c
    ensures Mix(a, b, f) - Mix(c, b, f) == k * d
  {
  }

  lemma CloseIsNear(sqrt: real -> real, p: Pose, q: Pose)
    requires IsSqrt(sqrt) && PosesClose(sqrt)(p, q)
    ensures Dist(sqrt, p.position, q.position) < JOINT
  {
    hide Dot;
  }

  lemma SamePlace(sqrt: real -> real, p: Vec)
    requires IsSqrt(sqrt)
    ensures Dist(sqrt, p, p) == 0.0
  {
    hide DistSq;
    DistBasics(sqrt, p, p);
  }

  /** Which piece of a trajectory with at least two poses holds `t`. */
  lemma PieceOf(s: seq<Timed<Vec>>, t: nat) returns (i: nat)
    requires Increasing(s) && |s| >= 2 && Covers(s, t)
    ensures i + 1 < |s| && s[i].t <= t <= s[i + 1].t
  {
    SegmentHolds(s, t);
    i := Segment(s, t);
  }

  lemma FractionInUnit(t: int, a: int, b: int)
    requires a <= t <= b && a < b
    ensures 0.0 <= Fraction(t, a, b) <= 1.0
  {
    FractionOfPart(t, a, b, a, b);
  }

  /** When every position of one curve is the other's, but for a first one nearby, so is every point between. */
  lemma NearlySameCurve(sqrt: real -> real, j: seq<Timed<Vec>>, d: nat, y: seq<Timed<Vec>>, t: nat)
    requires IsSqrt(sqrt) && Increasing(j) && Increasing(y) && |y| > 0 && d + |y| == |j| && Covers(y, t)
    requires j[d].t == y[0].t && Dist(sqrt, j[d].p, y[0].p) < JOINT && forall i :: 1 <= i < |y| ==> j[d + i] == y[i]
    ensures Covers(j, t) && Dist(sqrt, At(Lerp, j, t), At(Lerp, y, t)) < JOINT
  {
    hide At, Lerp, Dist, IsSqrt, Fraction;
    LerpMeetsEnds();
    if |y| == 1 {
      AtKnot(Lerp, j, d);
      AtKnot(Lerp, y, 0);
    } else {
      var i := PieceOf(y, t);
      assert j[d + i].t == y[i].t && j[d + i + 1] == y[i + 1];
      AtOnSegment(Lerp, j, d + i, t);
      AtOnSegment(Lerp, y, i, t);
      var f := Fraction(t, y[i].t, y[i + 1].t);
      FractionInUnit(t, y[i].t, y[i + 1].t);
      if i == 0 {
        LerpShift(sqrt, j[d].p, y[0].p, y[1].p, f);
      } else {
        SamePlace(sqrt, Lerp(y[i].p, y[i + 1].p, f));
      }
    }
  }

  lemma LerpMeetsEnds()
    ensures MeetsEnds(Lerp)
  {
    LerpGeodesic();
  }

  /** Appending moves no position of the second trajectory by more than the joint's tolerance, and none of the first. */
  lemma AppendShiftsLittle(slerp: Slerp, sqrt: real -> real, x: Track, y: Track, t: nat)
    requires IsSqrt(sqrt) && Increasing(x) && Increasing(y) && |x| > 0 && |y| > 0 && Covers(y, t)
    requires AppendOf(PosesClose(sqrt), x, y).Ok?
    ensures var mix, j := MixPose(slerp), AppendOf(PosesClose(sqrt), x, y).value;
            Covers(j, t) && Dist(sqrt, At(mix, j, t).position, At(mix, y, t).position) < JOINT
  {
    hide At, MixPose, PosesClose, IsSqrt, Dist, Lerp;
    var j, d := AppendShape(PosesClose(sqrt), x, y);
    SameTimes(j);
    SameTimes(y);
    if x[|x| - 1].t == y[0].t {
      CloseIsNear(sqrt, x[|x| - 1].p, y[0].p);
    } else {
      SamePlace(sqrt, y[0].p.position);
    }
    NearlySameCurve(sqrt, Positions(j), d, Positions(y), t);
    PositionAt(slerp, j, t);
    PositionAt(slerp, y, t);
  }

  /** Two poses half the tolerance apart: they append, and the second trajectory's only position moves. */
  lemma CloseJointMoves(slerp: Slerp, sqrt: real -> real)
    requires IsSqrt(sqrt)
    ensures var x, y := [Timed(0, Pose(ZERO, ONE))], [Timed(0, Pose(Vec(JOINT / 2.0, 0.0, 0.0), ONE))];
            && AppendOf(PosesClose(sqrt), x, y) == Ok(x)
            && At(MixPose(slerp), x, 0).position != At(MixPose(slerp), y, 0).position
  {
    hide Dist, IsSqrt;
    var x, y := [Timed(0, Pose(ZERO, ONE))], [Timed(0, Pose(Vec(JOINT / 2.0, 0.0, 0.0), ONE))];
    AxisDist(sqrt, ZERO, y[0].p.position, JOINT / 2.0);
    NormOfDifference(sqrt, ZERO, y[0].p.position);
    assert x + y[1..] == x;
    assert At(MixPose(slerp), x, 0) == x[0].p && At(MixPose(slerp), y, 0) == y[0].p;
  }

  lemma NormOfDifference(sqrt: real -> real, a: Vec, b: Vec)
    ensures Norm(sqrt, Sub(a, b)) == Dist(sqrt, a, b)
  {
  }

  // ----- transforms

  function TransformOf(s: Track, x: Pose, isRelative: bool): Track {
    seq(|s|, i requires 0 <= i < |s| =>
      Timed(s[i].t, if isRelative then Compose(s[i].p, x) else Compose(x, s[i].p)))
  }

  /**
   * A transform keeps the timestamps; a relative one happens before the pose, in the frame that moves, and an
   * absolute one after it, in the world.
   */
  lemma TransformActs(s: Track, x: Pose, isRelative: bool, i: nat, v: Vec)
    requires i < |s|
    ensures var r := TransformOf(s, x, isRelative);
            && |r| == |s| && r[i].t == s[i].t
            && Act(r[i].p, v) == if isRelative then Act(s[i].p, Act(x, v)) else Act(x, Act(s[i].p, v))
  {
    hide Act, Compose;
    ActCompose(s[i].p, x, v);
    ActCompose(x, s[i].p, v);
  }

  /** A relative turn on the spot moves no position, and composes the turns. */
  lemma RelativeTurnStays(s: Track, x: Pose, i: nat)
    requires i < |s| && x.position == ZERO
    ensures var p := TransformOf(s, x, true)[i].p;
            p.position == s[i].p.position && p.quaternion == QMul(s[i].p.quaternion, x.quaternion)
  {
    hide Rotate, QMul;
    RotateZero(s[i].p.quaternion);
  }

  /** Transforming by a pose and then by its inverse restores the trajectory, on either side. */
  lemma TransformBack(s: Track, x: Pose, isRelative: bool)
    requires Unit(x.quaternion)
    ensures TransformOf(TransformOf(s, x, isRelative), Inv(x), isRelative) == s
  {
    hide Compose, Inv, Unit;
    InvIsInverse(x);
    forall i | 0 <= i < |s|
      ensures Compose(Compose(s[i].p, x), Inv(x)) == s[i].p == Compose(Inv(x), Compose(x, s[i].p))
    {
      ComposeAssoc(s[i].p, x, Inv(x));
      ComposeAssoc(Inv(x), x, s[i].p);
      ComposeIdentity(s[i].p);
    }
  }

  /** Between two knots a position has gone the part of the way that the time has, and is on it. */
  lemma PositionIsPartWay(slerp: Slerp, s: Track, j: nat, t: nat)
    requires Increasing(s) && j + 1 < |s| && s[j].t <= t <= s[j + 1].t
    ensures Covers(s, t)
    ensures var a, b, v := s[j].p.position, s[j + 1].p.position, At(MixPose(slerp), s, t).position;
            Scale((s[j + 1].t - s[j].t) as real, Sub(v, a)) == Scale((t - s[j].t) as real, Sub(b, a))
  {
    hide Lerp, At, Fraction;
    SameTimes(s);
    LerpMeetsEnds();
    AtOnSegment(Lerp, Positions(s), j, t);
    assert s[0].t <= s[j].t && s[j + 1].t <= s[|s| - 1].t;
    PositionAt(slerp, s, t);
    var n, m, f := (s[j + 1].t - s[j].t) as real, (t - s[j].t) as real, Fraction(t, s[j].t, s[j + 1].t);
    FractionTimes(t, s[j].t, s[j + 1].t);
    PartWay(s[j].p.position, s[j + 1].p.position, f, n, m);
  }

  lemma FractionTimes(t: nat, t0: nat, t1: nat)
    requires t0 <= t <= t1 && t0 < t1
    ensures (t1 - t0) as real * Fraction(t, t0, t1) == (t - t0) as real
  {
  }

  lemma PartWay(a: Vec, b: Vec, f: real, n: real, m: real)
    requires n * f == m
    ensures Scale(n, Sub(Lerp(a, b, f), a)) == Scale(m, Sub(b, a))
  {
    ThreeFactors(n, f, b.x - a.x);
    ThreeFactors(n, f, b.y - a.y);
    ThreeFactors(n, f, b.z - a.z);
  }

  lemma ThreeFactors(n: real, f: real, d: real)
    ensures n * (f * d) == (n * f) * d
  {
  }

  /** What counts as the same pose at a joint: positions nearer than 1e-5, and each quaternion component as well. */
  lemma CloseExactlyWhen(sqrt: real -> real, p: Pose, q: Pose)
    requires IsSqrt(sqrt)
    ensures PosesClose(sqrt)(p, q) <==>
            && Dist(sqrt, p.position, q.position) < 0.00001
            && -0.00001 < p.quaternion.x - q.quaternion.x < 0.00001
            && -0.00001 < p.quaternion.y - q.quaternion.y < 0.00001
            && -0.00001 < p.quaternion.z - q.quaternion.z < 0.00001
            && -0.00001 < p.quaternion.w - q.quaternion.w < 0.00001
    ensures PosesClose(sqrt)(p, q) <==> PosesClose(sqrt)(q, p)
  {
    hide Norm, Dist, Sub, IsSqrt, Dot;
    NormOfDifference(sqrt, p.position, q.position);
    NormOfDifference(sqrt, q.position, p.position);
    DistBasics(sqrt, p.position, q.position);
  }

  /** Interpolating positions commutes with a transform applied on the left. */
  lemma TransformMovesCurve(slerp: Slerp, s: Track, x: Pose, t: nat)
    requires Increasing(s) && Covers(s, t)
    ensures var r := TransformOf(s, x, false);
            && Increasing(r) && Covers(r, t)
            && At(MixPose(slerp), r, t).position == Act(x, At(MixPose(slerp), s, t).position)
  {
    hide Lerp, Fraction, QMul, Rotate;
    var r := TransformOf(s, x, false);
    assert forall i :: 0 <= i < |s| ==> r[i].t == s[i].t && r[i].p.position == Act(x, s[i].p.position);
    if |s| > 1 {
      SegmentHolds(s, t);
      SegmentHolds(r, t);
      var i := Segment(s, t);
      assert Segment(r, t) == i;
      ActLerp(x, s[i].p.position, s[i + 1].p.position, Fraction(t, s[i].t, s[i + 1].t));
    }
  }

  /** `interpolate_delta`: the end pose as seen from the start pose. */
  function Delta(mix: (Pose, Pose, real) -> Pose, s: Track, a: nat, b: nat): Result<Pose, Error> {
    match Interpolate(mix, s, a)
    case Err(e) => Err(e)
    case Ok(start) =>
      match Interpolate(mix, s, b)
      case Err(e) => Err(e)
      case Ok(end) => Ok(Compose(Inv(start), end))
  }

  /** There is a delta exactly between covered times, and it leads from the start pose to the end pose. */
  lemma DeltaLeads(mix: (Pose, Pose, real) -> Pose, s: Track, a: nat, b: nat)
    requires Covers(s, a) ==> Unit(At(mix, s, a).quaternion)
    ensures Delta(mix, s, a, b).Ok? <==> Covers(s, a) && Covers(s, b)
    ensures Delta(mix, s, a, b).Ok? ==> Compose(At(mix, s, a), Delta(mix, s, a, b).value) == At(mix, s, b)
  {
    hide At, Interpolate, Compose, Inv, Unit;
    InterpolateCovered(mix, s, a);
    InterpolateCovered(mix, s, b);
    if Covers(s, a) && Covers(s, b) {
      var start, end := At(mix, s, a), At(mix, s, b);
      InvIsInverse(start);
      ComposeAssoc(start, Inv(start), end);
      ComposeIdentity(end);
    }
  }

  lemma DeltasCompose(mix: (Pose, Pose, real) -> Pose, s: Track, a: nat, b: nat, c: nat)
    requires Covers(s, a) && Covers(s, b) && Covers(s, c) && Unit(At(mix, s, b).quaternion)
    ensures Delta(mix, s, a, b).Ok? && Delta(mix, s, b, c).Ok? && Delta(mix, s, a, c).Ok?
    ensures Compose(Delta(mix, s, a, b).value, Delta(mix, s, b, c).value) == Delta(mix, s, a, c).value
  {
    hide At, Interpolate, Compose, Inv, Unit;
    InterpolateCovered(mix, s, a);
    InterpolateCovered(mix, s, b);
    InterpolateCovered(mix, s, c);
    DeltasChain(At(mix, s, a), At(mix, s, b), At(mix, s, c));
  }

  // ----- building and updating

  function Zipped(ts: seq<nat>, ps: seq<Pose>): Track
    requires |ts| == |ps|
  {
    seq(|ts|, i requires 0 <= i < |ts| => Timed(ts[i], ps[i]))
  }

  /** `from_poses` compares neighbours only, and so accepts exactly the strictly increasing timestamps. */
  method FromPoses(ts: seq<nat>, ps: seq<Pose>) returns (r: Result<Track, Error>)
    ensures r == Err(BadIndex) <==> |ts| != |ps|
    ensures r.Ok? <==> |ts| == |ps| && forall i, j :: 0 <= i < j < |ts| ==> ts[i] < ts[j]
    ensures r.Ok? ==> |r.value| == |ts| && forall i :: 0 <= i < |ts| ==> r.value[i] == Timed(ts[i], ps[i])
  {
    if |ts| != |ps| {
      return Err(BadIndex);
    }
    var i := 1;
    while i < |ts|
      invariant 1 <= i && (i <= |ts| || |ts| == 0)
      invariant forall k, l :: 0 <= k < l < i && l < |ts| ==> ts[k] < ts[l]
    {
      if ts[i] <= ts[i - 1] {
        return Err(NotIncreasing);
      }
      i := i + 1;
    }
    return Ok(Zipped(ts, ps));
  }

  /** `interpolate`: one pose for each target, or an error when some target is out of range. */
  method InterpolateMany(mix: (Pose, Pose, real) -> Pose, s: Track, targets: seq<nat>) returns (r: Result<Track, Error>)
    requires Increasing(s)
    ensures r == Err(EmptyTrajectory) <==> |s| == 0
    ensures r.Ok? <==> |s| > 0 && forall k :: 0 <= k < |targets| ==> Covers(s, targets[k])
    ensures r.Ok? ==>
              && |r.value| == |targets|
              && forall k :: 0 <= k < |targets| ==> r.value[k] == Timed(targets[k], At(mix, s, targets[k]))
    ensures r.Ok? ==> (Increasing(r.value) <==> forall k, l :: 0 <= k < l < |targets| ==> targets[k] < targets[l])
  {
    hide Interpolate, At;
    if |s| == 0 {
      return Err(EmptyTrajectory);
    }
    var out: Track := [];
    for i := 0 to |targets|
      invariant |out| == i
      invariant forall k :: 0 <= k < i ==> Covers(s, targets[k]) && out[k] == Timed(targets[k], At(mix, s, targets[k]))
    {
      InterpolateCovered(mix, s, targets[i]);
      var p := Interpolate(mix, s, targets[i]);
      if p.Err? {
        return Err(p.error);
      }
      out := out + [Timed(targets[i], p.value)];
    }
    assert forall k :: 0 <= k < |targets| ==> out[k].t == targets[k];
    return Ok(out);
  }

  class Trajectory {
    var poses: Track

    ghost predicate Valid()
      reads this
    {
      Increasing(poses)
    }

    constructor (first: nat, pose: Pose)
      ensures Valid() && poses == [Timed(first, pose)]
    {
      poses := [Timed(first, pose)];
    }

    method UpdateAbsolute(t: nat, pose: Pose) returns (r: Result<(), Error>)
      requires Valid()
      modifies this
      ensures Valid()
      ensures r.Ok? <==> old(|poses| == 0 || poses[|poses| - 1].t < t)
      ensures poses == if r.Ok? then old(poses) + [Timed(t, pose)] else old(poses)
    {
      if |poses| > 0 && t <= poses[|poses| - 1].t {
        return Err(NotIncreasing);
      }
      poses := poses + [Timed(t, pose)];
      return Ok(());
    }

    method UpdateRelative(t: nat, delta: Pose) returns (r: Result<(), Error>)
      requires Valid()
      modifies this
      ensures Valid()
      ensures r.Ok? <==> old(|poses| > 0 && poses[|poses| - 1].t < t)
      ensures poses == if r.Ok? then old(poses) + [Timed(t, Compose(old(poses[|poses| - 1].p), delta))] else old(poses)
    {
      if |poses| == 0 {
        return Err(EmptyTrajectory);
      }
      r := UpdateAbsolute(t, Compose(poses[|poses| - 1].p, delta));
    }

    /** A negative index counts from the end. */
    method SetPose(idx: int, pose: Pose) returns (r: Result<(), Error>)
      requires Valid()
      modifies this
      ensures Valid()
      ensures r.Ok? <==> -old(|poses|) <= idx < old(|poses|)
      ensures |poses| == old(|poses|)
      ensures var k := if idx < 0 then old(|poses|) + idx else idx;
              forall i :: 0 <= i < |poses| ==>
                poses[i] == if i == k then Timed(old(poses[i].t), pose) else old(poses[i])
    {
      var k := if idx < 0 then |poses| + idx else idx;
      if k < 0 || k >= |poses| {
        return Err(BadIndex);
      }
      poses := poses[k := Timed(poses[k].t, pose)];
      return Ok(());
    }
  }
}
