/** Closest-point projection onto a polyline (src/utils_rs/src/polyline.rs). */
module Projection {
  import opened Wrappers
  import opened Vectors

  const DEGENERATE: real := 0.000001

  datatype Foot = Foot(point: Vec, along: real, distance: real)

  datatype Projected = Projected(point: Vec, segment: nat, along: real)

  datatype Error = EmptyPolyline

  function Clamp(t: real, lo: real, hi: real): real {
    if t < lo then lo else if t > hi then hi else t
  }

  /** `project_point_to_segment_impl` */
  function ProjectToSegment(sqrt: real -> real, p: Vec, a: Vec, b: Vec): Foot {
    var len := Norm(sqrt, Sub(b, a));
    if len < DEGENERATE then Foot(a, 0.0, Dist(sqrt, p, a))
    else
      var dir := Scale(1.0 / len, Sub(b, a));
      var along := Clamp(Dot(Sub(p, a), dir), 0.0, len);
      var q := Add(a, Scale(along, dir));
      Foot(q, along, Dist(sqrt, q, p))
  }

  /** Where the foot lies, as a fraction of the segment. */
  function FootFraction(sqrt: real -> real, p: Vec, a: Vec, b: Vec): real {
    var len := Norm(sqrt, Sub(b, a));
    if len < DEGENERATE then 0.0 else ProjectToSegment(sqrt, p, a, b).along / len
  }

  lemma FootOnSegment(sqrt: real -> real, p: Vec, a: Vec, b: Vec)
    requires IsSqrt(sqrt)
    ensures var f, foot := FootFraction(sqrt, p, a, b), ProjectToSegment(sqrt, p, a, b);
            && 0.0 <= f <= 1.0
            && foot.point == Lerp(a, b, f)
            && foot.along == f * Dist(sqrt, a, b)
            && foot.distance == Dist(sqrt, p, foot.point)
  {
    hide IsSqrt, Dot, Scale, Lerp;
    LerpIsAdd(a, b, FootFraction(sqrt, p, a, b));
    NormIsDist(sqrt, a, b);
    var len, foot := Norm(sqrt, Sub(b, a)), ProjectToSegment(sqrt, p, a, b);
    if len < DEGENERATE {
      LerpEnds(a, b);
    } else {
      QuotientInUnit(foot.along, len);
      ScaleScale(foot.along, len, Sub(b, a));
      DistBasics(sqrt, p, foot.point);
    }
  }

  lemma NormIsDist(sqrt: real -> real, a: Vec, b: Vec)
    requires IsSqrt(sqrt)
    ensures Norm(sqrt, Sub(b, a)) == Dist(sqrt, a, b)
  {
    hide Dot;
    DistBasics(sqrt, a, b);
  }

  lemma QuotientInUnit(t: real, len: real)
    requires 0.0 <= t <= len && len > 0.0
    ensures 0.0 <= t / len <= 1.0 && (t / len) * len == t
  {
  }

  lemma ScaleScale(t: real, len: real, v: Vec)
    requires len > 0.0
    ensures Scale(t, Scale(1.0 / len, v)) == Scale(t / len, v)
  {
    ScaleScale1(t, len, v.x);
    ScaleScale1(t, len, v.y);
    ScaleScale1(t, len, v.z);
  }

  lemma ScaleScale1(t: real, len: real, x: real)
    requires len > 0.0
    ensures t * ((1.0 / len) * x) == (t / len) * x
  {
    assert t * (1.0 / len) == t / len;
  }

  // ----- squared distance along a segment is a parabola

  function Parabola(w: real, u: real, l: real, s: real): real {
    w - 2.0 * s * u + s * s * l
  }

  lemma DistSqAlong(p: Vec, a: Vec, b: Vec, s: real)
    ensures DistSq(p, Lerp(a, b, s)) == Parabola(DistSq(p, a), Dot(Sub(p, a), Sub(b, a)), Dot(Sub(b, a), Sub(b, a)), s)
  {
    hide Dot, Lerp;
    var w, v := Sub(p, a), Sub(b, a);
    LerpIsAdd(a, b, s);
    assert Sub(p, Lerp(a, b, s)) == Add(w, Scale(-s, v));
    DotShift(w, v, s);
  }

  lemma DotShift(w: Vec, v: Vec, s: real)
    ensures Dot(Add(w, Scale(-s, v)), Add(w, Scale(-s, v))) == Parabola(Dot(w, w), Dot(w, v), Dot(v, v), s)
  {
    hide Dot;
    SquareOfSum(w, Scale(-s, v));
    ScaledSquare(-s, v);
    DotScale(w, -s, v);
    assert (-s) * (-s) == s * s;
  }

  lemma DotScale(w: Vec, k: real, v: Vec)
    ensures Dot(w, Scale(k, v)) == k * Dot(w, v)
  {
  }

  lemma ParabolaStep(w: real, u: real, l: real, f: real, s: real)
    ensures Parabola(w, u, l, s) - Parabola(w, u, l, f) == (s - f) * ((s + f) * l - 2.0 * u)
  {
  }

  /** `f` is where the unconstrained minimum lands after clamping to the segment. */
  predicate IsClampedMinimum(u: real, l: real, f: real) {
    (u <= 0.0 && f == 0.0) || (u >= l && f == 1.0) || (0.0 <= f <= 1.0 && f * l == u)
  }

  lemma ParabolaMinimum(w: real, u: real, l: real, f: real, s: real)
    requires l > 0.0 && 0.0 <= s <= 1.0 && IsClampedMinimum(u, l, f)
    ensures Parabola(w, u, l, f) <= Parabola(w, u, l, s)
  {
    var x, y := s - f, (s + f) * l - 2.0 * u;
    ParabolaStep(w, u, l, f, s);
    hide Parabola;
    if u <= 0.0 && f == 0.0 {
      Product(s, l, s * l);
    } else if u >= l && f == 1.0 {
      assert y == l + s * l - 2.0 * u;
      Product(1.0 - s, l, (1.0 - s) * l);
      assert (1.0 - s) * l == l - s * l;
    } else {
      assert f * l == u;
      assert (s + f) * l == s * l + f * l && x * l == s * l - f * l;
      Product(x, l, x * l);
    }
    Product(x, y, x * y);
  }

  /** Past the minimum and before the end, moving forward gets closer. */
  lemma ParabolaFalls(w: real, u: real, l: real) returns (s: real)
    requires l > 0.0 && u > 0.0
    ensures 0.0 <= s <= 1.0 && Parabola(w, u, l, s) < Parabola(w, u, l, 0.0)
  {
    s := if u >= l then 1.0 else u / l;
    if u < l {
      QuotientInUnit(u, l);
      Product(s, l, u);
    }
    ParabolaStep(w, u, l, 0.0, s);
    hide Parabola;
    Product(s, s * l - 2.0 * u, s * (s * l - 2.0 * u));
    assert (s - 0.0) * ((s + 0.0) * l - 2.0 * u) == s * (s * l - 2.0 * u);
  }

  // ----- one segment

  lemma ClampIsMinimum(t: real, len: real, u: real, l: real)
    requires len > 0.0 && u == t * len && l == len * len
    ensures IsClampedMinimum(u, l, Clamp(t, 0.0, len) / len)
  {
    if t < 0.0 {
      Product(t, len, u);
    } else if t > len {
      Product(t - len, len, (t - len) * len);
      assert u - l == (t - len) * len;
    } else {
      QuotientInUnit(t, len);
      assert (t / len) * l == ((t / len) * len) * len;
    }
  }

  lemma FootAtMinimum(sqrt: real -> real, p: Vec, a: Vec, b: Vec)
    requires IsSqrt(sqrt) && Norm(sqrt, Sub(b, a)) >= DEGENERATE
    ensures Dot(Sub(b, a), Sub(b, a)) > 0.0
    ensures IsClampedMinimum(Dot(Sub(p, a), Sub(b, a)), Dot(Sub(b, a), Sub(b, a)), FootFraction(sqrt, p, a, b))
  {
    var v, w := Sub(b, a), Sub(p, a);
    var len, t := Norm(sqrt, v), Dot(w, Scale(1.0 / Norm(sqrt, v), v));
    hide Dot, IsClampedMinimum, Sub, Clamp, Scale;
    DotSelf(v);
    DotScale(w, 1.0 / len, v);
    assert t * len == Dot(w, v) by {
      Unscale(Dot(w, v), len);
    }
    Product(len, len, len * len);
    ClampIsMinimum(t, len, Dot(w, v), Dot(v, v));
  }

  lemma Unscale(u: real, len: real)
    requires len > 0.0
    ensures ((1.0 / len) * u) * len == u
  {
    assert (1.0 / len) * len == 1.0;
  }

  lemma CloserIfSquaresAre(sqrt: real -> real, p: Vec, q: Vec, r: Vec)
    requires IsSqrt(sqrt)
    ensures Dist(sqrt, p, q) <= Dist(sqrt, p, r) <==> DistSq(p, q) <= DistSq(p, r)
  {
    hide DistSq;
    DistSqBasics(p, q);
    DistSqBasics(p, r);
    SqrtOrder(sqrt, DistSq(p, q), DistSq(p, r));
  }

  /** The guard of the degenerate branch, and the side of the start on which `p` lies. */
  predicate SegmentIsSafe(sqrt: real -> real, p: Vec, a: Vec, b: Vec) {
    a == b || Norm(sqrt, Sub(b, a)) >= DEGENERATE || Dot(Sub(p, a), Sub(b, a)) <= 0.0
  }

  lemma SafeFootIsClosest(sqrt: real -> real, p: Vec, a: Vec, b: Vec, s: real)
    requires IsSqrt(sqrt) && 0.0 <= s <= 1.0 && SegmentIsSafe(sqrt, p, a, b)
    ensures ProjectToSegment(sqrt, p, a, b).distance <= Dist(sqrt, p, Lerp(a, b, s))
  {
    var w, u, l := DistSq(p, a), Dot(Sub(p, a), Sub(b, a)), Dot(Sub(b, a), Sub(b, a));
    var f := FootFraction(sqrt, p, a, b);
    FootOnSegment(sqrt, p, a, b);
    hide DistSq, Dist, Dot, Sub, Lerp, ProjectToSegment, Parabola, IsSqrt;
    DistSqAlong(p, a, b, f);
    DistSqAlong(p, a, b, s);
    CloserIfSquaresAre(sqrt, p, Lerp(a, b, f), Lerp(a, b, s));
    if a == b {
      LerpOnPoint(a, f, s);
    } else {
      SelfSquare(a, b);
      if Norm(sqrt, Sub(b, a)) >= DEGENERATE {
        FootAtMinimum(sqrt, p, a, b);
      }
      ParabolaMinimum(w, u, l, f, s);
    }
  }

  lemma LerpOnPoint(a: Vec, f: real, s: real)
    ensures Lerp(a, a, f) == Lerp(a, a, s)
  {
  }

  lemma SelfSquare(a: Vec, b: Vec)
    requires a != b
    ensures Dot(Sub(b, a), Sub(b, a)) > 0.0
  {
    hide Dot;
    DotSelf(Sub(b, a));
  }

  /** The foot is a closest point of the segment exactly when the segment is safe for `p`. */
  lemma FootIsClosestExactlyWhenSafe(sqrt: real -> real, p: Vec, a: Vec, b: Vec)
    requires IsSqrt(sqrt)
    ensures SegmentIsSafe(sqrt, p, a, b) <==>
            forall s :: 0.0 <= s <= 1.0 ==> ProjectToSegment(sqrt, p, a, b).distance <= Dist(sqrt, p, Lerp(a, b, s))
  {
    if SegmentIsSafe(sqrt, p, a, b) {
      hide *;
      forall s | 0.0 <= s <= 1.0
        ensures ProjectToSegment(sqrt, p, a, b).distance <= Dist(sqrt, p, Lerp(a, b, s))
      {
        SafeFootIsClosest(sqrt, p, a, b, s);
      }
    } else {
      var s := UnsafeFootIsNot(sqrt, p, a, b);
    }
  }

  lemma UnsafeFootIsNot(sqrt: real -> real, p: Vec, a: Vec, b: Vec) returns (s: real)
    requires IsSqrt(sqrt) && !SegmentIsSafe(sqrt, p, a, b)
    ensures 0.0 <= s <= 1.0 && Dist(sqrt, p, Lerp(a, b, s)) < ProjectToSegment(sqrt, p, a, b).distance
  {
    var w, u, l := DistSq(p, a), Dot(Sub(p, a), Sub(b, a)), Dot(Sub(b, a), Sub(b, a));
    assert ProjectToSegment(sqrt, p, a, b).distance == Dist(sqrt, p, a);
    hide DistSq, Dist, Dot, Sub, Lerp, ProjectToSegment, Parabola, IsSqrt;
    SelfSquare(a, b);
    s := ParabolaFalls(w, u, l);
    LerpEnds(a, b);
    DistSqAlong(p, a, b, 0.0);
    DistSqAlong(p, a, b, s);
    CloserIfSquaresAre(sqrt, p, a, Lerp(a, b, s));
  }

  /** Without any condition the foot is less than a micrometre worse than the best point of the segment. */
  lemma FootNearlyClosest(sqrt: real -> real, p: Vec, a: Vec, b: Vec, s: real)
    requires IsSqrt(sqrt) && 0.0 <= s <= 1.0
    ensures ProjectToSegment(sqrt, p, a, b).distance < Dist(sqrt, p, Lerp(a, b, s)) + DEGENERATE
  {
    hide *;
    if Norm(sqrt, Sub(b, a)) >= DEGENERATE {
      SafeIfLong(sqrt, p, a, b);
      SafeFootIsClosest(sqrt, p, a, b, s);
      DegenerateIsPositive();
    } else {
      DegenerateFoot(sqrt, p, a, b);
      Triangle(sqrt, p, Lerp(a, b, s), a);
      WithinLength(sqrt, a, b, s);
    }
  }

  lemma WithinLength(sqrt: real -> real, a: Vec, b: Vec, s: real)
    requires IsSqrt(sqrt) && 0.0 <= s <= 1.0
    ensures Dist(sqrt, Lerp(a, b, s), a) == s * Dist(sqrt, a, b) <= Dist(sqrt, a, b)
  {
    hide *;
    LerpEnds(a, b);
    DistOnSegment(sqrt, a, b, 0.0, s);
    DistBasics(sqrt, a, Lerp(a, b, s));
    DistBasics(sqrt, a, b);
    PartOfLength(s, Dist(sqrt, a, b));
  }

  lemma DegenerateIsPositive()
    ensures DEGENERATE > 0.0
  {
  }

  lemma DegenerateFoot(sqrt: real -> real, p: Vec, a: Vec, b: Vec)
    requires IsSqrt(sqrt) && Norm(sqrt, Sub(b, a)) < DEGENERATE
    ensures ProjectToSegment(sqrt, p, a, b).distance == Dist(sqrt, p, a)
    ensures 0.0 <= Dist(sqrt, a, b) < DEGENERATE
  {
    hide Dot, IsSqrt;
    NormIsDist(sqrt, a, b);
    DistBasics(sqrt, a, b);
  }

  lemma PartOfLength(s: real, len: real)
    requires 0.0 <= s <= 1.0 && 0.0 <= len
    ensures 0.0 <= (s - 0.0) * len <= len
  {
    Product(s, len, s * len);
    Product(1.0 - s, len, (1.0 - s) * len);
    assert (1.0 - s) * len == len - s * len;
  }

  lemma SafeIfLong(sqrt: real -> real, p: Vec, a: Vec, b: Vec)
    requires Norm(sqrt, Sub(b, a)) >= DEGENERATE
    ensures SegmentIsSafe(sqrt, p, a, b)
  {
  }

  // ----- the whole polyline

  function FootOf(sqrt: real -> real, pts: seq<Vec>, p: Vec, i: nat): Foot
    requires i + 1 < |pts|
  {
    ProjectToSegment(sqrt, p, pts[i], pts[i + 1])
  }

  /** The first of the first `n` segments whose foot is nearest. */
  function Nearest(sqrt: real -> real, pts: seq<Vec>, p: Vec, n: nat): (k: nat)
    requires 1 <= n < |pts|
    ensures k < n
    ensures forall i :: 0 <= i < n ==> FootOf(sqrt, pts, p, k).distance <= FootOf(sqrt, pts, p, i).distance
    ensures forall i :: 0 <= i < k ==> FootOf(sqrt, pts, p, k).distance < FootOf(sqrt, pts, p, i).distance
  {
    if n == 1 then 0
    else
      var k := Nearest(sqrt, pts, p, n - 1);
      if FootOf(sqrt, pts, p, n - 1).distance < FootOf(sqrt, pts, p, k).distance then n - 1 else k
  }

  function ProjectOf(sqrt: real -> real, pts: seq<Vec>, p: Vec): Projected
    requires |pts| > 0
  {
    if |pts| == 1 then Projected(pts[0], 0, 0.0)
    else
      var k := Nearest(sqrt, pts, p, |pts| - 1);
      var foot := FootOf(sqrt, pts, p, k);
      Projected(foot.point, k, foot.along)
  }

  /** `project_point_impl`; its panic on an empty polyline is an error here, and its infinite start a None. */
  method ProjectPoint(sqrt: real -> real, pts: seq<Vec>, p: Vec) returns (r: Result<Projected, Error>)
    ensures r == if |pts| == 0 then Err(EmptyPolyline) else Ok(ProjectOf(sqrt, pts, p))
  {
    hide ProjectToSegment;
    var n := |pts|;
    if n == 0 {
      return Err(EmptyPolyline);
    }
    if n == 1 {
      return Ok(Projected(pts[0], 0, 0.0));
    }
    var minDistance: Option<real> := None;
    var best := Projected(pts[0], 0, 0.0);
    for i := 0 to n - 1
      invariant minDistance.None? <==> i == 0
      invariant i > 0 ==>
        var foot := FootOf(sqrt, pts, p, Nearest(sqrt, pts, p, i));
        minDistance == Some(foot.distance) && best == Projected(foot.point, Nearest(sqrt, pts, p, i), foot.along)
    {
      var foot := ProjectToSegment(sqrt, p, pts[i], pts[i + 1]);
      if minDistance.None? || foot.distance < minDistance.value {
        minDistance := Some(foot.distance);
        best := Projected(foot.point, i, foot.along);
      }
    }
    return Ok(best);
  }

  /** A polyline of one point projects everything onto it. */
  lemma ProjectionOnPoint(sqrt: real -> real, pts: seq<Vec>, p: Vec)
    requires |pts| == 1
    ensures ProjectOf(sqrt, pts, p) == Projected(pts[0], 0, 0.0)
  {
  }

  ghost predicate SafeFor(sqrt: real -> real, pts: seq<Vec>, p: Vec) {
    forall i :: 0 <= i < |pts| - 1 ==> SegmentIsSafe(sqrt, p, pts[i], pts[i + 1])
  }

  /** The projection is a point of the polyline, `along` metres into its segment. */
  lemma ProjectionOnPolyline(sqrt: real -> real, pts: seq<Vec>, p: Vec)
    requires IsSqrt(sqrt) && |pts| > 1
    ensures var r := ProjectOf(sqrt, pts, p);
            && r.segment + 1 < |pts|
            && var a, b := pts[r.segment], pts[r.segment + 1];
               var f := FootFraction(sqrt, p, a, b);
               && 0.0 <= f <= 1.0 && r.point == Lerp(a, b, f) && r.along == f * Dist(sqrt, a, b)
               && Dist(sqrt, p, r.point) == FootOf(sqrt, pts, p, r.segment).distance
  {
    hide ProjectToSegment, FootFraction, Lerp, Dist, IsSqrt;
    var k := Nearest(sqrt, pts, p, |pts| - 1);
    FootOnSegment(sqrt, p, pts[k], pts[k + 1]);
  }

  /** No point of the polyline is closer, and points of earlier segments are strictly farther. */
  lemma ProjectionIsGlobal(sqrt: real -> real, pts: seq<Vec>, p: Vec, i: nat, s: real)
    requires IsSqrt(sqrt) && SafeFor(sqrt, pts, p) && i + 1 < |pts| && 0.0 <= s <= 1.0
    ensures var r := ProjectOf(sqrt, pts, p);
            && Dist(sqrt, p, r.point) <= Dist(sqrt, p, Lerp(pts[i], pts[i + 1], s))
            && (i < r.segment ==> Dist(sqrt, p, r.point) < Dist(sqrt, p, Lerp(pts[i], pts[i + 1], s)))
  {
    hide ProjectToSegment, FootFraction, Lerp, Dist, IsSqrt, SegmentIsSafe;
    ProjectionOnPolyline(sqrt, pts, p);
    assert FootOf(sqrt, pts, p, i).distance <= Dist(sqrt, p, Lerp(pts[i], pts[i + 1], s)) by {
      SafeFootIsClosest(sqrt, p, pts[i], pts[i + 1], s);
    }
  }

  /** Segments that are zero-length or at least a micrometre long are safe for every query point. */
  lemma SafeForEveryPoint(sqrt: real -> real, pts: seq<Vec>, p: Vec)
    requires forall i :: 0 <= i < |pts| - 1 ==>
               pts[i] == pts[i + 1] || Norm(sqrt, Sub(pts[i + 1], pts[i])) >= DEGENERATE
    ensures SafeFor(sqrt, pts, p)
  {
    hide Norm, Dot, Sub;
  }

  /** On any polyline whatever, the projection is less than a micrometre worse than the best point. */
  lemma ProjectionNearlyGlobal(sqrt: real -> real, pts: seq<Vec>, p: Vec, i: nat, s: real)
    requires IsSqrt(sqrt) && i + 1 < |pts| && 0.0 <= s <= 1.0
    ensures Dist(sqrt, p, ProjectOf(sqrt, pts, p).point) < Dist(sqrt, p, Lerp(pts[i], pts[i + 1], s)) + DEGENERATE
  {
    hide ProjectToSegment, FootFraction, Lerp, Dist, IsSqrt, SegmentIsSafe;
    ProjectionOnPolyline(sqrt, pts, p);
    assert FootOf(sqrt, pts, p, i).distance < Dist(sqrt, p, Lerp(pts[i], pts[i + 1], s)) + DEGENERATE by {
      FootNearlyClosest(sqrt, p, pts[i], pts[i + 1], s);
    }
  }

  // ----- exactly when the projection is a global minimum

  /** The closest point of a segment, with no branch for short ones. */
  function ClosestFraction(p: Vec, a: Vec, b: Vec): real {
    var l := Dot(Sub(b, a), Sub(b, a));
    if l == 0.0 then 0.0 else Clamp(Dot(Sub(p, a), Sub(b, a)) / l, 0.0, 1.0)
  }

  function ClosestOn(p: Vec, a: Vec, b: Vec): Vec {
    Lerp(a, b, ClosestFraction(p, a, b))
  }

  lemma ClosestOnIsClosest(sqrt: real -> real, p: Vec, a: Vec, b: Vec, s: real)
    requires IsSqrt(sqrt) && 0.0 <= s <= 1.0
    ensures 0.0 <= ClosestFraction(p, a, b) <= 1.0
    ensures Dist(sqrt, p, ClosestOn(p, a, b)) <= Dist(sqrt, p, Lerp(a, b, s))
  {
    var w, u, l, f := DistSq(p, a), Dot(Sub(p, a), Sub(b, a)), Dot(Sub(b, a), Sub(b, a)), ClosestFraction(p, a, b);
    hide DistSq, Dist, Dot, Sub, Lerp, Parabola, IsSqrt;
    DistSqAlong(p, a, b, f);
    DistSqAlong(p, a, b, s);
    CloserIfSquaresAre(sqrt, p, Lerp(a, b, f), Lerp(a, b, s));
    if a == b {
      LerpOnPoint(a, f, s);
    } else {
      SelfSquare(a, b);
      QuotientIsMinimum(u, l);
      ParabolaMinimum(w, u, l, f, s);
    }
  }

  lemma QuotientIsMinimum(u: real, l: real)
    requires l > 0.0
    ensures IsClampedMinimum(u, l, Clamp(u / l, 0.0, 1.0))
  {
    var f := u / l;
    assert f * l == u;
    Product(f, l, u);
    Product(f - 1.0, l, (f - 1.0) * l);
    assert (f - 1.0) * l == u - l;
  }

  /** A point of the polyline, by segment and fraction. */
  function PointOf(pts: seq<Vec>, i: int, s: real): Vec
    requires 0 <= i < |pts| - 1
  {
    Lerp(pts[i], pts[i + 1], s)
  }

  /** A projection with no point of the polyline closer. */
  ghost predicate IsGlobal(sqrt: real -> real, pts: seq<Vec>, p: Vec, q: Vec) {
    forall i, s :: 0 <= i < |pts| - 1 && 0.0 <= s <= 1.0 ==> Dist(sqrt, p, q) <= Dist(sqrt, p, PointOf(pts, i, s))
  }

  predicate IsShort(sqrt: real -> real, pts: seq<Vec>, i: int)
    requires 0 <= i < |pts| - 1
  {
    Norm(sqrt, Sub(pts[i + 1], pts[i])) < DEGENERATE
  }

  /** How far the best point of a segment is. */
  function BestDist(sqrt: real -> real, pts: seq<Vec>, p: Vec, i: int): real
    requires 0 <= i < |pts| - 1
  {
    Dist(sqrt, p, ClosestOn(p, pts[i], pts[i + 1]))
  }

  /** How far the point is that a segment offers: its start when it is short, its best point otherwise. */
  function OfferedDist(sqrt: real -> real, pts: seq<Vec>, p: Vec, i: int): real
    requires 0 <= i < |pts| - 1
  {
    if IsShort(sqrt, pts, i) then Dist(sqrt, p, pts[i]) else BestDist(sqrt, pts, p, i)
  }

  /** For the best point of every short segment, some segment offers a point no farther. */
  ghost predicate ShortIsMatched(sqrt: real -> real, pts: seq<Vec>, p: Vec) {
    forall i :: 0 <= i < |pts| - 1 && IsShort(sqrt, pts, i) ==>
      exists k :: 0 <= k < |pts| - 1 && OfferedDist(sqrt, pts, p, k) <= BestDist(sqrt, pts, p, i)
  }

  lemma FootIsOffered(sqrt: real -> real, pts: seq<Vec>, p: Vec, i: nat)
    requires IsSqrt(sqrt) && i + 1 < |pts|
    ensures FootOf(sqrt, pts, p, i).distance == OfferedDist(sqrt, pts, p, i)
  {
    var a, b := pts[i], pts[i + 1];
    if IsShort(sqrt, pts, i) {
      hide Dist, Norm, IsSqrt;
      DegenerateFoot(sqrt, p, a, b);
    } else {
      hide Dist, Norm, IsSqrt, Lerp, ProjectToSegment, FootFraction, ClosestFraction, Dot, Sub;
      SafeIfLong(sqrt, p, a, b);
      FootOnSegment(sqrt, p, a, b);
      ClosestOnIsClosest(sqrt, p, a, b, FootFraction(sqrt, p, a, b));
      SafeFootIsClosest(sqrt, p, a, b, ClosestFraction(p, a, b));
    }
  }

  /** The projection is a global minimum exactly when no short segment has a point closer than all that is offered. */
  lemma GlobalExactlyWhen(sqrt: real -> real, pts: seq<Vec>, p: Vec)
    requires IsSqrt(sqrt) && |pts| > 1
    ensures IsGlobal(sqrt, pts, p, ProjectOf(sqrt, pts, p).point) <==> ShortIsMatched(sqrt, pts, p)
  {
    hide ProjectToSegment, FootFraction, Lerp, Dist, IsSqrt, ClosestFraction, Nearest, OfferedDist, IsShort;
    var r := ProjectOf(sqrt, pts, p);
    ProjectionOnPolyline(sqrt, pts, p);
    FootIsOffered(sqrt, pts, p, r.segment);
    if ShortIsMatched(sqrt, pts, p) {
      forall i, s | 0 <= i < |pts| - 1 && 0.0 <= s <= 1.0
        ensures Dist(sqrt, p, r.point) <= Dist(sqrt, p, PointOf(pts, i, s))
      {
        OffersReach(sqrt, pts, p, i);
        ClosestOnIsClosest(sqrt, p, pts[i], pts[i + 1], s);
      }
    } else {
      var i :| 0 <= i < |pts| - 1 && IsShort(sqrt, pts, i)
               && forall k :: 0 <= k < |pts| - 1 ==> OfferedDist(sqrt, pts, p, k) > BestDist(sqrt, pts, p, i);
      ClosestOnIsClosest(sqrt, p, pts[i], pts[i + 1], 0.0);
      assert Dist(sqrt, p, PointOf(pts, i, ClosestFraction(p, pts[i], pts[i + 1]))) < Dist(sqrt, p, r.point);
    }
  }

  lemma OffersReach(sqrt: real -> real, pts: seq<Vec>, p: Vec, i: nat)
    requires IsSqrt(sqrt) && ShortIsMatched(sqrt, pts, p) && i + 1 < |pts|
    ensures Dist(sqrt, p, ProjectOf(sqrt, pts, p).point) <= BestDist(sqrt, pts, p, i)
  {
    hide ProjectToSegment, FootFraction, Lerp, Dist, IsSqrt, ClosestFraction, IsShort, ClosestOn;
    ProjectionOnPolyline(sqrt, pts, p);
    var k := i;
    if IsShort(sqrt, pts, i) {
      k :| 0 <= k < |pts| - 1 && OfferedDist(sqrt, pts, p, k) <= BestDist(sqrt, pts, p, i);
    }
    FootIsOffered(sqrt, pts, p, k);
    assert FootOf(sqrt, pts, p, Nearest(sqrt, pts, p, |pts| - 1)).distance <= FootOf(sqrt, pts, p, k).distance;
  }
}
