/**
 The part of a polyline after a projected point, and sampling along it
 (src/utils_rs/src/polyline.rs).
 */
module Remainders {
  import opened Wrappers
  import opened Vectors
  import opened Projection
  import opened Arcs
  import I = Interpolators

  const ON_LAST: real := 0.0000000001
  const OVERSHOOT: real := 0.000001

  /** Whether `p` lies past the end of the last segment, measured along its direction. */
  predicate PastEnd(sqrt: real -> real, pts: seq<Vec>, p: Vec)
    requires |pts| > 1
  {
    var last, second := pts[|pts| - 1], pts[|pts| - 2];
    var len := Dist(sqrt, second, last);
    len > 0.0 && Dot(Sub(p, second), Scale(1.0 / len, Sub(last, second))) > len + OVERSHOOT
  }

  /**
   * A point `k` metres past the end along the last segment, and aside from there by `n`, is past the end
   * exactly when `k` is more than a micrometre.
   */
  lemma PastEndExactlyWhen(sqrt: real -> real, pts: seq<Vec>, k: real, n: Vec)
    requires IsSqrt(sqrt) && |pts| > 1 && Dist(sqrt, pts[|pts| - 2], pts[|pts| - 1]) > 0.0
    requires Dot(n, Sub(pts[|pts| - 1], pts[|pts| - 2])) == 0.0
    ensures var a, b := pts[|pts| - 2], pts[|pts| - 1];
            var ahead := Scale(k, Scale(1.0 / Dist(sqrt, a, b), Sub(b, a)));
            PastEnd(sqrt, pts, Add(Add(b, ahead), n)) <==> k > 0.000001
  {
    var a, b := pts[|pts| - 2], pts[|pts| - 1];
    var v, len := Sub(b, a), Dist(sqrt, a, b);
    DistBasics(sqrt, a, b);
    DistBasics(sqrt, b, a);
    assert DistSq(b, a) == Dot(v, v);
    hide Dist, IsSqrt;
    UnitAlong(v, len, k, n);
    var u := Scale(1.0 / len, v);
    assert Sub(Add(Add(b, Scale(k, u)), n), a) == Add(Add(v, Scale(k, u)), n);
  }

  lemma UnitAlong(v: Vec, len: real, k: real, n: Vec)
    requires len > 0.0 && Dot(v, v) == len * len && Dot(n, v) == 0.0
    ensures var u := Scale(1.0 / len, v); Dot(Add(Add(v, Scale(k, u)), n), u) == len + k
  {
    var i := 1.0 / len;
    var u := Scale(i, v);
    assert i * len == 1.0;
    DotOfSum(v, Scale(k, u), n, u);
    DotScaled(v, i, v);
    DotScaled(n, i, v);
    DotScaled(Scale(k, u), i, v);
    DotScaled(v, k, u);
    DotSwap(Scale(k, u), v);
    assert i * (len * len) == (i * len) * len;
    assert i * (k * len) == k * (i * len);
    hide Dot, Add, Scale;
  }

  lemma DotOfSum(a: Vec, b: Vec, c: Vec, u: Vec)
    ensures Dot(Add(Add(a, b), c), u) == Dot(a, u) + Dot(b, u) + Dot(c, u)
  {
  }

  lemma DotScaled(a: Vec, k: real, b: Vec)
    ensures Dot(a, Scale(k, b)) == k * Dot(a, b)
  {
  }

  lemma DotSwap(a: Vec, b: Vec)
    ensures Dot(a, b) == Dot(b, a)
  {
  }

  /** What is left of the polyline from point `q` of segment `j` on. */
  function Cut(pts: seq<Vec>, j: nat, q: Vec): seq<Vec>
    requires j + 1 < |pts|
  {
    [q] + pts[j + 1..]
  }

  function RemainingOf(sqrt: real -> real, pts: seq<Vec>, p: Vec): seq<Vec> {
    if |pts| == 0 then []
    else if |pts| == 1 then [pts[0]]
    else
      var r := ProjectOf(sqrt, pts, p);
      var last := pts[|pts| - 1];
      if r.segment == |pts| - 2 then
        if PastEnd(sqrt, pts, p) then []
        else if Dist(sqrt, r.point, last) < ON_LAST then [last]
        else [r.point, last]
      else if r.segment + 1 < |pts| then Cut(pts, r.segment, r.point)
      else []
  }

  function DistanceToProjection(sqrt: real -> real, pts: seq<Vec>, p: Vec): real
    requires |pts| > 0
  {
    var r := ProjectOf(sqrt, pts, p);
    if r.segment < |pts| then ArcLength(sqrt, pts, r.segment) + r.along else 0.0
  }

  // ----- cutting a polyline

  lemma {:induction false} CutTail(sqrt: real -> real, pts: seq<Vec>, j: nat, q: Vec, k: nat, x: real)
    requires IsSqrt(sqrt) && j + 1 < |pts| && 1 <= k < |pts| - j
    ensures ArcFrom(sqrt, Cut(pts, j, q), k, x) == ArcFrom(sqrt, pts, j + k, x)
    decreases |pts| - k
  {
    hide Dist, Lerp, IsSqrt;
    var c := Cut(pts, j, q);
    assert c[k] == pts[j + k] && |c| == |pts| - j;
    if k + 1 < |c| {
      assert c[k + 1] == pts[j + k + 1];
      CutTail(sqrt, pts, j, q, k + 1, x - Gap(sqrt, c, k));
    }
  }

  lemma CutGap(sqrt: real -> real, pts: seq<Vec>, j: nat, f: real, t: real)
    requires IsSqrt(sqrt) && j + 1 < |pts| && 0.0 <= f <= 1.0 && t == f * Gap(sqrt, pts, j)
    ensures Dist(sqrt, Lerp(pts[j], pts[j + 1], f), pts[j + 1]) == Gap(sqrt, pts, j) - t
    ensures 0.0 <= t <= Gap(sqrt, pts, j)
  {
    var a, b := pts[j], pts[j + 1];
    GapNonNegative(sqrt, pts, j);
    hide Lerp, Dist, IsSqrt;
    DistOnSegment(sqrt, a, b, f, 1.0);
    LerpEnds(a, b);
    PartOfLength(f, Dist(sqrt, a, b));
    Distributes(f, Dist(sqrt, a, b));
  }

  lemma Distributes(f: real, g: real)
    ensures (1.0 - f) * g == g - f * g && (f - 0.0) * g == f * g
  {
  }

  /** The fraction of the whole segment reached `x` metres after fraction `f`, which is `t` metres in. */
  lemma FractionAfter(f: real, g: real, t: real, x: real)
    requires t == f * g && 0.0 <= f <= 1.0 && 0.0 <= x < g - t
    ensures g > 0.0 && Part(f, 1.0, x / (g - t)) == (t + x) / g
  {
    var h, e := g - t, 1.0 - f;
    assert h == e * g;
    Product(e, g, h);
    FractionOfRest(x, e, g, h);
    FractionSum(f, g, t, x);
  }

  lemma FractionSum(f: real, g: real, t: real, x: real)
    requires g > 0.0 && t == f * g
    ensures (t + x) / g == f + x / g
  {
    assert t / g == f;
  }

  lemma FractionOfRest(x: real, e: real, g: real, h: real)
    requires e > 0.0 && g > 0.0 && h == e * g
    ensures h > 0.0 && (x / h) * e == x / g
  {
    Product(e, g, h);
    assert x / h == (x / g) / e;
  }

  /** A polyline cut `t` metres into segment `j` is the rest of the curve. */
  lemma CutArc(sqrt: real -> real, pts: seq<Vec>, j: nat, f: real, t: real, x: real)
    requires IsSqrt(sqrt) && j + 1 < |pts| && 0.0 <= f <= 1.0 && t == f * Gap(sqrt, pts, j) && x >= 0.0
    ensures ArcPoint(sqrt, Cut(pts, j, Lerp(pts[j], pts[j + 1], f)), x) == ArcFrom(sqrt, pts, j, t + x)
  {
    var a, b, g := pts[j], pts[j + 1], Gap(sqrt, pts, j);
    hide *;
    CutGapIs(sqrt, pts, j, f, t);
    if x < g - t {
      LerpAfter(a, b, f, g, t, x);
      CutArcNear(sqrt, pts, j, Lerp(a, b, f), t, x);
    } else {
      CutArcFar(sqrt, pts, j, Lerp(a, b, f), t, x);
    }
  }

  lemma LerpAfter(a: Vec, b: Vec, f: real, g: real, t: real, x: real)
    requires t == f * g && 0.0 <= f <= 1.0 && 0.0 <= x < g - t
    ensures g > 0.0 && Lerp(Lerp(a, b, f), b, x / (g - t)) == Lerp(a, b, (t + x) / g)
  {
    hide Lerp, Part;
    FractionAfter(f, g, t, x);
    LerpEnds(a, b);
    LerpOfLerps(a, b, f, 1.0, x / (g - t));
  }

  lemma CutArcNear(sqrt: real -> real, pts: seq<Vec>, j: nat, q: Vec, t: real, x: real)
    requires j + 1 < |pts| && Gap(sqrt, Cut(pts, j, q), 0) == Gap(sqrt, pts, j) - t
    requires 0.0 <= t && 0.0 <= x < Gap(sqrt, pts, j) - t
    requires Lerp(q, pts[j + 1], x / (Gap(sqrt, pts, j) - t)) == Lerp(pts[j], pts[j + 1], (t + x) / Gap(sqrt, pts, j))
    ensures ArcPoint(sqrt, Cut(pts, j, q), x) == ArcFrom(sqrt, pts, j, t + x)
  {
    hide Lerp, Dist, Gap, ArcFrom;
    OnOneSegment(sqrt, Cut(pts, j, q), 0, x);
    OnOneSegment(sqrt, pts, j, t + x);
  }

  lemma CutArcFar(sqrt: real -> real, pts: seq<Vec>, j: nat, q: Vec, t: real, x: real)
    requires IsSqrt(sqrt) && j + 1 < |pts| && Gap(sqrt, Cut(pts, j, q), 0) == Gap(sqrt, pts, j) - t
    requires 0.0 <= t && Gap(sqrt, pts, j) - t <= x
    ensures ArcPoint(sqrt, Cut(pts, j, q), x) == ArcFrom(sqrt, pts, j, t + x)
  {
    hide Lerp, Dist, Gap, IsSqrt, ArcFrom;
    var g := Gap(sqrt, pts, j);
    PastSegment(sqrt, Cut(pts, j, q), 0, x);
    CutTail(sqrt, pts, j, q, 1, x - (g - t));
    PastSegment(sqrt, pts, j, t + x);
    assert t + x - g == x - (g - t);
  }

  lemma CutGapIs(sqrt: real -> real, pts: seq<Vec>, j: nat, f: real, t: real)
    requires IsSqrt(sqrt) && j + 1 < |pts| && 0.0 <= f <= 1.0 && t == f * Gap(sqrt, pts, j)
    ensures Gap(sqrt, Cut(pts, j, Lerp(pts[j], pts[j + 1], f)), 0) == Gap(sqrt, pts, j) - t
    ensures 0.0 <= t <= Gap(sqrt, pts, j)
  {
    hide Lerp, Dist, IsSqrt;
    CutGap(sqrt, pts, j, f, t);
  }

  lemma {:induction false} CutLength(sqrt: real -> real, pts: seq<Vec>, j: nat, f: real, k: nat)
    requires IsSqrt(sqrt) && j + 1 < |pts| && 0.0 <= f <= 1.0 && 1 <= k < |pts| - j
    ensures ArcLength(sqrt, Cut(pts, j, Lerp(pts[j], pts[j + 1], f)), k)
            == ArcLength(sqrt, pts, j + k) - (ArcLength(sqrt, pts, j) + f * Gap(sqrt, pts, j))
    decreases k
  {
    var c := Cut(pts, j, Lerp(pts[j], pts[j + 1], f));
    hide Lerp, Dist, IsSqrt;
    if k == 1 {
      CutGapIs(sqrt, pts, j, f, f * Gap(sqrt, pts, j));
    } else {
      CutLength(sqrt, pts, j, f, k - 1);
      assert c[k - 1] == pts[j + k - 1] && c[k] == pts[j + k];
    }
  }

  // ----- the remainder

  /** The projection is on the last segment, not at its end, but so near that only the last waypoint is kept. */
  predicate SnapsToLast(sqrt: real -> real, pts: seq<Vec>, p: Vec)
    requires |pts| > 0
  {
    |pts| > 1
    && var r := ProjectOf(sqrt, pts, p);
       r.segment == |pts| - 2 && 0.0 < Dist(sqrt, r.point, pts[|pts| - 1]) < ON_LAST
  }

  lemma RemainderForm(sqrt: real -> real, pts: seq<Vec>, p: Vec)
    requires IsSqrt(sqrt) && |pts| > 1 && RemainingOf(sqrt, pts, p) != []
    ensures var r, last := ProjectOf(sqrt, pts, p), pts[|pts| - 1];
            && r.segment + 1 < |pts|
            && RemainingOf(sqrt, pts, p) ==
               if r.segment == |pts| - 2 && Dist(sqrt, r.point, last) < ON_LAST then [last]
               else Cut(pts, r.segment, r.point)
  {
    hide Dist, PastEnd, ProjectOf, IsSqrt;
    ProjectionOnPolyline(sqrt, pts, p);
    assert pts[|pts| - 1..] == [pts[|pts| - 1]];
  }

  lemma ProjectionCut(sqrt: real -> real, pts: seq<Vec>, p: Vec)
    requires IsSqrt(sqrt) && |pts| > 1
    ensures var r := ProjectOf(sqrt, pts, p);
            && r.segment + 1 < |pts|
            && var f := FootFraction(sqrt, p, pts[r.segment], pts[r.segment + 1]);
               && 0.0 <= f <= 1.0
               && r.point == Lerp(pts[r.segment], pts[r.segment + 1], f)
               && r.along == f * Gap(sqrt, pts, r.segment)
  {
    hide Dist, Lerp, ProjectOf, IsSqrt, FootFraction;
    ProjectionOnPolyline(sqrt, pts, p);
  }

  /** Nothing is left exactly of nothing, and past the end of the last segment when the projection is on it. */
  lemma NothingLeftExactlyWhen(sqrt: real -> real, pts: seq<Vec>, p: Vec)
    requires IsSqrt(sqrt)
    ensures RemainingOf(sqrt, pts, p) == [] <==>
            || |pts| == 0
            || (|pts| > 1 && ProjectOf(sqrt, pts, p).segment == |pts| - 2 && PastEnd(sqrt, pts, p))
  {
    hide Dist, PastEnd, ProjectOf, IsSqrt;
    if |pts| > 1 {
      ProjectionOnPolyline(sqrt, pts, p);
    }
  }

  /** The distance to the projection is the projection's place on the polyline, also past the end. */
  lemma DistanceIsAtProjection(sqrt: real -> real, pts: seq<Vec>, p: Vec)
    requires IsSqrt(sqrt) && |pts| > 0
    ensures ArcPoint(sqrt, pts, DistanceToProjection(sqrt, pts, p)) == ProjectOf(sqrt, pts, p).point
  {
    hide Dist, Lerp, IsSqrt, FootFraction, Gap, ArcPoint;
    if |pts| == 1 {
      ProjectionOnPoint(sqrt, pts, p);
      I.StartPoint(sqrt, pts);
    } else {
      ProjectionCut(sqrt, pts, p);
      hide ProjectOf;
      var r := ProjectOf(sqrt, pts, p);
      var j, f := r.segment, FootFraction(sqrt, p, pts[r.segment], pts[r.segment + 1]);
      CutGapIs(sqrt, pts, j, f, r.along);
      ArcSkip(sqrt, pts, j, r.along);
      CutArc(sqrt, pts, j, f, r.along, 0.0);
      I.StartPoint(sqrt, Cut(pts, j, r.point));
    }
  }

  /** Distance left on the last segment after the projection. */
  lemma LeftOnLast(sqrt: real -> real, pts: seq<Vec>, p: Vec)
    requires IsSqrt(sqrt) && |pts| > 1 && ProjectOf(sqrt, pts, p).segment == |pts| - 2
    ensures Total(sqrt, pts) - DistanceToProjection(sqrt, pts, p)
            == Dist(sqrt, ProjectOf(sqrt, pts, p).point, pts[|pts| - 1])
  {
    hide Dist, Lerp, ProjectOf, IsSqrt, FootFraction, Gap;
    var j := |pts| - 2;
    ProjectionCut(sqrt, pts, p);
    CutGap(sqrt, pts, j, FootFraction(sqrt, p, pts[j], pts[j + 1]), ProjectOf(sqrt, pts, p).along);
  }

  /** Length is conserved: distance to the projection plus the remainder is the whole length, but for a snap. */
  lemma LengthConserved(sqrt: real -> real, pts: seq<Vec>, p: Vec)
    requires IsSqrt(sqrt) && |pts| > 0 && RemainingOf(sqrt, pts, p) != []
    ensures var lost :=
            Total(sqrt, pts) - (DistanceToProjection(sqrt, pts, p) + Total(sqrt, RemainingOf(sqrt, pts, p)));
            if SnapsToLast(sqrt, pts, p) then 0.0 < lost < ON_LAST else lost == 0.0
  {
    if |pts| > 1 {
      hide Dist, Lerp, ProjectOf, IsSqrt, FootFraction, RemainingOf;
      RemainderForm(sqrt, pts, p);
      var r := ProjectOf(sqrt, pts, p);
      if r.segment == |pts| - 2 && Dist(sqrt, r.point, pts[|pts| - 1]) < ON_LAST {
        LeftOnLast(sqrt, pts, p);
        LastGapNonNegative(sqrt, r.point, pts[|pts| - 1]);
      } else {
        ConservedByCut(sqrt, pts, p);
      }
    }
  }

  lemma LastGapNonNegative(sqrt: real -> real, p: Vec, q: Vec)
    requires IsSqrt(sqrt)
    ensures Dist(sqrt, p, q) >= 0.0
    ensures Dist(sqrt, p, q) == 0.0 <==> p == q
  {
    hide DistSq;
    DistBasics(sqrt, p, q);
  }

  lemma ConservedByCut(sqrt: real -> real, pts: seq<Vec>, p: Vec)
    requires IsSqrt(sqrt) && |pts| > 1 && ProjectOf(sqrt, pts, p).segment + 1 < |pts|
    ensures var r := ProjectOf(sqrt, pts, p);
            Total(sqrt, Cut(pts, r.segment, r.point)) == Total(sqrt, pts) - DistanceToProjection(sqrt, pts, p)
  {
    hide Dist, Lerp, ProjectOf, IsSqrt, FootFraction, ArcLength, Gap;
    ProjectionCut(sqrt, pts, p);
    var j := ProjectOf(sqrt, pts, p).segment;
    CutLength(sqrt, pts, j, FootFraction(sqrt, p, pts[j], pts[j + 1]), |pts| - 1 - j);
  }

  /** The remainder is the rest of the same curve, metre for metre. */
  lemma RemainderIsRestOfCurve(sqrt: real -> real, pts: seq<Vec>, p: Vec, x: real)
    requires IsSqrt(sqrt) && |pts| > 0 && RemainingOf(sqrt, pts, p) != [] && !SnapsToLast(sqrt, pts, p) && x >= 0.0
    ensures ArcPoint(sqrt, RemainingOf(sqrt, pts, p), x) == ArcPoint(sqrt, pts, DistanceToProjection(sqrt, pts, p) + x)
  {
    if |pts| > 1 {
      hide Dist, Lerp, ProjectOf, IsSqrt, FootFraction, RemainingOf, ArcLength, ArcFrom;
      RemainderForm(sqrt, pts, p);
      var r := ProjectOf(sqrt, pts, p);
      CutPastProjection(sqrt, pts, p, x);
      if r.segment == |pts| - 2 && Dist(sqrt, r.point, pts[|pts| - 1]) < ON_LAST {
        LastGapNonNegative(sqrt, r.point, pts[|pts| - 1]);
        StuckAtEnd(sqrt, pts[|pts| - 1], x);
        assert Cut(pts, r.segment, r.point) == [pts[|pts| - 1], pts[|pts| - 1]];
      }
    }
  }

  lemma CutPastProjection(sqrt: real -> real, pts: seq<Vec>, p: Vec, x: real)
    requires IsSqrt(sqrt) && |pts| > 1 && x >= 0.0 && ProjectOf(sqrt, pts, p).segment + 1 < |pts|
    ensures var r := ProjectOf(sqrt, pts, p);
            ArcPoint(sqrt, Cut(pts, r.segment, r.point), x)
              == ArcPoint(sqrt, pts, DistanceToProjection(sqrt, pts, p) + x)
  {
    hide Dist, Lerp, ProjectOf, IsSqrt, FootFraction, ArcLength, ArcFrom, ArcPoint, Cut, Gap;
    ProjectionCut(sqrt, pts, p);
    var r := ProjectOf(sqrt, pts, p);
    var j := r.segment;
    var f := FootFraction(sqrt, p, pts[j], pts[j + 1]);
    CutGapIs(sqrt, pts, j, f, r.along);
    CutArc(sqrt, pts, j, f, r.along, x);
    ArcSkip(sqrt, pts, j, r.along + x);
    assert ArcLength(sqrt, pts, j) + (r.along + x) == DistanceToProjection(sqrt, pts, p) + x;
  }

  lemma StuckAtEnd(sqrt: real -> real, last: Vec, x: real)
    requires IsSqrt(sqrt)
    ensures ArcPoint(sqrt, [last], x) == last == ArcPoint(sqrt, [last, last], x)
  {
    hide Dist, IsSqrt;
    if x > 0.0 {
      SelfDist(sqrt, last);
      PastSegment(sqrt, [last, last], 0, x);
    }
  }

  // ----- the loops

  /** `build_remaining_points` */
  method BuildRemaining(sqrt: real -> real, pts: seq<Vec>, p: Vec) returns (r: seq<Vec>, projection: Option<Projected>)
    requires IsSqrt(sqrt)
    ensures r == RemainingOf(sqrt, pts, p)
    ensures projection == if |pts| == 0 then None else Some(ProjectOf(sqrt, pts, p))
  {
    hide Dist, ProjectOf, IsSqrt, PastEnd;
    var n := |pts|;
    if n == 0 {
      return [], None;
    }
    var projected := ProjectPoint(sqrt, pts, p);
    projection := Some(projected.value);
    if n == 1 {
      return [pts[0]], projection;
    }
    ProjectionOnPolyline(sqrt, pts, p);
    var seg, point := projected.value.segment, projected.value.point;
    r := [];
    if seg == n - 2 {
      if PastEnd(sqrt, pts, p) {
        return [], projection;
      }
      if Dist(sqrt, point, pts[n - 1]) < ON_LAST {
        r := [pts[n - 1]];
      } else {
        r := [point, pts[n - 1]];
      }
    } else {
      r := [point];
      for i := seg + 1 to n
        invariant r == [point] + pts[seg + 1..i]
      {
        r := r + [pts[i]];
      }
    }
  }

  /** `get_cumulative_distances_from_point`; on an empty polyline the projection panics. */
  method CumulativeDistancesFromPoint(sqrt: real -> real, pts: seq<Vec>, p: Vec)
    returns (r: Result<(seq<real>, real), Error>)
    requires IsSqrt(sqrt)
    ensures r.Err? <==> |pts| == 0
    ensures r.Ok? ==>
              var (cumulative, toProjection) := r.value;
              && |pts| > 0 && toProjection == DistanceToProjection(sqrt, pts, p)
              && (cumulative == [] <==> RemainingOf(sqrt, pts, p) == [])
              && (cumulative != [] ==> cumulative == ArcLengths(sqrt, RemainingOf(sqrt, pts, p)))
              && (cumulative != [] && !SnapsToLast(sqrt, pts, p) ==>
                    toProjection + cumulative[|cumulative| - 1] == Total(sqrt, pts))
  {
    hide Dist, ProjectOf, IsSqrt, PastEnd, SnapsToLast, RemainingOf, ArcLength;
    var cumulative := CumulativeLengths(sqrt, pts);
    var projected := ProjectPoint(sqrt, pts, p);
    if projected.Err? {
      return Err(projected.error);
    }
    assert projected.value.segment < |pts| by {
      ProjectionInRange(sqrt, pts, p);
    }
    var toProjection := cumulative[projected.value.segment] + projected.value.along;
    var remaining, _ := BuildRemaining(sqrt, pts, p);
    if |remaining| == 0 {
      return Ok(([], toProjection));
    }
    LengthConserved(sqrt, pts, p);
    var rest := CumulativeLengths(sqrt, remaining);
    return Ok((rest, toProjection));
  }

  lemma ProjectionInRange(sqrt: real -> real, pts: seq<Vec>, p: Vec)
    requires IsSqrt(sqrt) && |pts| > 0
    ensures ProjectOf(sqrt, pts, p).segment < |pts|
  {
    if |pts| > 1 {
      ProjectionCut(sqrt, pts, p);
    }
  }

  // ----- resampling from a point

  function Multiple(k: nat, spacing: real): real {
    k as real * spacing
  }

  /** The multiples of `spacing` below `n` that do not exceed `total`. */
  function SampleDistances(n: nat, spacing: real, total: real): seq<real> {
    if n == 0 then []
    else
      var d := Multiple(n - 1, spacing);
      SampleDistances(n - 1, spacing, total) + if d <= total then [d] else []
  }

  lemma {:induction false} SampleDistancesGrid(n: nat, spacing: real, total: real)
    requires spacing >= 0.0
    ensures var ds := SampleDistances(n, spacing, total);
            && |ds| <= n
            && (forall k :: 0 <= k < |ds| ==> ds[k] == Multiple(k, spacing) && 0.0 <= ds[k] <= total)
            && (|ds| < n ==> total < Multiple(|ds|, spacing))
  {
    hide Multiple;
    if n > 0 {
      SampleDistancesGrid(n - 1, spacing, total);
      var m := |SampleDistances(n - 1, spacing, total)|;
      MultiplesOrder(m, n - 1, spacing);
      MultiplesOrder(0, n - 1, spacing);
    }
  }

  lemma MultiplesOrder(m: nat, n: nat, spacing: real)
    requires m <= n && spacing >= 0.0
    ensures Multiple(m, spacing) <= Multiple(n, spacing)
    ensures Multiple(0, spacing) == 0.0
  {
    var k := (n - m) as real;
    assert n as real * spacing - m as real * spacing == k * spacing;
    Product(k, spacing, k * spacing);
  }

  /** The direct interpolator's answers on a remainder, at every distance that fits, whatever the spacing's sign. */
  ghost predicate Resampled(sqrt: real -> real, rest: seq<Vec>, spacing: real, n: nat, r: seq<Vec>) {
    var ds := SampleDistances(n, spacing, Total(sqrt, rest));
    && |r| == (if |rest| == 0 then 0 else if |rest| == 1 then Min(|ds|, 1) else |ds|)
    && forall k :: 0 <= k < |r| ==> I.IsDirect(sqrt, rest, ds[k], r[k])
  }

  /** `resample_from_point`: point `k` is on the remainder, `k * spacing` metres in. */
  method ResampleFromPoint(sqrt: real -> real, pts: seq<Vec>, p: Vec, spacing: real, n: nat) returns (r: seq<Vec>)
    requires IsSqrt(sqrt)
    ensures |r| <= n && Resampled(sqrt, RemainingOf(sqrt, pts, p), spacing, n, r)
    ensures spacing >= 0.0 ==>
              var rest := RemainingOf(sqrt, pts, p);
              && (forall k :: 0 <= k < |r| ==> I.Answers(sqrt, rest, Multiple(k, spacing), r[k]))
              && (|rest| > 1 ==> |r| == |SampleDistances(n, spacing, Total(sqrt, rest))|)
              && (|rest| == 1 ==> |r| == if n > 0 then 1 else 0)
              && (|rest| == 0 ==> |r| == 0)
  {
    hide *;
    if |pts| == 0 {
      r := [];
      EmptyRemaining(sqrt, pts, p);
      NothingResampled(sqrt, spacing, n);
      return;
    }
    var rest, _ := BuildRemaining(sqrt, pts, p);
    if |rest| == 0 {
      NothingResampled(sqrt, spacing, n);
      return [];
    }
    var arc := CumulativeLengths(sqrt, rest);
    r := ResampleRemaining(sqrt, rest, arc, spacing, n);
  }

  lemma EmptyRemaining(sqrt: real -> real, pts: seq<Vec>, p: Vec)
    ensures |pts| == 0 ==> RemainingOf(sqrt, pts, p) == []
  {
    hide ProjectOf, PastEnd, Dist;
  }

  lemma NothingResampled(sqrt: real -> real, spacing: real, n: nat)
    ensures Resampled(sqrt, [], spacing, n, [])
  {
  }

  /** The rest of `resample_from_point`, once there is something left to sample. */
  method ResampleRemaining(sqrt: real -> real, rest: seq<Vec>, arc: seq<real>, spacing: real, n: nat)
      returns (r: seq<Vec>)
    requires IsSqrt(sqrt) && |rest| > 0 && arc == ArcLengths(sqrt, rest)
    ensures |r| <= n && Resampled(sqrt, rest, spacing, n, r)
    ensures spacing >= 0.0 ==> forall k :: 0 <= k < |r| ==> I.Answers(sqrt, rest, Multiple(k, spacing), r[k])
    ensures |rest| > 1 ==> |r| == |SampleDistances(n, spacing, Total(sqrt, rest))|
    ensures spacing >= 0.0 && |rest| == 1 ==> |r| == if n > 0 then 1 else 0
  {
    hide IsSqrt, I.Samples, ArcLength, Multiple, IsSearch, SampleDistances, I.DirectSegment, SampleBetween;
    var total := arc[|arc| - 1];
    var distances := SampleDistances(n, spacing, total);
    SampleDistancesShort(n, spacing, total);
    TotalNonNegative(sqrt, rest);
    FirstDistance(n, spacing, total);
    if spacing >= 0.0 {
      SampleDistancesGrid(n, spacing, total);
      MultiplesOrder(0, 0, spacing);
    }
    if |distances| == 0 {
      return [];
    }
    if |rest| == 1 {
      if distances[0] == 0.0 {
        r := [rest[0]];
      } else {
        r := [];
      }
      return;
    }
    ArcLengthsSorted(sqrt, rest);
    r := [];
    for k := 0 to |distances|
      invariant |r| == k
      invariant forall i :: 0 <= i < k ==> I.IsDirect(sqrt, rest, distances[i], r[i])
      invariant spacing >= 0.0 ==> forall i :: 0 <= i < k ==> I.Answers(sqrt, rest, distances[i], r[i])
    {
      var search := BinarySearch(arc, distances[k]);
      var j := I.DirectSegment(|rest|, search);
      if spacing >= 0.0 {
        I.DirectAnswers(sqrt, rest, distances[k], search);
      }
      r := r + [SampleBetween(rest[j], rest[j + 1], arc[j], arc[j + 1], distances[k])];
    }
  }

  /** The first distance, if there is any, is zero. */
  lemma {:induction false} FirstDistance(n: nat, spacing: real, total: real)
    requires total >= 0.0
    ensures var ds := SampleDistances(n, spacing, total); |ds| > 0 <==> n > 0
    ensures var ds := SampleDistances(n, spacing, total); |ds| > 0 ==> ds[0] == 0.0
  {
    if n > 1 {
      FirstDistance(n - 1, spacing, total);
    }
  }

  lemma {:induction false} SampleDistancesShort(n: nat, spacing: real, total: real)
    ensures |SampleDistances(n, spacing, total)| <= n
  {
    if n > 0 {
      SampleDistancesShort(n - 1, spacing, total);
    }
  }

  lemma TotalNonNegative(sqrt: real -> real, pts: seq<Vec>)
    requires IsSqrt(sqrt)
    ensures Total(sqrt, pts) >= 0.0
  {
    if |pts| > 0 {
      LengthAtStart(sqrt, pts);
      hide ArcLength, IsSqrt;
      ArcLengthMonotone(sqrt, pts, 0, |pts| - 1);
    }
  }
}
