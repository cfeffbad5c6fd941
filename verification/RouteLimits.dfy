/** Polylines and routes that show the limits of the promises about them. */
module RouteLimits {
  import opened Wrappers
  import opened Vectors
  import opened Poses
  import opened Arcs
  import P = Projection
  import I = Interpolators
  import opened Remainders
  import opened Routes
  import E = RouteExtension

  // ----- axis-aligned polylines

  /** A vehicle at the first waypoint has the whole route ahead of it. */
  lemma WholeRouteAhead(sqrt: real -> real, pts: seq<Vec>)
    requires IsSqrt(sqrt) && |pts| >= 3 && Gap(sqrt, pts, 0) >= P.DEGENERATE
    ensures RemainingOf(sqrt, pts, pts[0]) == pts
  {
    hide Dist, IsSqrt, P.Nearest, P.ProjectToSegment;
    var p := pts[0];
    StartsOnSegment(sqrt, pts[0], pts[1]);
    var k := P.Nearest(sqrt, pts, p, |pts| - 1);
    P.FootOnSegment(sqrt, p, pts[k], pts[k + 1]);
    DistBasics(sqrt, p, P.FootOf(sqrt, pts, p, k).point);
    assert P.FootOf(sqrt, pts, p, 0).distance == 0.0 <= P.FootOf(sqrt, pts, p, k).distance;
    assert Cut(pts, 0, pts[0]) == pts;
  }

  lemma StartsOnSegment(sqrt: real -> real, a: Vec, b: Vec)
    requires IsSqrt(sqrt) && Dist(sqrt, a, b) >= P.DEGENERATE
    ensures P.ProjectToSegment(sqrt, a, a, b) == P.Foot(a, 0.0, 0.0)
  {
    hide Dist, IsSqrt, Dot;
    P.NormIsDist(sqrt, a, b);
    assert Sub(a, a) == ZERO;
    var dir := Scale(1.0 / Norm(sqrt, Sub(b, a)), Sub(b, a));
    ZeroDot(dir);
    SelfDist(sqrt, a);
  }

  lemma ZeroDot(v: Vec)
    ensures Dot(ZERO, v) == 0.0 && forall a: Vec :: Add(a, Scale(0.0, v)) == a
  {
  }

  lemma InIdentityRig(v: Vec)
    ensures InRig(IDENTITY, v) == Flatten(v)
  {
    hide Rotate;
    ConjOne();
    RotateZero(ONE);
    RotateOne(v);
    assert Inv(IDENTITY) == IDENTITY;
  }

  /** A point sampled strictly inside a segment is a sample of that segment. */
  lemma InsideSample(sqrt: real -> real, pts: seq<Vec>, j: nat, d: real, v: Vec)
    requires IsSqrt(sqrt) && |pts| >= 2 && j + 1 < |pts| && I.Answers(sqrt, pts, d, v)
    requires ArcLength(sqrt, pts, j) < d < ArcLength(sqrt, pts, j + 1)
    ensures v == SampleSegment(sqrt, pts, j, d)
  {
    hide ArcLength, IsSqrt, SampleSegment;
    var k :| I.Samples(sqrt, pts, k, d, v);
    if k < j {
      ArcLengthMonotone(sqrt, pts, k + 1, j);
    } else if j < k {
      ArcLengthMonotone(sqrt, pts, j + 1, k);
    }
  }

  /** The generated route, for a vehicle at the origin, where the samples lie strictly inside segments. */
  lemma SampledInside(sqrt: real -> real, pts: seq<Vec>, whole: seq<Vec>, i: nat, j: nat)
    requires IsSqrt(sqrt) && |pts| >= 3 && pts[0] == ZERO && Gap(sqrt, pts, 0) >= P.DEGENERATE
    requires i < |whole| && IsRoute(sqrt, pts, IDENTITY, 0, whole)
    requires j + 1 < |pts| && ArcLength(sqrt, pts, j) < Multiple(i, SPACING) < ArcLength(sqrt, pts, j + 1)
    ensures whole[i] == Flatten(SampleSegment(sqrt, pts, j, Multiple(i, SPACING)))
  {
    hide ArcLength, IsSqrt, SampleSegment, I.Answers, InRig, Sees, Multiple, RemainingOf, Flatten, Gap;
    WholeRouteAhead(sqrt, pts);
    assert IsRoutePoint(sqrt, pts, IDENTITY, Multiple(0 + i, SPACING), whole[i]);
    var u :| I.Answers(sqrt, pts, Multiple(i, SPACING), u) && Sees(IDENTITY, u, whole[i]);
    SeenOnce(IDENTITY, u, whole[i]);
    InsideSample(sqrt, pts, j, Multiple(i, SPACING), u);
    InIdentityRig(u);
  }

  lemma CountUpTo(n: nat, total: real, m: nat)
    requires m < n && Multiple(m, SPACING) <= total
    ensures |SampleDistances(n, SPACING, total)| > m
  {
    hide Multiple;
    NextMultiple(0);
    SampleDistancesGrid(n, SPACING, total);
    var k := |SampleDistances(n, SPACING, total)|;
    if k <= m {
      MultiplesOrder(k, m, SPACING);
    }
  }

  lemma FirstMultiples()
    ensures Multiple(0, SPACING) == 0.0 && Multiple(1, SPACING) == SPACING && Multiple(2, SPACING) == 2.0 * SPACING
    ensures Multiple(3, SPACING) == 3.0 * SPACING
  {
  }

  // ----- a point close to the end

  /** A point of a segment is its own foot. */
  lemma FootOfItself(sqrt: real -> real, a: Vec, b: Vec, s: real)
    requires IsSqrt(sqrt) && Dist(sqrt, a, b) >= P.DEGENERATE && 0.0 <= s <= 1.0
    ensures P.ProjectToSegment(sqrt, Lerp(a, b, s), a, b).point == Lerp(a, b, s)
  {
    hide *;
    var p := Lerp(a, b, s);
    P.NormIsDist(sqrt, a, b);
    P.SafeIfLong(sqrt, p, a, b);
    P.SafeFootIsClosest(sqrt, p, a, b, s);
    P.FootOnSegment(sqrt, p, a, b);
    DistBasics(sqrt, p, p);
    DistBasics(sqrt, p, P.ProjectToSegment(sqrt, p, a, b).point);
  }

  /** A metre, and a point half a tolerance before its end. */
  function Metre(): seq<Vec> {
    [ZERO, Vec(1.0, 0.0, 0.0)]
  }

  function NearEnd(): Vec {
    Vec(1.0 - ON_LAST / 2.0, 0.0, 0.0)
  }

  lemma NearEndProjects(sqrt: real -> real)
    requires IsSqrt(sqrt)
    ensures var r := P.ProjectOf(sqrt, Metre(), NearEnd()); r.point == NearEnd() && r.segment == 0
    ensures Dist(sqrt, NearEnd(), Metre()[1]) == ON_LAST / 2.0 && Dist(sqrt, ZERO, Metre()[1]) == 1.0
  {
    hide Dist, IsSqrt, P.ProjectToSegment;
    AxisDist(sqrt, ZERO, Metre()[1], 1.0);
    AxisDist(sqrt, NearEnd(), Metre()[1], ON_LAST / 2.0);
    FootOfItself(sqrt, ZERO, Metre()[1], 1.0 - ON_LAST / 2.0);
    assert NearEnd() == Lerp(ZERO, Metre()[1], 1.0 - ON_LAST / 2.0);
  }

  /** There the rest of the way is dropped. */
  lemma SnapLosesLength(sqrt: real -> real)
    requires IsSqrt(sqrt)
    ensures var pts, p := Metre(), NearEnd();
            && RemainingOf(sqrt, pts, p) == [pts[1]]
            && Total(sqrt, pts) - (DistanceToProjection(sqrt, pts, p) + Total(sqrt, RemainingOf(sqrt, pts, p)))
               == ON_LAST / 2.0
  {
    hide Dist, IsSqrt, DistanceToProjection, P.ProjectOf, ArcLength, PastEnd;
    var pts, p := Metre(), NearEnd();
    NearEndProjects(sqrt);
    NotPastEnd(sqrt, pts, p);
    LeftOnLast(sqrt, pts, p);
    LengthAtStart(sqrt, [pts[1]]);
  }

  lemma NotPastEnd(sqrt: real -> real, pts: seq<Vec>, p: Vec)
    requires pts == Metre() && p == NearEnd() && Dist(sqrt, pts[0], pts[1]) == 1.0
    ensures !PastEnd(sqrt, pts, p)
  {
    hide Dist;
  }

  // ----- a short segment

  /** Half as long as it takes to be projected onto, and a point at its end: the projection is its start. */
  lemma ShortSegmentMisses(sqrt: real -> real)
    requires IsSqrt(sqrt)
    ensures var pts := [ZERO, Vec(P.DEGENERATE / 2.0, 0.0, 0.0)];
            !P.IsGlobal(sqrt, pts, pts[1], P.ProjectOf(sqrt, pts, pts[1]).point)
  {
    hide Dist, IsSqrt, Lerp, Norm;
    var pts := [ZERO, Vec(P.DEGENERATE / 2.0, 0.0, 0.0)];
    AxisDist(sqrt, pts[0], pts[1], P.DEGENERATE / 2.0);
    P.NormIsDist(sqrt, pts[0], pts[1]);
    DistBasics(sqrt, pts[0], pts[1]);
    DistBasics(sqrt, pts[1], pts[1]);
    LerpEnds(pts[0], pts[1]);
    assert P.ProjectOf(sqrt, pts, pts[1]).point == pts[0];
    assert P.PointOf(pts, 0, 1.0) == pts[1];
  }

  // ----- a tiny segment inside a route

  /** A straight route whose second segment is half of TINY long, around the first spacing. */
  function Stretched(): seq<Vec> {
    [ZERO, Vec(SPACING - TINY / 4.0, 0.0, 0.0), Vec(SPACING + TINY / 4.0, 0.0, 0.0), Vec(3.0 * SPACING, 0.0, 0.0)]
  }

  lemma StretchedLengths(sqrt: real -> real)
    requires IsSqrt(sqrt)
    ensures var pts := Stretched();
            && Gap(sqrt, pts, 0) == SPACING - TINY / 4.0 && Gap(sqrt, pts, 1) == TINY / 2.0
            && Gap(sqrt, pts, 2) == 2.0 * SPACING - TINY / 4.0
            && ArcLength(sqrt, pts, 0) == 0.0 && ArcLength(sqrt, pts, 1) == SPACING - TINY / 4.0
            && ArcLength(sqrt, pts, 2) == SPACING + TINY / 4.0
            && ArcLength(sqrt, pts, 3) == 3.0 * SPACING == Total(sqrt, pts)
  {
    hide Dist, IsSqrt;
    var pts := Stretched();
    AxisDist(sqrt, pts[0], pts[1], SPACING - TINY / 4.0);
    AxisDist(sqrt, pts[1], pts[2], TINY / 2.0);
    AxisDist(sqrt, pts[2], pts[3], 2.0 * SPACING - TINY / 4.0);
    I.SegmentLength(sqrt, pts, 0);
    I.SegmentLength(sqrt, pts, 1);
    I.SegmentLength(sqrt, pts, 2);
  }

  /** On such a route, two consecutive points are farther apart than the spacing. */
  lemma TinySegmentStretches(sqrt: real -> real, whole: seq<Vec>)
    requires IsSqrt(sqrt) && IsRoute(sqrt, Stretched(), IDENTITY, 0, whole)
    requires |whole| == SampleCount(sqrt, RemainingOf(sqrt, Stretched(), IDENTITY.position))
    ensures |whole| > 2 && Gap(sqrt, whole, 1) > SPACING
  {
    hide ArcLength, IsSqrt, SampleSegment, IsRoute, Multiple, RemainingOf, Dist, SampleDistances;
    var pts := Stretched();
    StretchedLengths(sqrt);
    FirstMultiples();
    WholeRouteAhead(sqrt, pts);
    CountUpTo(NUM_WAYPOINTS, 3.0 * SPACING, 2);
    SampledInside(sqrt, pts, whole, 1, 1);
    SampledInside(sqrt, pts, whole, 2, 2);
    StretchedSamples(sqrt);
    AxisDist(sqrt, whole[1], whole[2], SPACING + TINY / 4.0);
  }

  lemma StretchedSamples(sqrt: real -> real)
    requires IsSqrt(sqrt)
    ensures Flatten(SampleSegment(sqrt, Stretched(), 1, SPACING)) == Vec(SPACING - TINY / 4.0, 0.0, 0.0)
    ensures Flatten(SampleSegment(sqrt, Stretched(), 2, 2.0 * SPACING)) == Vec(2.0 * SPACING, 0.0, 0.0)
  {
    hide ArcLength, IsSqrt;
    StretchedLengths(sqrt);
  }

  // ----- a bend

  /** Straight ahead for one and a half spacings, and then as far to the left. */
  function Bent(): seq<Vec> {
    [ZERO, Vec(1.5 * SPACING, 0.0, 0.0), Vec(1.5 * SPACING, 1.5 * SPACING, 0.0)]
  }

  lemma BentLengths(sqrt: real -> real)
    requires IsSqrt(sqrt)
    ensures var pts := Bent();
            && Gap(sqrt, pts, 0) == 1.5 * SPACING && Gap(sqrt, pts, 1) == 1.5 * SPACING
            && ArcLength(sqrt, pts, 0) == 0.0 && ArcLength(sqrt, pts, 1) == 1.5 * SPACING
            && ArcLength(sqrt, pts, 2) == 3.0 * SPACING == Total(sqrt, pts)
  {
    hide Dist, IsSqrt;
    var pts := Bent();
    AxisDist(sqrt, pts[0], pts[1], 1.5 * SPACING);
    AxisDist(sqrt, pts[1], pts[2], 1.5 * SPACING);
    I.SegmentLength(sqrt, pts, 0);
    I.SegmentLength(sqrt, pts, 1);
  }

  lemma BentSamples(sqrt: real -> real)
    requires IsSqrt(sqrt)
    ensures Flatten(SampleSegment(sqrt, Bent(), 0, SPACING)) == Vec(SPACING, 0.0, 0.0)
    ensures Flatten(SampleSegment(sqrt, Bent(), 1, 2.0 * SPACING)) == Vec(1.5 * SPACING, 0.5 * SPACING, 0.0)
  {
    hide ArcLength, IsSqrt;
    BentLengths(sqrt);
  }

  /** The chord across the bend. */
  lemma BentChord(sqrt: real -> real)
    requires IsSqrt(sqrt)
    ensures Dist(sqrt, Vec(SPACING, 0.0, 0.0), Vec(1.5 * SPACING, 0.5 * SPACING, 0.0)) < MIN_DIST
  {
    var u, v := Vec(SPACING, 0.0, 0.0), Vec(1.5 * SPACING, 0.5 * SPACING, 0.0);
    var l := Dist(sqrt, u, v);
    assert DistSq(u, v) < MIN_DIST * MIN_DIST;
    hide DistSq;
    DistBasics(sqrt, u, v);
    Squares(MIN_DIST, l);
  }

  /** A stored route with a right angle is cut at the bend. */
  lemma BentRouteIsCut(sqrt: real -> real, whole: seq<Vec>)
    requires IsSqrt(sqrt) && IsRoute(sqrt, Bent(), IDENTITY, 0, whole)
    requires |whole| == SampleCount(sqrt, RemainingOf(sqrt, Bent(), IDENTITY.position))
    ensures Thinned(sqrt, Bent(), DOWNSAMPLE_MIN) == Bent()
    ensures KeptForPolicy(sqrt, whole) <= 2 < |whole|
  {
    hide ArcLength, IsSqrt, SampleSegment, IsRoute, Multiple, RemainingOf, Dist, SampleDistances, Thinned,
      KeptForPolicy;
    var pts := Bent();
    BentLengths(sqrt);
    ThinnedKeepsApart(sqrt, pts, DOWNSAMPLE_MIN);
    FirstMultiples();
    WholeRouteAhead(sqrt, pts);
    CountUpTo(NUM_WAYPOINTS, 3.0 * SPACING, 2);
    SampledInside(sqrt, pts, whole, 1, 0);
    SampledInside(sqrt, pts, whole, 2, 1);
    BentSamples(sqrt);
    BentChord(sqrt);
    PolicyRows(sqrt, whole);
    assert !ValidGap(sqrt, whole, 1);
  }

  // ----- extending a route

  /** Two metres in two segments, and what lies far ahead on the same line. */
  function TwoMetres(): seq<Vec> {
    [ZERO, Vec(1.0, 0.0, 0.0), Vec(2.0, 0.0, 0.0)]
  }

  function Far(): seq<Vec> {
    [Vec(100.0, 0.0, 0.0)]
  }

  lemma AheadOfStart(sqrt: real -> real)
    requires IsSqrt(sqrt)
    ensures RemainingOf(sqrt, TwoMetres(), ZERO) == TwoMetres() && E.Ahead(sqrt, TwoMetres(), ZERO) == 2.0
    ensures E.Ahead(sqrt, TwoMetres() + Far(), ZERO) == 100.0
  {
    hide Dist, IsSqrt, RemainingOf, ArcLength;
    var pts, longer := TwoMetres(), TwoMetres() + Far();
    AxisDist(sqrt, pts[0], pts[1], 1.0);
    AxisDist(sqrt, pts[1], pts[2], 1.0);
    AxisDist(sqrt, longer[2], longer[3], 98.0);
    WholeRouteAhead(sqrt, pts);
    WholeRouteAhead(sqrt, longer);
    I.SegmentLength(sqrt, pts, 0);
    I.SegmentLength(sqrt, pts, 1);
    I.SegmentLength(sqrt, longer, 0);
    I.SegmentLength(sqrt, longer, 1);
    I.SegmentLength(sqrt, longer, 2);
  }

  /** An entry without waypoints hides the ones after it. */
  lemma EmptyEntryStops(sqrt: real -> real)
    requires IsSqrt(sqrt)
    ensures E.Ensured(sqrt, TwoMetres(), [[], Far()], ZERO) == E.Outcome(TwoMetres(), [Far()], None)
    ensures E.Ahead(sqrt, TwoMetres(), ZERO) < LOOKAHEAD <= E.Ahead(sqrt, TwoMetres() + Far(), ZERO)
  {
    hide RemainingOf, TwoMetres, Far, IsSqrt, E.Ahead;
    AheadOfStart(sqrt);
    SomeAhead();
    assert [[], Far()][1..] == [Far()];
  }

  lemma SomeAhead()
    ensures TwoMetres() != []
  {
  }

  /** A vehicle past the end of its route gets no more of it, though there is more. */
  lemma NothingAddedPastEnd(sqrt: real -> real)
    requires IsSqrt(sqrt)
    ensures var p := Vec(2.0, 0.0, 0.0);
            && E.Ensured(sqrt, Metre(), [Far()], p) == E.Outcome(Metre(), [Far()], None)
            && RemainingOf(sqrt, Metre(), p) == []
            && E.Ahead(sqrt, Metre() + Far(), p) >= LOOKAHEAD
  {
    hide Dist, IsSqrt, P.ProjectOf, ArcLength;
    var p, longer := Vec(2.0, 0.0, 0.0), Metre() + Far();
    AxisDist(sqrt, ZERO, Metre()[1], 1.0);
    MetreIsPast(sqrt);
    OneSegment(sqrt, p);
    FarProjects(sqrt);
    AxisDist(sqrt, p, longer[2], 98.0);
    FarIsAhead(sqrt);
  }

  lemma OneSegment(sqrt: real -> real, p: Vec)
    ensures P.ProjectOf(sqrt, Metre(), p).segment == 0
  {
  }

  lemma MetreIsPast(sqrt: real -> real)
    requires Dist(sqrt, ZERO, Metre()[1]) == 1.0
    ensures PastEnd(sqrt, Metre(), Vec(2.0, 0.0, 0.0))
  {
    hide Dist;
  }

  /** The vehicle is on the second segment. */
  lemma FarProjects(sqrt: real -> real)
    requires IsSqrt(sqrt)
    ensures var r := P.ProjectOf(sqrt, Metre() + Far(), Vec(2.0, 0.0, 0.0));
            r.point == Vec(2.0, 0.0, 0.0) && r.segment == 1
  {
    hide Dist, IsSqrt, P.ProjectToSegment;
    FootOnFirst(sqrt);
    FootOnSecond(sqrt);
    var k := P.Nearest(sqrt, Metre() + Far(), Vec(2.0, 0.0, 0.0), 2);
    assert k == 1;
  }

  lemma FootOnFirst(sqrt: real -> real)
    requires IsSqrt(sqrt)
    ensures P.FootOf(sqrt, Metre() + Far(), Vec(2.0, 0.0, 0.0), 0).distance > 0.0
  {
    hide Dist, IsSqrt, P.ProjectToSegment, P.FootFraction, Lerp;
    var a, b, p := ZERO, Vec(1.0, 0.0, 0.0), Vec(2.0, 0.0, 0.0);
    P.FootOnSegment(sqrt, p, a, b);
    DistBasics(sqrt, p, P.ProjectToSegment(sqrt, p, a, b).point);
    NotOnFirst(P.FootFraction(sqrt, p, a, b));
  }

  lemma FootOnSecond(sqrt: real -> real)
    requires IsSqrt(sqrt)
    ensures var foot := P.FootOf(sqrt, Metre() + Far(), Vec(2.0, 0.0, 0.0), 1);
            foot.point == Vec(2.0, 0.0, 0.0) && foot.distance == 0.0
  {
    hide Dist, IsSqrt, P.ProjectToSegment, P.FootFraction, Lerp;
    var a, b, p := Vec(1.0, 0.0, 0.0), Vec(100.0, 0.0, 0.0), Vec(2.0, 0.0, 0.0);
    AxisDist(sqrt, a, b, 99.0);
    OnSecond();
    FootOfItself(sqrt, a, b, 1.0 / 99.0);
    P.FootOnSegment(sqrt, p, a, b);
    DistBasics(sqrt, p, p);
  }

  lemma OnSecond()
    ensures Lerp(Vec(1.0, 0.0, 0.0), Vec(100.0, 0.0, 0.0), 1.0 / 99.0) == Vec(2.0, 0.0, 0.0)
  {
  }

  lemma NotOnFirst(f: real)
    requires 0.0 <= f <= 1.0
    ensures Lerp(ZERO, Vec(1.0, 0.0, 0.0), f) != Vec(2.0, 0.0, 0.0)
  {
  }

  lemma FarIsAhead(sqrt: real -> real)
    requires IsSqrt(sqrt) && Dist(sqrt, Vec(2.0, 0.0, 0.0), Vec(100.0, 0.0, 0.0)) == 98.0
    requires var r := P.ProjectOf(sqrt, Metre() + Far(), Vec(2.0, 0.0, 0.0));
             r.point == Vec(2.0, 0.0, 0.0) && r.segment == 1
    ensures E.Ahead(sqrt, Metre() + Far(), Vec(2.0, 0.0, 0.0)) == 98.0
  {
    hide Dist, IsSqrt, P.ProjectOf, ArcLength, PastEnd;
    NotPastFar(sqrt);
    I.SegmentLength(sqrt, [Vec(2.0, 0.0, 0.0), Vec(100.0, 0.0, 0.0)], 0);
  }

  lemma NotPastFar(sqrt: real -> real)
    requires IsSqrt(sqrt)
    ensures !PastEnd(sqrt, Metre() + Far(), Vec(2.0, 0.0, 0.0))
  {
    hide Dist, IsSqrt;
    AxisDist(sqrt, Vec(1.0, 0.0, 0.0), Vec(100.0, 0.0, 0.0), 99.0);
  }
}
