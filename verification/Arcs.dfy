/**
 Arc length along a polyline and the two interpolators by arc length
 (src/utils_rs/src/polyline.rs).

 ArcFrom is the reference: walk from a waypoint, spending the distance segment by segment.
 */
module Arcs {
  import opened Vectors

  const TINY: real := 0.0000000001

  function Gap(sqrt: real -> real, pts: seq<Vec>, i: nat): real
    requires i + 1 < |pts|
  {
    Dist(sqrt, pts[i], pts[i + 1])
  }

  // ----- cumulative lengths

  /** Length of the polyline up to waypoint `k`. */
  function ArcLength(sqrt: real -> real, pts: seq<Vec>, k: nat): real
    requires k < |pts|
  {
    if k == 0 then 0.0 else ArcLength(sqrt, pts, k - 1) + Gap(sqrt, pts, k - 1)
  }

  function ArcLengths(sqrt: real -> real, pts: seq<Vec>): (r: seq<real>)
    ensures |r| == if |pts| == 0 then 1 else |pts|
    ensures forall k :: 0 <= k < |pts| ==> r[k] == ArcLength(sqrt, pts, k)
  {
    if |pts| == 0 then [0.0] else seq(|pts|, k requires 0 <= k < |pts| => ArcLength(sqrt, pts, k))
  }

  function Total(sqrt: real -> real, pts: seq<Vec>): real {
    if |pts| == 0 then 0.0 else ArcLength(sqrt, pts, |pts| - 1)
  }

  /** `arc_lengths_impl`: a running sum over the segment lengths. */
  method CumulativeLengths(sqrt: real -> real, pts: seq<Vec>) returns (r: seq<real>)
    ensures r == ArcLengths(sqrt, pts)
  {
    hide Dist, ArcLength;
    ArcLengthSteps(sqrt, pts, 0);
    if |pts| < 2 {
      return [0.0];
    }
    r := [0.0];
    var cumsum := 0.0;
    for i := 0 to |pts| - 1
      invariant |r| == i + 1 && cumsum == ArcLength(sqrt, pts, i)
      invariant forall k :: 0 <= k <= i ==> r[k] == ArcLength(sqrt, pts, k)
    {
      ArcLengthSteps(sqrt, pts, i);
      cumsum := cumsum + Dist(sqrt, pts[i], pts[i + 1]);
      r := r + [cumsum];
    }
  }

  lemma ArcLengthSteps(sqrt: real -> real, pts: seq<Vec>, i: nat)
    ensures |pts| > 0 ==> ArcLength(sqrt, pts, 0) == 0.0
    ensures i + 1 < |pts| ==> ArcLength(sqrt, pts, i + 1) == ArcLength(sqrt, pts, i) + Dist(sqrt, pts[i], pts[i + 1])
  {
    hide Dist;
  }

  lemma GapNonNegative(sqrt: real -> real, pts: seq<Vec>, i: nat)
    requires IsSqrt(sqrt) && i + 1 < |pts|
    ensures Gap(sqrt, pts, i) >= 0.0
    ensures Gap(sqrt, pts, i) == 0.0 <==> pts[i] == pts[i + 1]
  {
    hide DistSq;
    DistBasics(sqrt, pts[i], pts[i + 1]);
  }

  lemma {:induction false} ArcLengthMonotone(sqrt: real -> real, pts: seq<Vec>, i: nat, j: nat)
    requires IsSqrt(sqrt) && i <= j < |pts|
    ensures ArcLength(sqrt, pts, i) <= ArcLength(sqrt, pts, j)
    decreases j
  {
    hide Gap;
    if i < j {
      ArcLengthMonotone(sqrt, pts, i, j - 1);
      GapNonNegative(sqrt, pts, j - 1);
    }
  }

  // ----- the reference

  /** The point `x` metres after waypoint `j`, stopping at the last waypoint. */
  function ArcFrom(sqrt: real -> real, pts: seq<Vec>, j: nat, x: real): Vec
    requires j < |pts|
    decreases |pts| - j
  {
    if j == |pts| - 1 || x <= 0.0 then pts[j]
    else if x < Gap(sqrt, pts, j) then Lerp(pts[j], pts[j + 1], x / Gap(sqrt, pts, j))
    else ArcFrom(sqrt, pts, j + 1, x - Gap(sqrt, pts, j))
  }

  function ArcPoint(sqrt: real -> real, pts: seq<Vec>, d: real): Vec
    requires |pts| > 0
  {
    ArcFrom(sqrt, pts, 0, d)
  }

  lemma {:induction false} ArcSkip(sqrt: real -> real, pts: seq<Vec>, j: nat, x: real)
    requires IsSqrt(sqrt) && j < |pts| && x >= 0.0
    ensures ArcPoint(sqrt, pts, ArcLength(sqrt, pts, j) + x) == ArcFrom(sqrt, pts, j, x)
  {
    hide Gap, Lerp;
    if j > 0 {
      var g := Gap(sqrt, pts, j - 1);
      GapNonNegative(sqrt, pts, j - 1);
      ArcSkip(sqrt, pts, j - 1, g + x);
      if g + x <= 0.0 {
        assert pts[j - 1] == pts[j];
        ArcAtStart(sqrt, pts, j);
      }
    }
  }

  lemma ArcAtStart(sqrt: real -> real, pts: seq<Vec>, j: nat)
    requires j < |pts|
    ensures ArcFrom(sqrt, pts, j, 0.0) == pts[j]
  {
  }

  /** Distance travelled along the polyline bounds distance in space. */
  lemma {:induction false} ArcLipschitz(sqrt: real -> real, pts: seq<Vec>, j: nat, x: real, y: real)
    requires IsSqrt(sqrt) && j < |pts| && 0.0 <= x <= y
    ensures Dist(sqrt, ArcFrom(sqrt, pts, j, x), ArcFrom(sqrt, pts, j, y)) <= y - x
    decreases |pts| - j
  {
    hide Gap, Lerp, Dist, IsSqrt;
    if j == |pts| - 1 || x == y {
      SelfDist(sqrt, ArcFrom(sqrt, pts, j, x));
    } else {
      var g := Gap(sqrt, pts, j);
      GapNonNegative(sqrt, pts, j);
      if y < g {
        OnOneSegment(sqrt, pts, j, x);
        OnOneSegment(sqrt, pts, j, y);
        StepOnSegment(sqrt, pts, j, x, y);
      } else if x < g {
        OnOneSegment(sqrt, pts, j, x);
        StepOnSegment(sqrt, pts, j, x, g);
        ArcLipschitz(sqrt, pts, j + 1, 0.0, y - g);
        ArcAtStart(sqrt, pts, j + 1);
        Triangle(sqrt, ArcFrom(sqrt, pts, j, x), pts[j + 1], ArcFrom(sqrt, pts, j, y));
      } else {
        PastSegment(sqrt, pts, j, x);
        PastSegment(sqrt, pts, j, y);
        ArcLipschitz(sqrt, pts, j + 1, x - g, y - g);
      }
    }
  }

  /** Some metres into a segment the point is that far from its start, and the rest of it from its end. */
  lemma ArcPointOnSegment(sqrt: real -> real, pts: seq<Vec>, j: nat, x: real)
    requires IsSqrt(sqrt) && j + 1 < |pts| && 0.0 <= x <= Dist(sqrt, pts[j], pts[j + 1])
    ensures var p := ArcPoint(sqrt, pts, ArcLength(sqrt, pts, j) + x);
            Dist(sqrt, pts[j], p) == x && Dist(sqrt, p, pts[j + 1]) == Dist(sqrt, pts[j], pts[j + 1]) - x
  {
    if x < Dist(sqrt, pts[j], pts[j + 1]) {
      InsideSegment(sqrt, pts, j, x);
    } else {
      EndOfSegment(sqrt, pts, j);
    }
  }

  lemma InsideSegment(sqrt: real -> real, pts: seq<Vec>, j: nat, x: real)
    requires IsSqrt(sqrt) && j + 1 < |pts| && 0.0 <= x < Dist(sqrt, pts[j], pts[j + 1])
    ensures var p := ArcPoint(sqrt, pts, ArcLength(sqrt, pts, j) + x);
            Dist(sqrt, pts[j], p) == x && Dist(sqrt, p, pts[j + 1]) == Dist(sqrt, pts[j], pts[j + 1]) - x
  {
    var f := x / Gap(sqrt, pts, j);
    assert Gap(sqrt, pts, j) == Dist(sqrt, pts[j], pts[j + 1]);
    hide *;
    ArcSkip(sqrt, pts, j, x);
    OnOneSegment(sqrt, pts, j, x);
    FractionOfSegment(sqrt, pts[j], pts[j + 1], x, f);
  }

  lemma EndOfSegment(sqrt: real -> real, pts: seq<Vec>, j: nat)
    requires IsSqrt(sqrt) && j + 1 < |pts|
    ensures var g := Dist(sqrt, pts[j], pts[j + 1]); var p := ArcPoint(sqrt, pts, ArcLength(sqrt, pts, j) + g);
            Dist(sqrt, pts[j], p) == g && Dist(sqrt, p, pts[j + 1]) == 0.0
  {
    hide ArcPoint, ArcFrom, ArcLength, Dist, IsSqrt;
    NextLength(sqrt, pts, j);
    ArcSkip(sqrt, pts, j + 1, 0.0);
    ArcAtStart(sqrt, pts, j + 1);
    SelfDist(sqrt, pts[j + 1]);
  }

  lemma NextLength(sqrt: real -> real, pts: seq<Vec>, j: nat)
    requires j + 1 < |pts|
    ensures ArcLength(sqrt, pts, j + 1) == ArcLength(sqrt, pts, j) + Gap(sqrt, pts, j)
  {
    hide Gap;
  }

  lemma FractionOfSegment(sqrt: real -> real, a: Vec, b: Vec, x: real, f: real)
    requires IsSqrt(sqrt) && 0.0 <= x < Dist(sqrt, a, b) && f == x / Dist(sqrt, a, b)
    ensures Dist(sqrt, a, Lerp(a, b, f)) == x && Dist(sqrt, Lerp(a, b, f), b) == Dist(sqrt, a, b) - x
  {
    hide Lerp, Dist, IsSqrt;
    LerpEnds(a, b);
    FractionIs(x, Dist(sqrt, a, b));
    DistOnSegment(sqrt, a, b, 0.0, f);
    DistOnSegment(sqrt, a, b, f, 1.0);
  }

  lemma FractionIs(x: real, g: real)
    requires 0.0 <= x < g
    ensures 0.0 <= x / g <= 1.0 && (x / g - 0.0) * g == x && (1.0 - x / g) * g == g - x
  {
    var f := x / g;
    assert f * g == x;
    assert (1.0 - f) * g == g - f * g;
  }

  /** Before the start it is the first point, and past the end the last one. */
  lemma ArcPointBeyond(sqrt: real -> real, pts: seq<Vec>, d: real)
    requires IsSqrt(sqrt) && |pts| > 0
    ensures d <= 0.0 ==> ArcPoint(sqrt, pts, d) == pts[0]
    ensures d >= Total(sqrt, pts) ==> ArcPoint(sqrt, pts, d) == pts[|pts| - 1]
  {
    hide Gap, Lerp;
    var n := |pts| - 1;
    if d >= Total(sqrt, pts) {
      ArcSkip(sqrt, pts, n, d - ArcLength(sqrt, pts, n));
    }
  }

  lemma SelfDist(sqrt: real -> real, p: Vec)
    requires IsSqrt(sqrt)
    ensures Dist(sqrt, p, p) == 0.0
  {
    hide DistSq;
    DistBasics(sqrt, p, p);
  }

  lemma OnOneSegment(sqrt: real -> real, pts: seq<Vec>, j: nat, x: real)
    requires j + 1 < |pts| && 0.0 <= x < Gap(sqrt, pts, j)
    ensures ArcFrom(sqrt, pts, j, x) == Lerp(pts[j], pts[j + 1], x / Gap(sqrt, pts, j))
  {
    hide Gap;
    if x == 0.0 {
      LerpEnds(pts[j], pts[j + 1]);
    }
  }

  lemma PastSegment(sqrt: real -> real, pts: seq<Vec>, j: nat, x: real)
    requires IsSqrt(sqrt) && j + 1 < |pts| && Gap(sqrt, pts, j) <= x
    ensures ArcFrom(sqrt, pts, j, x) == ArcFrom(sqrt, pts, j + 1, x - Gap(sqrt, pts, j))
  {
    hide Gap;
    GapNonNegative(sqrt, pts, j);
  }

  lemma StepOnSegment(sqrt: real -> real, pts: seq<Vec>, j: nat, x: real, y: real)
    requires IsSqrt(sqrt) && j + 1 < |pts| && 0.0 <= x <= y <= Gap(sqrt, pts, j) && x < Gap(sqrt, pts, j)
    ensures var a, b, g := pts[j], pts[j + 1], Gap(sqrt, pts, j);
            && Dist(sqrt, Lerp(a, b, x / g), Lerp(a, b, y / g)) == y - x
            && (y == g ==> Lerp(a, b, y / g) == b)
  {
    var a, b, g := pts[j], pts[j + 1], Dist(sqrt, pts[j], pts[j + 1]);
    hide Lerp, Dist, IsSqrt;
    QuotientOrder(x, y, g);
    DistOnSegment(sqrt, a, b, x / g, y / g);
    LerpEnds(a, b);
  }

  lemma QuotientOrder(x: real, y: real, g: real)
    requires g > 0.0 && x <= y
    ensures x / g <= y / g && (y / g - x / g) * g == y - x
    ensures g / g == 1.0
  {
    assert (y - x) / g == y / g - x / g;
  }

  // ----- binary search

  /** The outcome of a slice's binary search: an index of an equal element, or the insertion point. */
  datatype Search = Found(i: nat) | Missing(i: nat)

  /** Every outcome the library allows; among equal elements it may return any. */
  ghost predicate IsSearch(xs: seq<real>, d: real, r: Search) {
    match r
    case Found(i) => i < |xs| && xs[i] == d
    case Missing(i) =>
      && i <= |xs|
      && (forall k :: 0 <= k < i ==> xs[k] < d)
      && (forall k :: i <= k < |xs| ==> d < xs[k])
  }

  ghost predicate Sorted(xs: seq<real>) {
    forall i, j :: 0 <= i <= j < |xs| ==> xs[i] <= xs[j]
  }

  method BinarySearch(xs: seq<real>, d: real) returns (r: Search)
    requires Sorted(xs)
    ensures IsSearch(xs, d, r)
  {
    var lo, hi := 0, |xs|;
    while lo < hi
      invariant 0 <= lo <= hi <= |xs|
      invariant forall k :: 0 <= k < lo ==> xs[k] < d
      invariant forall k :: hi <= k < |xs| ==> d < xs[k]
    {
      var mid := (lo + hi) / 2;
      if xs[mid] == d {
        return Found(mid);
      } else if xs[mid] < d {
        lo := mid + 1;
      } else {
        hi := mid;
      }
    }
    return Missing(lo);
  }

  lemma ArcLengthsSorted(sqrt: real -> real, pts: seq<Vec>)
    requires IsSqrt(sqrt)
    ensures Sorted(ArcLengths(sqrt, pts))
  {
    forall i, j | 0 <= i <= j < |pts|
      ensures ArcLength(sqrt, pts, i) <= ArcLength(sqrt, pts, j)
    {
      ArcLengthMonotone(sqrt, pts, i, j);
    }
  }

  // ----- sampling one bracket

  /** The interpolation both interpolators end with; a bracket shorter than TINY gives its start. */
  function SampleBetween(a: Vec, b: Vec, len0: real, len1: real, d: real): Vec {
    var alpha := if -TINY < len1 - len0 < TINY then 0.0 else (d - len0) / (len1 - len0);
    Lerp(a, b, alpha)
  }

  function SampleSegment(sqrt: real -> real, pts: seq<Vec>, j: nat, d: real): Vec
    requires j + 1 < |pts|
  {
    SampleBetween(pts[j], pts[j + 1], ArcLength(sqrt, pts, j), ArcLength(sqrt, pts, j + 1), d)
  }

  /** The distance a sample really answers for: a tiny segment snaps back to its start. */
  function Snapped(sqrt: real -> real, pts: seq<Vec>, j: nat, d: real): real
    requires j + 1 < |pts|
  {
    if Gap(sqrt, pts, j) < TINY then ArcLength(sqrt, pts, j) else d
  }

  ghost predicate Brackets(sqrt: real -> real, pts: seq<Vec>, j: nat, d: real) {
    j + 1 < |pts| && ArcLength(sqrt, pts, j) <= d <= ArcLength(sqrt, pts, j + 1)
  }

  lemma SampleOnArc(sqrt: real -> real, pts: seq<Vec>, j: nat, d: real)
    requires IsSqrt(sqrt) && Brackets(sqrt, pts, j, d)
    ensures SampleSegment(sqrt, pts, j, d) == ArcPoint(sqrt, pts, Snapped(sqrt, pts, j, d))
    ensures d - TINY < Snapped(sqrt, pts, j, d) <= d
    ensures 0.0 <= Snapped(sqrt, pts, j, d)
  {
    var g, x := Gap(sqrt, pts, j), d - ArcLength(sqrt, pts, j);
    assert ArcLength(sqrt, pts, j + 1) == ArcLength(sqrt, pts, j) + g;
    hide Lerp, Dist, IsSqrt, Gap, ArcPoint, ArcLength, ArcFrom;
    GapNonNegative(sqrt, pts, j);
    ArcLengthMonotone(sqrt, pts, 0, j);
    LengthAtStart(sqrt, pts);
    LerpEnds(pts[j], pts[j + 1]);
    if g < TINY {
      ArcSkip(sqrt, pts, j, 0.0);
      ArcAtStart(sqrt, pts, j);
    } else {
      ArcSkip(sqrt, pts, j, x);
      if x < g {
        OnOneSegment(sqrt, pts, j, x);
      } else {
        QuotientOrder(x, g, g);
        PastSegment(sqrt, pts, j, x);
        ArcAtStart(sqrt, pts, j + 1);
      }
    }
  }

  lemma LengthAtStart(sqrt: real -> real, pts: seq<Vec>)
    ensures |pts| > 0 ==> ArcLength(sqrt, pts, 0) == 0.0
  {
  }
}
