/**
 The two ways src/utils_rs/src/polyline.rs interpolates by arc length: `positions_at`, which
 first drops waypoints with a repeated arc length, and `resample_from_point`, which does not.
 */
module Interpolators {
  import opened Wrappers
  import opened Vectors
  import opened Arcs

  datatype Error = EmptyPolyline | OutOfRange

  function Pred(i: nat): nat {
    if i == 0 then 0 else i - 1
  }

  ghost predicate NoTinySegment(sqrt: real -> real, pts: seq<Vec>) {
    forall j :: 0 <= j < |pts| - 1 ==> Gap(sqrt, pts, j) == 0.0 || Gap(sqrt, pts, j) >= TINY
  }

  // ----- without dropping duplicates

  function DirectSegment(n: nat, r: Search): (j: nat)
    requires n >= 2
    ensures j + 1 < n
  {
    var i := match r
             case Found(i) => Min(i, n - 1)
             case Missing(i) => Min(Pred(i), n - 2);
    Min(i, n - 2)
  }

  lemma DirectBrackets(sqrt: real -> real, pts: seq<Vec>, d: real, r: Search)
    requires IsSqrt(sqrt) && |pts| >= 2 && 0.0 <= d <= Total(sqrt, pts) && IsSearch(ArcLengths(sqrt, pts), d, r)
    ensures Brackets(sqrt, pts, DirectSegment(|pts|, r), d)
  {
    var j := DirectSegment(|pts|, r);
    LengthAtStart(sqrt, pts);
    hide ArcLength;
    ArcLengthMonotone(sqrt, pts, j, j + 1);
    match r {
      case Found(i) =>
        assert ArcLengths(sqrt, pts)[i] == d;
      case Missing(i) =>
        assert i > 0 ==> ArcLengths(sqrt, pts)[i - 1] < d;
        assert i < |pts| ==> d < ArcLengths(sqrt, pts)[i];
    }
  }

  // ----- dropping duplicates

  /** Indices of the entries that differ from the last one kept. */
  function Distinct(xs: seq<real>): (r: seq<nat>)
    ensures |xs| > 0 ==> |r| > 0
    ensures forall k :: 0 <= k < |r| ==> r[k] < |xs|
  {
    if |xs| == 0 then []
    else
      var d := Distinct(xs[..|xs| - 1]);
      if |d| == 0 || xs[|xs| - 1] != xs[d[|d| - 1]] then d + [|xs| - 1] else d
  }

  /** From `d[k]` up to the next kept index all entries are equal, and there the value rises. */
  ghost predicate RunAt(d: seq<nat>, xs: seq<real>, k: nat)
    requires k < |d|
  {
    var end := if k + 1 < |d| then d[k + 1] else |xs|;
    && d[k] < end <= |xs|
    && (forall i :: d[k] <= i < end ==> xs[i] == xs[d[k]])
    && (k + 1 < |d| ==> end < |xs| && xs[d[k]] < xs[end])
  }

  /** `d` cuts a sorted sequence into its maximal runs of equal entries. */
  ghost predicate Runs(d: seq<nat>, xs: seq<real>) {
    && |d| > 0 && d[0] == 0
    && forall k :: 0 <= k < |d| ==> RunAt(d, xs, k)
  }

  lemma {:induction false} DistinctRuns(xs: seq<real>)
    requires Sorted(xs) && |xs| > 0
    ensures Runs(Distinct(xs), xs)
  {
    var ys := xs[..|xs| - 1];
    if |ys| == 0 {
      assert Distinct(xs) == [0];
    } else {
      DistinctRuns(ys);
      hide Runs;
      assert ys[|ys| - 1] <= xs[|xs| - 1];
      RunsExtend(Distinct(ys), ys, xs[|xs| - 1]);
      assert xs == ys + [xs[|xs| - 1]];
    }
  }

  lemma RunsExtend(d: seq<nat>, ys: seq<real>, y: real)
    requires |ys| > 0 && Runs(d, ys) && ys[|ys| - 1] <= y
    ensures d[|d| - 1] < |ys|
    ensures Runs(if y != ys[d[|d| - 1]] then d + [|ys|] else d, ys + [y])
  {
    var xs, last := ys + [y], |d| - 1;
    assert RunAt(d, ys, last);
    assert ys[|ys| - 1] == ys[d[last]];
    var e := if y != ys[d[last]] then d + [|ys|] else d;
    forall k | 0 <= k < |e|
      ensures RunAt(e, xs, k)
    {
      if k < |d| {
        assert RunAt(d, ys, k);
      }
    }
  }

  function DedupSegment(m: nat, r: Search): nat
    requires m >= 2
  {
    match r
    case Found(i) => Min(i, m - 2)
    case Missing(i) => Min(Pred(i), m - 2)
  }

  function Picked(xs: seq<real>, d: seq<nat>): (r: seq<real>)
    requires forall k :: 0 <= k < |d| ==> d[k] < |xs|
    ensures |r| == |d| && forall k :: 0 <= k < |d| ==> r[k] == xs[d[k]]
  {
    seq(|d|, k requires 0 <= k < |d| => xs[d[k]])
  }

  /** The sample taken on the deduplicated lengths. */
  function DedupSample(sqrt: real -> real, pts: seq<Vec>, d: real, r: Search): Vec
    requires |pts| > 0
  {
    var arc := ArcLengths(sqrt, pts);
    var idx := Distinct(arc);
    if |idx| == 1 then pts[idx[0]]
    else
      var u := DedupSegment(|idx|, r);
      SampleBetween(pts[idx[u]], pts[idx[u + 1]], arc[idx[u]], arc[idx[u + 1]], d)
  }

  lemma {:induction false} SameLengthSamePoint(sqrt: real -> real, pts: seq<Vec>, i: nat, j: nat)
    requires IsSqrt(sqrt) && i <= j < |pts| && ArcLength(sqrt, pts, i) == ArcLength(sqrt, pts, j)
    ensures pts[i] == pts[j]
    decreases j
  {
    hide Gap;
    if i < j {
      GapNonNegative(sqrt, pts, j - 1);
      ArcLengthMonotone(sqrt, pts, i, j - 1);
      SameLengthSamePoint(sqrt, pts, i, j - 1);
    }
  }

  /** The segment a deduplicated sample is really taken on: the one that ends at the next kept waypoint. */
  function DedupRealSegment(sqrt: real -> real, pts: seq<Vec>, r: Search): nat
    requires |pts| > 0
  {
    var idx := Distinct(ArcLengths(sqrt, pts));
    if |idx| < 2 then 0 else Pred(idx[DedupSegment(|idx|, r) + 1])
  }

  lemma DedupIsSegment(sqrt: real -> real, pts: seq<Vec>, d: real, r: Search)
    requires IsSqrt(sqrt) && |pts| > 0 && 0.0 <= d <= Total(sqrt, pts)
    requires IsSearch(DistinctLengths(sqrt, pts), d, r)
    ensures var j := DedupRealSegment(sqrt, pts, r);
            if |Distinct(ArcLengths(sqrt, pts))| == 1 then
              DedupSample(sqrt, pts, d, r) == pts[0] && Total(sqrt, pts) == 0.0
            else Brackets(sqrt, pts, j, d) && DedupSample(sqrt, pts, d, r) == SampleSegment(sqrt, pts, j, d)
  {
    hide ArcLength, Distinct, SampleBetween, Runs, IsSearch, IsSqrt;
    var arc := ArcLengths(sqrt, pts);
    var idx := Distinct(arc);
    ArcLengthsSorted(sqrt, pts);
    DistinctRuns(arc);
    LengthAtStart(sqrt, pts);
    if |idx| > 1 {
      var u := DedupSegment(|idx|, r);
      RunFacts(idx, arc, u);
      SameLengthSamePoint(sqrt, pts, idx[u], idx[u + 1] - 1);
      DedupBrackets(arc, idx, d, r);
    } else {
      RunFacts(idx, arc, 0);
    }
  }

  lemma RunFacts(idx: seq<nat>, xs: seq<real>, k: nat)
    requires Runs(idx, xs) && k < |idx|
    ensures idx[0] == 0 < |xs|
    ensures if k + 1 < |idx| then idx[k] < idx[k + 1] < |xs| && xs[idx[k + 1] - 1] == xs[idx[k]]
            else idx[k] < |xs| && xs[|xs| - 1] == xs[idx[k]]
  {
    assert RunAt(idx, xs, 0);
    assert RunAt(idx, xs, k);
  }

  lemma DedupBrackets(arc: seq<real>, idx: seq<nat>, d: real, r: Search)
    requires Runs(idx, arc) && |idx| > 1 && |arc| > 0 && arc[0] <= d <= arc[|arc| - 1]
    requires forall k :: 0 <= k < |idx| ==> idx[k] < |arc|
    requires IsSearch(Picked(arc, idx), d, r)
    ensures var u := DedupSegment(|idx|, r); arc[idx[u]] <= d <= arc[idx[u + 1]]
  {
    var xs, u := Picked(arc, idx), DedupSegment(|idx|, r);
    assert RunAt(idx, arc, u);
    assert RunAt(idx, arc, |idx| - 1);
    assert xs[0] == arc[0] && xs[|xs| - 1] == arc[|arc| - 1];
    assert xs[u] == arc[idx[u]] && xs[u + 1] == arc[idx[u + 1]];
  }

  // ----- both follow the polyline

  /** `v` is what `resample_from_point` may give for distance `d`, by what its search may find. */
  ghost predicate IsDirect(sqrt: real -> real, pts: seq<Vec>, d: real, v: Vec) {
    if |pts| < 2 then |pts| == 1 && v == pts[0]
    else exists r :: IsSearch(ArcLengths(sqrt, pts), d, r) && v == SampleSegment(sqrt, pts, DirectSegment(|pts|, r), d)
  }

  /** The arc lengths that are left without repetitions. */
  function DistinctLengths(sqrt: real -> real, pts: seq<Vec>): seq<real> {
    Picked(ArcLengths(sqrt, pts), Distinct(ArcLengths(sqrt, pts)))
  }

  /** `v` is what `positions_at` may give for distance `d`, likewise. */
  ghost predicate IsDedup(sqrt: real -> real, pts: seq<Vec>, d: real, v: Vec) {
    |pts| > 0 && exists r :: IsSearch(DistinctLengths(sqrt, pts), d, r) && v == DedupSample(sqrt, pts, d, r)
  }

  /** `v` is the sample at distance `d` of some segment that brackets it. */
  ghost predicate Answers(sqrt: real -> real, pts: seq<Vec>, d: real, v: Vec) {
    if |pts| == 1 then v == pts[0] && d == 0.0
    else exists j :: Samples(sqrt, pts, j, d, v)
  }

  ghost predicate Samples(sqrt: real -> real, pts: seq<Vec>, j: int, d: real, v: Vec) {
    0 <= j && Brackets(sqrt, pts, j, d) && v == SampleSegment(sqrt, pts, j, d)
  }

  /** Only the first segment may be tiny, as it may be where a polyline was cut. */
  ghost predicate NoTinyInside(sqrt: real -> real, pts: seq<Vec>) {
    forall j :: 1 <= j < |pts| - 1 ==> Gap(sqrt, pts, j) == 0.0 || Gap(sqrt, pts, j) >= TINY
  }

  /** An answer is the polyline's point at `d`, or at one less than TINY before it. */
  lemma AnswerIsNear(sqrt: real -> real, pts: seq<Vec>, d: real, v: Vec) returns (x: real)
    requires IsSqrt(sqrt) && Answers(sqrt, pts, d, v)
    ensures |pts| > 0 && d - TINY < x <= d && 0.0 <= x && v == ArcPoint(sqrt, pts, x)
  {
    hide SampleSegment, ArcPoint, ArcLength, IsSqrt, Snapped;
    if |pts| == 1 {
      x := 0.0;
      StartPoint(sqrt, pts);
    } else {
      var j :| Samples(sqrt, pts, j, d, v);
      x := Snapped(sqrt, pts, j, d);
      SampleOnArc(sqrt, pts, j, d);
    }
  }

  /** It is the point at `d` itself when only the first segment can be tiny and `d` is not inside it. */
  lemma AnswerIsExact(sqrt: real -> real, pts: seq<Vec>, d: real, v: Vec)
    requires IsSqrt(sqrt) && Answers(sqrt, pts, d, v)
    requires NoTinySegment(sqrt, pts) || (NoTinyInside(sqrt, pts) && (d == 0.0 || d >= TINY))
    ensures |pts| > 0 && v == ArcPoint(sqrt, pts, d)
  {
    hide SampleSegment, ArcPoint, ArcLength, IsSqrt, Gap;
    if |pts| == 1 {
      StartPoint(sqrt, pts);
    } else {
      var j :| Samples(sqrt, pts, j, d, v);
      SampleOnArc(sqrt, pts, j, d);
      SegmentLength(sqrt, pts, j);
      GapNonNegative(sqrt, pts, j);
    }
  }

  lemma SegmentLength(sqrt: real -> real, pts: seq<Vec>, j: nat)
    requires j + 1 < |pts|
    ensures ArcLength(sqrt, pts, j + 1) == ArcLength(sqrt, pts, j) + Gap(sqrt, pts, j)
    ensures ArcLength(sqrt, pts, 0) == 0.0
  {
    hide Gap;
  }

  lemma DirectAnswers(sqrt: real -> real, pts: seq<Vec>, d: real, r: Search)
    requires IsSqrt(sqrt) && |pts| >= 2 && 0.0 <= d <= Total(sqrt, pts) && IsSearch(ArcLengths(sqrt, pts), d, r)
    ensures Answers(sqrt, pts, d, SampleSegment(sqrt, pts, DirectSegment(|pts|, r), d))
  {
    hide SampleSegment, ArcLength, IsSqrt, IsSearch, Total;
    DirectBrackets(sqrt, pts, d, r);
    var j := DirectSegment(|pts|, r);
    assert Samples(sqrt, pts, j, d, SampleSegment(sqrt, pts, j, d));
  }

  lemma DedupAnswers(sqrt: real -> real, pts: seq<Vec>, d: real, r: Search)
    requires IsSqrt(sqrt) && |pts| > 0 && 0.0 <= d <= Total(sqrt, pts)
    requires IsSearch(DistinctLengths(sqrt, pts), d, r)
    ensures Answers(sqrt, pts, d, DedupSample(sqrt, pts, d, r))
  {
    hide DedupSample, SampleSegment, ArcLength, IsSqrt, Distinct, DedupRealSegment, IsSearch;
    DedupIsSegment(sqrt, pts, d, r);
    if |pts| == 1 {
      LengthAtStart(sqrt, pts);
      OneDistinct(sqrt, pts);
    } else if |Distinct(ArcLengths(sqrt, pts))| == 1 {
      LengthAtStart(sqrt, pts);
      SampleAtStart(sqrt, pts, 0, d);
      ArcLengthMonotone(sqrt, pts, 0, 1);
      assert Samples(sqrt, pts, 0, d, pts[0]);
    } else {
      var j := DedupRealSegment(sqrt, pts, r);
      assert Samples(sqrt, pts, j, d, SampleSegment(sqrt, pts, j, d));
    }
  }

  lemma OneDistinct(sqrt: real -> real, pts: seq<Vec>)
    requires |pts| == 1
    ensures |Distinct(ArcLengths(sqrt, pts))| == 1
  {
    hide ArcLength;
    assert ArcLengths(sqrt, pts)[..0] == [];
  }

  /** Sampling a segment at its start gives its start. */
  lemma SampleAtStart(sqrt: real -> real, pts: seq<Vec>, j: nat, d: real)
    requires j + 1 < |pts| && d == ArcLength(sqrt, pts, j)
    ensures SampleSegment(sqrt, pts, j, d) == pts[j]
  {
    hide ArcLength, Lerp;
    LerpEnds(pts[j], pts[j + 1]);
  }

  lemma StartPoint(sqrt: real -> real, pts: seq<Vec>)
    requires |pts| > 0
    ensures ArcPoint(sqrt, pts, 0.0) == pts[0]
  {
  }

  lemma DirectIsAnswer(sqrt: real -> real, pts: seq<Vec>, d: real, v: Vec)
    requires IsSqrt(sqrt) && |pts| >= 2 && 0.0 <= d <= Total(sqrt, pts) && IsDirect(sqrt, pts, d, v)
    ensures Answers(sqrt, pts, d, v)
  {
    hide SampleSegment, ArcLengths, Answers, IsSqrt, IsSearch, Total, DirectSegment;
    var r :| IsSearch(ArcLengths(sqrt, pts), d, r) && v == SampleSegment(sqrt, pts, DirectSegment(|pts|, r), d);
    DirectAnswers(sqrt, pts, d, r);
  }

  lemma DedupIsAnswer(sqrt: real -> real, pts: seq<Vec>, d: real, v: Vec)
    requires IsSqrt(sqrt) && 0.0 <= d <= Total(sqrt, pts) && IsDedup(sqrt, pts, d, v)
    ensures Answers(sqrt, pts, d, v)
  {
    hide DedupSample, DistinctLengths, Answers, IsSqrt, IsSearch, Total;
    var r :| IsSearch(DistinctLengths(sqrt, pts), d, r) && v == DedupSample(sqrt, pts, d, r);
    DedupAnswers(sqrt, pts, d, r);
  }

  /** On polylines without tiny segments both interpolators give the point at `d`, whatever their searches find. */
  lemma InterpolatorsAgree(sqrt: real -> real, pts: seq<Vec>, d: real, v: Vec, v': Vec)
    requires IsSqrt(sqrt) && |pts| >= 2 && 0.0 <= d <= Total(sqrt, pts) && NoTinySegment(sqrt, pts)
    requires IsDirect(sqrt, pts, d, v) && IsDedup(sqrt, pts, d, v')
    ensures v == v' == ArcPoint(sqrt, pts, d)
  {
    hide IsDirect, IsDedup, ArcPoint, Answers, NoTinySegment, NoTinyInside, IsSqrt, Total;
    DirectIsAnswer(sqrt, pts, d, v);
    DedupIsAnswer(sqrt, pts, d, v');
    AnswerIsExact(sqrt, pts, d, v);
    AnswerIsExact(sqrt, pts, d, v');
  }

  // ----- exactly when the two agree

  /** The last segment that is not empty. */
  ghost predicate IsLastRise(sqrt: real -> real, pts: seq<Vec>, j: int) {
    0 <= j < |pts| - 1 && Gap(sqrt, pts, j) > 0.0 && forall k :: j < k < |pts| - 1 ==> Gap(sqrt, pts, k) == 0.0
  }

  /** The last segment is empty, and the last one that is not is tiny. */
  ghost predicate EndsInTiny(sqrt: real -> real, pts: seq<Vec>) {
    |pts| >= 2 && pts[|pts| - 2] == pts[|pts| - 1] && exists j :: IsLastRise(sqrt, pts, j) && Gap(sqrt, pts, j) < TINY
  }

  /** What a direct sample is: inside a segment, at a waypoint, or at the end of the last segment. */
  lemma DirectCases(sqrt: real -> real, pts: seq<Vec>, d: real, r: Search)
    requires IsSqrt(sqrt) && |pts| >= 2 && 0.0 <= d <= Total(sqrt, pts) && IsSearch(ArcLengths(sqrt, pts), d, r)
    ensures var j, v := DirectSegment(|pts|, r), SampleSegment(sqrt, pts, DirectSegment(|pts|, r), d);
            if r.Missing? then ArcLength(sqrt, pts, j) < d < ArcLength(sqrt, pts, j + 1)
            else
              && r.i < |pts| && ArcLength(sqrt, pts, r.i) == d
              && (if r.i < |pts| - 1 then v == pts[r.i] else j == |pts| - 2)
  {
    LengthAtStart(sqrt, pts);
    hide ArcLength, SampleSegment;
    var xs := ArcLengths(sqrt, pts);
    match r {
      case Found(i) =>
        assert xs[i] == d;
        if i < |pts| - 1 {
          SampleAtStart(sqrt, pts, i, d);
        }
      case Missing(i) =>
        assert i > 0 ==> xs[i - 1] < d;
        assert i < |pts| ==> d < xs[i];
    }
  }

  /** What a deduplicated sample is, likewise; `u` is its run of equal lengths. */
  lemma DedupCases(sqrt: real -> real, pts: seq<Vec>, d: real, r: Search)
    requires IsSqrt(sqrt) && |pts| > 0 && 0.0 <= d <= Total(sqrt, pts) && |Distinct(ArcLengths(sqrt, pts))| > 1
    requires IsSearch(DistinctLengths(sqrt, pts), d, r)
    ensures var j, v, idx :=
            DedupRealSegment(sqrt, pts, r), DedupSample(sqrt, pts, d, r), Distinct(ArcLengths(sqrt, pts));
            && Brackets(sqrt, pts, j, d) && v == SampleSegment(sqrt, pts, j, d)
            && (if r.Missing? then ArcLength(sqrt, pts, j) < d < ArcLength(sqrt, pts, j + 1)
                else if r.i < |idx| - 1 then ArcLength(sqrt, pts, j) == d < ArcLength(sqrt, pts, j + 1) && v == pts[j]
                else d == Total(sqrt, pts) && IsLastRise(sqrt, pts, j) && ArcLength(sqrt, pts, j + 1) == d)
  {
    hide ArcLength, Distinct, SampleBetween, Runs, IsSqrt, Gap;
    var arc := ArcLengths(sqrt, pts);
    var idx := Distinct(arc);
    ArcLengthsSorted(sqrt, pts);
    DistinctRuns(arc);
    DedupIsSegment(sqrt, pts, d, r);
    var u := DedupSegment(|idx|, r);
    RunFacts(idx, arc, u);
    RunRises(idx, arc, u);
    var j := idx[u + 1] - 1;
    var xs := Picked(arc, idx);
    LengthAtStart(sqrt, pts);
    match r {
      case Found(i) =>
        assert xs[i] == d;
        if i < |idx| - 1 {
          SampleAtStart(sqrt, pts, j, d);
        } else {
          LastRun(sqrt, pts, idx, u);
        }
      case Missing(i) =>
        assert xs[0] == arc[0];
        RunFacts(idx, arc, |idx| - 1);
        assert xs[|idx| - 1] == arc[|arc| - 1];
        assert i > 0 ==> xs[i - 1] < d;
        assert i < |idx| ==> d < xs[i];
    }
  }

  lemma RunRises(idx: seq<nat>, xs: seq<real>, k: nat)
    requires Runs(idx, xs) && k + 1 < |idx|
    ensures idx[k] < idx[k + 1] < |xs| && xs[idx[k]] < xs[idx[k + 1]]
  {
    assert RunAt(idx, xs, k);
  }

  /** The segment before the last run is the last that is not empty. */
  lemma LastRun(sqrt: real -> real, pts: seq<Vec>, idx: seq<nat>, u: nat)
    requires IsSqrt(sqrt) && |pts| > 0 && Runs(idx, ArcLengths(sqrt, pts)) && u + 2 == |idx|
    ensures 1 <= idx[u + 1] < |pts| && IsLastRise(sqrt, pts, idx[u + 1] - 1)
    ensures ArcLength(sqrt, pts, idx[u + 1]) == Total(sqrt, pts)
  {
    hide ArcLength, ArcLengths, Total, Gap, IsSqrt, Runs;
    var e := idx[u + 1];
    LastRunStart(sqrt, pts, idx, u);
    SegmentLength(sqrt, pts, e - 1);
    forall k | e - 1 < k < |pts| - 1
      ensures Gap(sqrt, pts, k) == 0.0
    {
      FlatGap(sqrt, pts, idx, k);
    }
  }

  lemma LastRunStart(sqrt: real -> real, pts: seq<Vec>, idx: seq<nat>, u: nat)
    requires |pts| > 0 && Runs(idx, ArcLengths(sqrt, pts)) && u + 2 == |idx|
    ensures 1 <= idx[u + 1] < |pts|
            && ArcLength(sqrt, pts, idx[u + 1] - 1) < ArcLength(sqrt, pts, idx[u + 1]) == Total(sqrt, pts)
  {
    hide ArcLength, ArcLengths, Runs;
    var arc := ArcLengths(sqrt, pts);
    LastRunRises(idx, arc, u);
    assert arc[idx[u + 1]] == ArcLength(sqrt, pts, idx[u + 1])
           && arc[idx[u + 1] - 1] == ArcLength(sqrt, pts, idx[u + 1] - 1);
  }

  lemma LastRunRises(idx: seq<nat>, xs: seq<real>, u: nat)
    requires Runs(idx, xs) && u + 2 == |idx|
    ensures 1 <= idx[u + 1] < |xs| && xs[idx[u + 1] - 1] < xs[idx[u + 1]] == xs[|xs| - 1]
  {
    hide Runs;
    RunFacts(idx, xs, u);
    RunRises(idx, xs, u);
    LastRunIsFlat(idx, xs, |xs| - 1);
  }

  lemma FlatGap(sqrt: real -> real, pts: seq<Vec>, idx: seq<nat>, k: nat)
    requires Runs(idx, ArcLengths(sqrt, pts)) && |pts| > 0 && idx[|idx| - 1] <= k < |pts| - 1
    ensures Gap(sqrt, pts, k) == 0.0
  {
    hide ArcLength, Gap, Runs;
    var arc := ArcLengths(sqrt, pts);
    SegmentLength(sqrt, pts, k);
    LastRunIsFlat(idx, arc, k);
    LastRunIsFlat(idx, arc, k + 1);
  }

  lemma LastRunIsFlat(idx: seq<nat>, xs: seq<real>, i: nat)
    requires Runs(idx, xs)
    ensures idx[|idx| - 1] < |xs|
    ensures idx[|idx| - 1] <= i < |xs| ==> xs[i] == xs[idx[|idx| - 1]]
  {
    assert RunAt(idx, xs, |idx| - 1);
  }

  /** Sampling a segment at its end gives its end, but for a tiny one, which gives its start. */
  lemma SampleAtEnd(sqrt: real -> real, pts: seq<Vec>, j: nat, d: real)
    requires IsSqrt(sqrt) && j + 1 < |pts| && d == ArcLength(sqrt, pts, j + 1)
    ensures SampleSegment(sqrt, pts, j, d) == if Gap(sqrt, pts, j) < TINY then pts[j] else pts[j + 1]
  {
    hide ArcLength, Lerp, Gap, IsSqrt;
    SegmentLength(sqrt, pts, j);
    GapNonNegative(sqrt, pts, j);
    LerpEnds(pts[j], pts[j + 1]);
    if Gap(sqrt, pts, j) >= TINY {
      QuotientOrder(0.0, 0.0, Gap(sqrt, pts, j));
    }
  }

  /** A distance strictly inside a segment is inside no other, and no waypoint is there. */
  lemma OneInside(sqrt: real -> real, pts: seq<Vec>, d: real, i: nat, j: nat)
    requires IsSqrt(sqrt) && j + 1 < |pts| && i < |pts| && ArcLength(sqrt, pts, j) < d < ArcLength(sqrt, pts, j + 1)
    ensures ArcLength(sqrt, pts, i) != d
    ensures i + 1 < |pts| && ArcLength(sqrt, pts, i) < d < ArcLength(sqrt, pts, i + 1) ==> i == j
  {
    hide ArcLength, IsSqrt;
    ArcLengthsSorted(sqrt, pts);
    var xs := ArcLengths(sqrt, pts);
    assert xs[i] == ArcLength(sqrt, pts, i) && xs[j] == ArcLength(sqrt, pts, j)
           && xs[j + 1] == ArcLength(sqrt, pts, j + 1);
    if i + 1 < |pts| {
      assert xs[i + 1] == ArcLength(sqrt, pts, i + 1);
    }
  }

  lemma AgreeOnOnePoint(sqrt: real -> real, pts: seq<Vec>, d: real, r: Search, r': Search)
    requires IsSqrt(sqrt) && |pts| >= 2 && 0.0 <= d <= Total(sqrt, pts) && |Distinct(ArcLengths(sqrt, pts))| == 1
    requires IsSearch(ArcLengths(sqrt, pts), d, r)
    requires IsSearch(DistinctLengths(sqrt, pts), d, r')
    ensures SampleSegment(sqrt, pts, DirectSegment(|pts|, r), d) == DedupSample(sqrt, pts, d, r')
  {
    hide ArcLength, SampleSegment, DedupSample, Distinct, IsSearch, IsSqrt, DirectSegment;
    var j := DirectSegment(|pts|, r);
    LengthAtStart(sqrt, pts);
    DirectBrackets(sqrt, pts, d, r);
    DedupIsSegment(sqrt, pts, d, r');
    ArcLengthMonotone(sqrt, pts, 0, j);
    SampleAtStart(sqrt, pts, j, d);
    SameLengthSamePoint(sqrt, pts, 0, j);
  }

  lemma SameLengths(sqrt: real -> real, pts: seq<Vec>, i: nat, j: nat)
    requires IsSqrt(sqrt) && i < |pts| && j < |pts| && ArcLength(sqrt, pts, i) == ArcLength(sqrt, pts, j)
    ensures pts[i] == pts[j]
  {
    hide ArcLength, IsSqrt;
    if i <= j {
      SameLengthSamePoint(sqrt, pts, i, j);
    } else {
      SameLengthSamePoint(sqrt, pts, j, i);
    }
  }

  lemma AgreeAtEnd(sqrt: real -> real, pts: seq<Vec>, d: real, i: nat, j: nat)
    requires IsSqrt(sqrt) && |pts| >= 2 && d == Total(sqrt, pts) && !EndsInTiny(sqrt, pts)
    requires i < |pts| && ArcLength(sqrt, pts, i) == d
    requires IsLastRise(sqrt, pts, j) && ArcLength(sqrt, pts, j + 1) == d
    ensures SampleSegment(sqrt, pts, j, d) == if i < |pts| - 1 then pts[i] else SampleSegment(sqrt, pts, |pts| - 2, d)
  {
    hide ArcLength, SampleSegment, Gap, IsSqrt;
    var n := |pts|;
    SegmentLength(sqrt, pts, n - 2);
    GapNonNegative(sqrt, pts, n - 2);
    if Gap(sqrt, pts, n - 2) > 0.0 {
      assert j == n - 2;
      if i <= n - 2 {
        ArcLengthMonotone(sqrt, pts, i, n - 2);
      }
    } else {
      SampleAtEnd(sqrt, pts, j, d);
      SameLengths(sqrt, pts, i, j + 1);
      if i == n - 1 {
        SampleAtStart(sqrt, pts, n - 2, d);
      }
    }
  }

  /** At one distance, whatever the two searches return. */
  lemma AgreeAt(sqrt: real -> real, pts: seq<Vec>, d: real, r: Search, r': Search)
    requires IsSqrt(sqrt) && |pts| >= 2 && 0.0 <= d <= Total(sqrt, pts) && !EndsInTiny(sqrt, pts)
    requires IsSearch(ArcLengths(sqrt, pts), d, r)
    requires IsSearch(DistinctLengths(sqrt, pts), d, r')
    ensures SampleSegment(sqrt, pts, DirectSegment(|pts|, r), d) == DedupSample(sqrt, pts, d, r')
  {
    hide ArcLength, SampleSegment, DedupSample, Distinct, IsSearch, IsSqrt, EndsInTiny, DirectSegment;
    DirectCases(sqrt, pts, d, r);
    var i := DirectSegment(|pts|, r);
    if |Distinct(ArcLengths(sqrt, pts))| == 1 {
      AgreeOnOnePoint(sqrt, pts, d, r, r');
    } else {
      DedupCases(sqrt, pts, d, r');
      var j := DedupRealSegment(sqrt, pts, r');
      ArcLengthMonotone(sqrt, pts, j + 1, |pts| - 1);
      if r.Missing? || r'.Missing? {
        if r.Missing? {
          OneInside(sqrt, pts, d, j, i);
          if r'.Found? {
            OneInside(sqrt, pts, d, j + 1, i);
          }
        } else {
          OneInside(sqrt, pts, d, r.i, j);
        }
      } else if d < Total(sqrt, pts) {
        SameLengths(sqrt, pts, r.i, j);
      } else {
        AgreeAtEnd(sqrt, pts, d, r.i, j);
      }
    }
  }

  /**
   * At the end of such a polyline the direct interpolator gives the last waypoint, the other one the start of
   * the tiny segment.
   */
  lemma TinyEndDisagrees(sqrt: real -> real, pts: seq<Vec>) returns (d: real, r: Search, r': Search, j: int)
    requires IsSqrt(sqrt) && EndsInTiny(sqrt, pts)
    ensures 0.0 <= d <= Total(sqrt, pts) && IsSearch(ArcLengths(sqrt, pts), d, r)
    ensures IsSearch(DistinctLengths(sqrt, pts), d, r')
    ensures IsLastRise(sqrt, pts, j) && pts[j] != pts[|pts| - 1]
    ensures SampleSegment(sqrt, pts, DirectSegment(|pts|, r), d) == pts[|pts| - 1]
            && DedupSample(sqrt, pts, d, r') == pts[j]
  {
    hide ArcLength, SampleSegment, DedupSample, Distinct, Gap, IsSqrt, DirectSegment, ArcLengths, Picked,
      DedupRealSegment;
    var n, idx := |pts|, Distinct(ArcLengths(sqrt, pts));
    j :| IsLastRise(sqrt, pts, j) && Gap(sqrt, pts, j) < TINY;
    d, r, r' := Total(sqrt, pts), Found(n - 1), Found(|idx| - 1);
    EndSearches(sqrt, pts);
    SegmentLength(sqrt, pts, n - 2);
    GapNonNegative(sqrt, pts, n - 2);
    RisesFromZero(sqrt, pts, j);
    if |idx| == 1 {
      DedupIsSegment(sqrt, pts, d, r');
    }
    DirectCases(sqrt, pts, d, r);
    assert DirectSegment(n, r) == n - 2;
    SampleAtStart(sqrt, pts, n - 2, d);
    DedupCases(sqrt, pts, d, r');
    assert DedupRealSegment(sqrt, pts, r') == j;
    SampleAtEnd(sqrt, pts, j, d);
    SameLengths(sqrt, pts, j + 1, n - 2);
    GapNonNegative(sqrt, pts, j);
  }

  /** Searching for the total length may find the last waypoint, and the last kept one. */
  lemma EndSearches(sqrt: real -> real, pts: seq<Vec>)
    requires IsSqrt(sqrt) && |pts| > 0
    ensures 0.0 <= Total(sqrt, pts) && IsSearch(ArcLengths(sqrt, pts), Total(sqrt, pts), Found(|pts| - 1))
    ensures var idx := Distinct(ArcLengths(sqrt, pts));
            |idx| > 0 && IsSearch(Picked(ArcLengths(sqrt, pts), idx), Total(sqrt, pts), Found(|idx| - 1))
  {
    LengthAtStart(sqrt, pts);
    hide ArcLength, Distinct, IsSqrt;
    ArcLengthMonotone(sqrt, pts, 0, |pts| - 1);
    DedupRange(sqrt, pts);
  }

  lemma RisesFromZero(sqrt: real -> real, pts: seq<Vec>, j: nat)
    requires IsSqrt(sqrt) && j + 1 < |pts| && Gap(sqrt, pts, j) > 0.0
    ensures Total(sqrt, pts) > 0.0
  {
    LengthAtStart(sqrt, pts);
    SegmentLength(sqrt, pts, j);
    hide ArcLength, Gap, IsSqrt;
    ArcLengthMonotone(sqrt, pts, 0, j);
    ArcLengthMonotone(sqrt, pts, j + 1, |pts| - 1);
  }

  /**
   * The two interpolators agree at every distance, whatever their searches find, exactly when the polyline
   * does not end in a tiny segment with empty ones after it.
   */
  lemma AgreeExactlyUnlessEndsInTiny(sqrt: real -> real, pts: seq<Vec>)
    requires IsSqrt(sqrt) && |pts| >= 2
    ensures !EndsInTiny(sqrt, pts) <==>
            forall d, v, v' ::
              0.0 <= d <= Total(sqrt, pts) && IsDirect(sqrt, pts, d, v) && IsDedup(sqrt, pts, d, v') ==> v == v'
  {
    if EndsInTiny(sqrt, pts) {
      hide SampleSegment, DedupSample, EndsInTiny, IsSqrt, Total, IsSearch, DirectSegment, ArcLengths, DistinctLengths;
      var d, r, r', j := TinyEndDisagrees(sqrt, pts);
      assert IsDirect(sqrt, pts, d, pts[|pts| - 1]) && IsDedup(sqrt, pts, d, pts[j]);
    } else {
      hide *;
      forall d, v, v' | 0.0 <= d <= Total(sqrt, pts) && IsDirect(sqrt, pts, d, v) && IsDedup(sqrt, pts, d, v')
        ensures v == v'
      {
        BothAgree(sqrt, pts, d, v, v');
      }
    }
  }

  lemma BothAgree(sqrt: real -> real, pts: seq<Vec>, d: real, v: Vec, v': Vec)
    requires IsSqrt(sqrt) && |pts| >= 2 && 0.0 <= d <= Total(sqrt, pts) && !EndsInTiny(sqrt, pts)
    requires IsDirect(sqrt, pts, d, v) && IsDedup(sqrt, pts, d, v')
    ensures v == v'
  {
    hide SampleSegment, DedupSample, EndsInTiny, IsSqrt, Total, IsSearch, DirectSegment, ArcLengths, DistinctLengths;
    var r :| IsSearch(ArcLengths(sqrt, pts), d, r) && v == SampleSegment(sqrt, pts, DirectSegment(|pts|, r), d);
    var r' :| IsSearch(DistinctLengths(sqrt, pts), d, r') && v' == DedupSample(sqrt, pts, d, r');
    AgreeAt(sqrt, pts, d, r, r');
  }

  /** The smallest such polyline: two waypoints closer than TINY, the second one twice. */
  lemma RepeatedEndDisagrees(sqrt: real -> real, a: Vec, b: Vec) returns (d: real)
    requires IsSqrt(sqrt) && a != b && Dist(sqrt, a, b) < TINY
    ensures var pts := [a, b, b]; 0.0 <= d <= Total(sqrt, pts) && IsDirect(sqrt, pts, d, b) && IsDedup(sqrt, pts, d, a)
  {
    hide ArcLength, SampleSegment, DedupSample, Distinct, IsSearch, IsSqrt, DirectSegment, Dist, ArcLengths,
      DistinctLengths, Total;
    var pts := [a, b, b];
    GapNonNegative(sqrt, pts, 0);
    GapNonNegative(sqrt, pts, 1);
    assert IsLastRise(sqrt, pts, 0);
    var r: Search, r': Search, j: int;
    d, r, r', j := TinyEndDisagrees(sqrt, pts);
  }

  // ----- exactly when each follows the polyline

  /** The direct interpolator gives the polyline's point at every distance exactly when no segment is tiny. */
  lemma ExactExactlyWhenNoTiny(sqrt: real -> real, pts: seq<Vec>)
    requires IsSqrt(sqrt) && |pts| >= 2
    ensures NoTinySegment(sqrt, pts) <==>
            forall d, v :: 0.0 <= d <= Total(sqrt, pts) && IsDirect(sqrt, pts, d, v) ==> v == ArcPoint(sqrt, pts, d)
  {
    if NoTinySegment(sqrt, pts) {
      hide *;
      forall d, v | 0.0 <= d <= Total(sqrt, pts) && IsDirect(sqrt, pts, d, v)
        ensures v == ArcPoint(sqrt, pts, d)
      {
        DirectIsAnswer(sqrt, pts, d, v);
        AnswerIsExact(sqrt, pts, d, v);
      }
    } else {
      hide Gap, SampleSegment, ArcPoint, IsSqrt, Total, IsSearch, DirectSegment, ArcLengths;
      var j :| 0 <= j < |pts| - 1 && Gap(sqrt, pts, j) != 0.0 && Gap(sqrt, pts, j) < TINY;
      var d := TinyMisses(sqrt, pts, j);
      assert IsDirect(sqrt, pts, d, SampleSegment(sqrt, pts, DirectSegment(|pts|, Missing(j + 1)), d));
    }
  }

  /** So does the deduplicating one. */
  lemma DedupExactExactlyWhenNoTiny(sqrt: real -> real, pts: seq<Vec>)
    requires IsSqrt(sqrt) && |pts| >= 2
    ensures NoTinySegment(sqrt, pts) <==>
            forall d, v :: 0.0 <= d <= Total(sqrt, pts) && IsDedup(sqrt, pts, d, v) ==> v == ArcPoint(sqrt, pts, d)
  {
    if NoTinySegment(sqrt, pts) {
      hide *;
      forall d, v | 0.0 <= d <= Total(sqrt, pts) && IsDedup(sqrt, pts, d, v)
        ensures v == ArcPoint(sqrt, pts, d)
      {
        DedupIsAnswer(sqrt, pts, d, v);
        AnswerIsExact(sqrt, pts, d, v);
      }
    } else {
      hide Gap, DedupSample, ArcPoint, IsSqrt, Total, IsSearch, DistinctLengths;
      var j :| 0 <= j < |pts| - 1 && Gap(sqrt, pts, j) != 0.0 && Gap(sqrt, pts, j) < TINY;
      var d, r := DedupMisses(sqrt, pts, j);
      assert IsDedup(sqrt, pts, d, DedupSample(sqrt, pts, d, r));
    }
  }

  /** Halfway through a tiny segment, whatever the search on the distinct lengths finds. */
  lemma DedupMisses(sqrt: real -> real, pts: seq<Vec>, j: nat) returns (d: real, r: Search)
    requires IsSqrt(sqrt) && j + 1 < |pts| && Gap(sqrt, pts, j) != 0.0 && Gap(sqrt, pts, j) < TINY
    ensures 0.0 <= d <= Total(sqrt, pts) && IsSearch(DistinctLengths(sqrt, pts), d, r)
    ensures DedupSample(sqrt, pts, d, r) != ArcPoint(sqrt, pts, d)
  {
    hide Gap, ArcLength, Lerp, ArcPoint, IsSqrt, Total, IsSearch, SampleSegment, ArcLengths, DedupSample,
      DistinctLengths, Distinct, DedupRealSegment;
    d := ArcLength(sqrt, pts, j) + Gap(sqrt, pts, j) / 2.0;
    GapNonNegative(sqrt, pts, j);
    SearchMidway(sqrt, pts, j, d);
    DedupRange(sqrt, pts);
    r := SearchExists(DistinctLengths(sqrt, pts), d);
    DedupIsSegment(sqrt, pts, d, r);
    SegmentLength(sqrt, pts, j);
    RisesFromZero(sqrt, pts, j);
    var i := DedupRealSegment(sqrt, pts, r);
    EndsAreNotInside(sqrt, pts, d, i, j);
    PointMidway(sqrt, pts, j);
    TinySample(sqrt, pts, j, d);
    Halfway(pts[j], pts[j + 1]);
  }

  lemma EndsAreNotInside(sqrt: real -> real, pts: seq<Vec>, d: real, i: nat, j: nat)
    requires IsSqrt(sqrt) && j + 1 < |pts| && ArcLength(sqrt, pts, j) < d < ArcLength(sqrt, pts, j + 1)
             && Brackets(sqrt, pts, i, d)
    ensures i == j
  {
    hide ArcLength, IsSqrt;
    OneInside(sqrt, pts, d, i, j);
    OneInside(sqrt, pts, d, i + 1, j);
  }

  lemma {:induction false} SearchExists(xs: seq<real>, d: real) returns (r: Search)
    requires Sorted(xs)
    ensures IsSearch(xs, d, r)
  {
    if d in xs {
      var i :| 0 <= i < |xs| && xs[i] == d;
      r := Found(i);
    } else if |xs| == 0 || xs[|xs| - 1] < d {
      r := Missing(|xs|);
    } else {
      r := SearchExists(xs[..|xs| - 1], d);
    }
  }

  lemma TinyMisses(sqrt: real -> real, pts: seq<Vec>, j: nat) returns (d: real)
    requires IsSqrt(sqrt) && j + 1 < |pts| && Gap(sqrt, pts, j) != 0.0 && Gap(sqrt, pts, j) < TINY
    ensures 0.0 <= d <= Total(sqrt, pts) && IsSearch(ArcLengths(sqrt, pts), d, Missing(j + 1))
    ensures SampleSegment(sqrt, pts, DirectSegment(|pts|, Missing(j + 1)), d) != ArcPoint(sqrt, pts, d)
  {
    hide Gap, ArcLength, Lerp, ArcPoint, IsSqrt, Total, IsSearch, SampleSegment, ArcLengths;
    d := ArcLength(sqrt, pts, j) + Gap(sqrt, pts, j) / 2.0;
    GapNonNegative(sqrt, pts, j);
    SearchMidway(sqrt, pts, j, d);
    PointMidway(sqrt, pts, j);
    TinySample(sqrt, pts, j, d);
    Halfway(pts[j], pts[j + 1]);
    LerpEnds(pts[j], pts[j + 1]);
  }

  lemma SearchMidway(sqrt: real -> real, pts: seq<Vec>, j: nat, d: real)
    requires IsSqrt(sqrt) && j + 1 < |pts| && ArcLength(sqrt, pts, j) < d < ArcLength(sqrt, pts, j) + Gap(sqrt, pts, j)
    ensures 0.0 <= d <= Total(sqrt, pts) && IsSearch(ArcLengths(sqrt, pts), d, Missing(j + 1))
  {
    assert ArcLength(sqrt, pts, j + 1) == ArcLength(sqrt, pts, j) + Gap(sqrt, pts, j);
    LengthAtStart(sqrt, pts);
    hide Gap, ArcLength;
    ArcLengthsSorted(sqrt, pts);
    var xs := ArcLengths(sqrt, pts);
    assert xs[0] <= xs[j] < d < xs[j + 1] <= xs[|xs| - 1];
  }

  lemma PointMidway(sqrt: real -> real, pts: seq<Vec>, j: nat)
    requires IsSqrt(sqrt) && j + 1 < |pts| && Gap(sqrt, pts, j) > 0.0
    ensures ArcPoint(sqrt, pts, ArcLength(sqrt, pts, j) + Gap(sqrt, pts, j) / 2.0) == Lerp(pts[j], pts[j + 1], 0.5)
  {
    hide Gap, ArcLength, Lerp, ArcPoint, ArcFrom;
    var g := Gap(sqrt, pts, j);
    ArcSkip(sqrt, pts, j, g / 2.0);
    OnOneSegment(sqrt, pts, j, g / 2.0);
    HalfOf(g);
  }

  lemma HalfOf(g: real)
    requires g > 0.0
    ensures (g / 2.0) / g == 0.5
  {
  }

  lemma TinySample(sqrt: real -> real, pts: seq<Vec>, j: nat, d: real)
    requires j + 1 < |pts| && 0.0 <= Gap(sqrt, pts, j) < TINY
    ensures SampleSegment(sqrt, pts, j, d) == Lerp(pts[j], pts[j + 1], 0.0)
  {
    assert ArcLength(sqrt, pts, j + 1) == ArcLength(sqrt, pts, j) + Gap(sqrt, pts, j);
    hide Gap, ArcLength, Lerp;
  }

  lemma Halfway(a: Vec, b: Vec)
    requires a != b
    ensures Lerp(a, b, 0.5) != Lerp(a, b, 0.0)
  {
  }

  // ----- `positions_at_distances_impl`

  /** The loop that drops waypoints with a repeated arc length. */
  method Deduplicate(arc: seq<real>) returns (lengths: seq<real>, indices: seq<nat>)
    ensures indices == Distinct(arc) && lengths == Picked(arc, indices)
  {
    lengths, indices := [], [];
    for i := 0 to |arc|
      invariant indices == Distinct(arc[..i])
      invariant |lengths| == |indices| && forall k :: 0 <= k < |indices| ==> lengths[k] == arc[indices[k]]
    {
      assert arc[..i + 1][..i] == arc[..i];
      if |lengths| == 0 || arc[i] != lengths[|lengths| - 1] {
        lengths := lengths + [arc[i]];
        indices := indices + [i];
      }
    }
    assert arc[..|arc|] == arc;
  }

  /** The body of the loop over the distances. */
  method PositionAt(sqrt: real -> real, pts: seq<Vec>, lengths: seq<real>, indices: seq<nat>, d: real) returns (v: Vec)
    requires IsSqrt(sqrt) && |pts| > 0 && 0.0 <= d <= Total(sqrt, pts)
    requires indices == Distinct(ArcLengths(sqrt, pts)) && lengths == Picked(ArcLengths(sqrt, pts), indices)
    ensures IsDedup(sqrt, pts, d, v) && Answers(sqrt, pts, d, v)
  {
    hide Distinct, ArcLength, IsSqrt, Answers, IsSearch, Total, SampleBetween;
    DedupRange(sqrt, pts);
    var search := BinarySearch(lengths, d);
    DedupAnswers(sqrt, pts, d, search);
    if |lengths| == 1 {
      v := pts[indices[0]];
    } else {
      var i := DedupSegment(|lengths|, search);
      v := SampleBetween(pts[indices[i]], pts[indices[i + 1]], lengths[i], lengths[i + 1], d);
    }
    assert IsSearch(DistinctLengths(sqrt, pts), d, search) && v == DedupSample(sqrt, pts, d, search);
  }

  method PositionsAt(sqrt: real -> real, pts: seq<Vec>, distances: seq<real>) returns (r: Result<seq<Vec>, Error>)
    requires IsSqrt(sqrt)
    ensures r == Err(EmptyPolyline) <==> |pts| == 0
    ensures r.Ok? <==> |pts| > 0 && forall k :: 0 <= k < |distances| ==> 0.0 <= distances[k] <= Total(sqrt, pts)
    ensures r.Ok? ==>
              && |r.value| == |distances|
              && (forall k :: 0 <= k < |distances| ==> IsDedup(sqrt, pts, distances[k], r.value[k]))
              && forall k :: 0 <= k < |distances| ==> Answers(sqrt, pts, distances[k], r.value[k])
  {
    hide Distinct, ArcLength, IsSqrt, Answers, Total, IsDedup;
    if |pts| == 0 {
      return Err(EmptyPolyline);
    }
    var arc := CumulativeLengths(sqrt, pts);
    var lengths, indices := Deduplicate(arc);
    DedupRange(sqrt, pts);
    for k := 0 to |distances|
      invariant forall i :: 0 <= i < k ==> 0.0 <= distances[i] <= Total(sqrt, pts)
    {
      if distances[k] < lengths[0] || distances[k] > lengths[|lengths| - 1] {
        return Err(OutOfRange);
      }
    }
    var result: seq<Vec> := [];
    for k := 0 to |distances|
      invariant |result| == k
      invariant forall i :: 0 <= i < k ==> IsDedup(sqrt, pts, distances[i], result[i])
      invariant forall i :: 0 <= i < k ==> Answers(sqrt, pts, distances[i], result[i])
    {
      var v := PositionAt(sqrt, pts, lengths, indices, distances[k]);
      result := result + [v];
    }
    return Ok(result);
  }

  lemma DedupRange(sqrt: real -> real, pts: seq<Vec>)
    requires IsSqrt(sqrt) && |pts| > 0
    ensures var xs := DistinctLengths(sqrt, pts);
            |xs| > 0 && xs[0] == 0.0 && xs[|xs| - 1] == Total(sqrt, pts) && Sorted(xs)
  {
    var arc := ArcLengths(sqrt, pts);
    var idx := Distinct(arc);
    LengthAtStart(sqrt, pts);
    hide ArcLength, Distinct, Runs, IsSqrt;
    ArcLengthsSorted(sqrt, pts);
    DistinctRuns(arc);
    RunFacts(idx, arc, |idx| - 1);
    forall i, j | 0 <= i <= j < |idx|
      ensures idx[i] <= idx[j]
    {
      RunsIncrease(idx, arc, i, j);
    }
  }

  lemma {:induction false} RunsIncrease(idx: seq<nat>, xs: seq<real>, i: nat, j: nat)
    requires Runs(idx, xs) && i <= j < |idx|
    ensures idx[i] <= idx[j]
    decreases j
  {
    if i < j {
      RunsIncrease(idx, xs, i, j - 1);
      RunFacts(idx, xs, j - 1);
    }
  }
}
