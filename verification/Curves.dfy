/**
 Timed curves: interpolation, clip and append of src/utils_rs/src/trajectory.rs.

 Everything is written for a payload type P and a blending function `mix(p, q, alpha)`.
 Module Trajectories instantiates it with poses, and with positions alone, for which the
 laws assumed of `mix` here are proved.
 */
module Curves {
  import opened Wrappers
  import opened Vectors

  datatype Timed<+P> = Timed(t: nat, p: P)

  datatype Error = EmptyTrajectory | OutOfRange | BadRange | PoseMismatch | NotContinuous | NotIncreasing | BadIndex

  ghost predicate Increasing<P>(s: seq<Timed<P>>) {
    forall i, j :: 0 <= i < j < |s| ==> s[i].t < s[j].t
  }

  // ----- blending

  ghost predicate MeetsEnds<P(!new)>(mix: (P, P, real) -> P) {
    forall p, q :: mix(p, q, 0.0) == p && mix(p, q, 1.0) == q
  }

  ghost predicate Subdivides<P(!new)>(mix: (P, P, real) -> P) {
    forall p, q, a, b, c :: 0.0 <= a <= 1.0 && 0.0 <= b <= 1.0 && 0.0 <= c <= 1.0
      ==> mix(mix(p, q, a), mix(p, q, b), c) == mix(p, q, Part(a, b, c))
  }

  /** The laws of a geodesic: it meets both its ends, and a part of it is again a geodesic. */
  ghost predicate Geodesic<P(!new)>(mix: (P, P, real) -> P) {
    MeetsEnds(mix) && Subdivides(mix)
  }

  // ----- interpolation

  /** How many leading entries are at or before `t`, as `slice::partition_point` counts them. */
  function PartitionPoint<P>(s: seq<Timed<P>>, t: nat): (r: nat)
    ensures r <= |s|
    ensures Increasing(s) ==> forall i :: 0 <= i < |s| ==> (s[i].t <= t <==> i < r)
  {
    if |s| > 0 && t < s[|s| - 1].t then PartitionPoint(s[..|s| - 1], t) else |s|
  }

  function Segment<P>(s: seq<Timed<P>>, t: nat): nat
    requires |s| >= 2
  {
    var k := PartitionPoint(s, t);
    var i := if k == 0 then 0 else k - 1;
    if i <= |s| - 2 then i else |s| - 2
  }

  function Fraction(t: int, t0: int, t1: int): real {
    if t1 > t0 then (t - t0) as real / (t1 - t0) as real else 0.0
  }

  predicate Covers<P>(s: seq<Timed<P>>, t: int) {
    |s| > 0 && s[0].t <= t <= s[|s| - 1].t
  }

  /** `interpolate_pose_internal`; the end of the range is exclusive and one past the last timestamp. */
  function Interpolate<P>(mix: (P, P, real) -> P, s: seq<Timed<P>>, t: nat): Result<P, Error> {
    if |s| == 0 then Err(EmptyTrajectory)
    else if t < s[0].t || t >= s[|s| - 1].t + 1 then Err(OutOfRange)
    else if |s| == 1 then Ok(s[0].p)
    else
      var i := Segment(s, t);
      Ok(mix(s[i].p, s[i + 1].p, Fraction(t, s[i].t, s[i + 1].t)))
  }

  function At<P>(mix: (P, P, real) -> P, s: seq<Timed<P>>, t: nat): P
    requires Covers(s, t)
  {
    Interpolate(mix, s, t).value
  }

  lemma FractionEnds(a: int, b: int)
    requires a < b
    ensures Fraction(a, a, b) == 0.0 && Fraction(b, a, b) == 1.0
  {
  }

  /** Any segment holding `t` gives the interpolated value, not only the one the search finds. */
  lemma AtOnSegment<P(!new)>(mix: (P, P, real) -> P, s: seq<Timed<P>>, j: nat, t: nat)
    requires MeetsEnds(mix) && Increasing(s) && j + 1 < |s| && s[j].t <= t <= s[j + 1].t
    ensures Covers(s, t)
    ensures At(mix, s, t) == mix(s[j].p, s[j + 1].p, Fraction(t, s[j].t, s[j + 1].t))
  {
    assert s[0].t <= s[j].t && s[j + 1].t <= s[|s| - 1].t;
    var i := Segment(s, t);
    SegmentHolds(s, t);
    hide Fraction, Segment;
    if i != j {
      assert j < i <= j + 1;
      FractionEnds(s[j].t, t);
      FractionEnds(t, s[i + 1].t);
    }
  }

  lemma SegmentHolds<P>(s: seq<Timed<P>>, t: nat)
    requires Increasing(s) && |s| >= 2 && Covers(s, t)
    ensures Segment(s, t) + 1 < |s|
    ensures var i := Segment(s, t); s[i].t <= t <= s[i + 1].t && (i + 2 < |s| ==> t < s[i + 1].t)
  {
  }

  lemma AtKnot<P(!new)>(mix: (P, P, real) -> P, s: seq<Timed<P>>, j: nat)
    requires MeetsEnds(mix) && Increasing(s) && j < |s|
    ensures Covers(s, s[j].t) && At(mix, s, s[j].t) == s[j].p
  {
    hide Fraction;
    if |s| > 1 {
      var i := if j == 0 then 0 else j - 1;
      AtOnSegment(mix, s, i, s[j].t);
      FractionEnds(s[i].t, s[i + 1].t);
    }
  }

  lemma FractionOfPart(t: int, c0: int, c1: int, a: int, b: int)
    requires a <= c0 < c1 <= b && c0 <= t <= c1
    ensures 0.0 <= Fraction(c0, a, b) <= 1.0 && 0.0 <= Fraction(c1, a, b) <= 1.0 && 0.0 <= Fraction(t, c0, c1) <= 1.0
    ensures Part(Fraction(c0, a, b), Fraction(c1, a, b), Fraction(t, c0, c1)) == Fraction(t, a, b)
  {
    var x, y, z, w := (c0 - a) as real, (c1 - c0) as real, (t - c0) as real, (b - a) as real;
    Quotients(x, y, z, w);
  }

  lemma Quotients(x: real, y: real, z: real, w: real)
    requires 0.0 <= x && 0.0 < y && 0.0 <= z <= y && x + y <= w
    ensures 0.0 <= x / w <= 1.0 && 0.0 <= (x + y) / w <= 1.0 && 0.0 <= z / y <= 1.0
    ensures x / w + (z / y) * ((x + y) / w - x / w) == (x + z) / w
  {
    assert (x + y) / w - x / w == y / w;
    assert (z / y) * (y / w) == z / w;
  }

  /** `c` only has knots on the curve of `s`, and no knot of `s` lies strictly between two of its knots. */
  ghost predicate Refines<P>(mix: (P, P, real) -> P, c: seq<Timed<P>>, s: seq<Timed<P>>) {
    && (forall k :: 0 <= k < |c| ==> Covers(s, c[k].t) && c[k].p == At(mix, s, c[k].t))
    && (forall k, j :: 0 <= k < |c| - 1 && 0 <= j < |s| ==> s[j].t <= c[k].t || c[k + 1].t <= s[j].t)
  }

  lemma OnCurve<P(!new)>(mix: (P, P, real) -> P, c: seq<Timed<P>>, s: seq<Timed<P>>, t: nat)
    requires Geodesic(mix) && Increasing(s) && Increasing(c) && Refines(mix, c, s) && Covers(c, t)
    ensures Covers(s, t) && At(mix, c, t) == At(mix, s, t)
  {
    if |c| == 1 {
      assert c[0].t == t;
    } else {
      hide Segment;
      SegmentHolds(c, t);
      OnSegment(mix, c, s, t, Segment(c, t));
    }
  }

  lemma OnSegment<P(!new)>(mix: (P, P, real) -> P, c: seq<Timed<P>>, s: seq<Timed<P>>, t: nat, k: nat)
    requires Geodesic(mix) && Increasing(s) && Increasing(c) && Refines(mix, c, s)
    requires k + 1 < |c| && c[k].t <= t <= c[k + 1].t
    ensures Covers(c, t) && Covers(s, t) && At(mix, c, t) == At(mix, s, t)
  {
    hide Fraction, Part, Segment, At;
    var c0, c1 := c[k].t, c[k + 1].t;
    AtOnSegment(mix, c, k, t);
    var j := SegmentOf(s, c0, c1);
    AtOnSegment(mix, s, j, c0);
    AtOnSegment(mix, s, j, c1);
    AtOnSegment(mix, s, j, t);
    FractionOfPart(t, c0, c1, s[j].t, s[j + 1].t);
  }

  /** The piece of `s` that holds a piece of `c`. */
  lemma SegmentOf<P>(s: seq<Timed<P>>, c0: nat, c1: nat) returns (j: nat)
    requires Increasing(s) && Covers(s, c0) && Covers(s, c1) && c0 < c1
    requires forall i :: 0 <= i < |s| ==> s[i].t <= c0 || c1 <= s[i].t
    ensures j + 1 < |s| && s[j].t <= c0 && c1 <= s[j + 1].t
  {
    hide Segment;
    j := Segment(s, c0);
    SegmentHolds(s, c0);
    assert s[j + 1].t <= c0 || c1 <= s[j + 1].t;
    assert j + 2 == |s| ==> c1 <= s[j + 1].t;
  }

  // ----- clip

  /** Start and exclusive end; an empty trajectory has range (0, 0). */
  function TimeRange<P>(s: seq<Timed<P>>): (nat, nat) {
    if |s| == 0 then (0, 0) else (s[0].t, s[|s| - 1].t + 1)
  }

  /** The entries strictly between `a` and `e`. */
  function Between<P>(s: seq<Timed<P>>, a: nat, e: nat): seq<Timed<P>> {
    if |s| == 0 then []
    else
      var x := s[|s| - 1];
      Between(s[..|s| - 1], a, e) + if a < x.t < e then [x] else []
  }

  function ClipOf<P>(mix: (P, P, real) -> P, s: seq<Timed<P>>, a: nat, b: nat): Result<seq<Timed<P>>, Error> {
    var (t0, t1) := TimeRange(s);
    if a > b then Err(BadRange)
    else if a == b || t0 >= b || t1 <= a then Ok([])
    else
      var start, last := Max(a, t0), Min(b, t1) - 1;
      match Interpolate(mix, s, start)
      case Err(e) => Err(e)
      case Ok(first) =>
        if start == last then Ok([Timed(start, first)])
        else
          match Interpolate(mix, s, last)
          case Err(e) => Err(e)
          case Ok(end) => Ok([Timed(start, first)] + Between(s, start, last) + [Timed(last, end)])
  }

  method Clip<P>(mix: (P, P, real) -> P, s: seq<Timed<P>>, a: nat, b: nat)
    returns (r: Result<seq<Timed<P>>, Error>)
    ensures r == ClipOf(mix, s, a, b)
  {
    if a > b {
      return Err(BadRange);
    }
    var (t0, t1) := TimeRange(s);
    if a == b || t0 >= b || t1 <= a {
      return Ok([]);
    }
    var start, last := Max(a, t0), Min(b, t1) - 1;
    var first := Interpolate(mix, s, start);
    if first.Err? {
      return Err(first.error);
    }
    if start == last {
      return Ok([Timed(start, first.value)]);
    }
    var end := Interpolate(mix, s, last);
    if end.Err? {
      return Err(end.error);
    }
    var poses := [Timed(start, first.value)];
    for i := 0 to |s|
      invariant poses == [Timed(start, first.value)] + Between(s[..i], start, last)
    {
      assert s[..i + 1][..i] == s[..i];
      if start < s[i].t < last {
        poses := poses + [s[i]];
      }
    }
    assert s[..|s|] == s;
    return Ok(poses + [Timed(last, end.value)]);
  }

  ghost predicate Selects<P(!new)>(f: seq<Timed<P>>, s: seq<Timed<P>>, a: nat, e: nat) {
    forall x :: x in f <==> x in s && a < x.t < e
  }

  lemma {:induction false} BetweenSelects<P(!new)>(s: seq<Timed<P>>, a: nat, e: nat)
    requires Increasing(s)
    ensures Increasing(Between(s, a, e)) && Selects(Between(s, a, e), s, a, e)
  {
    if |s| > 0 {
      var r, x := s[..|s| - 1], s[|s| - 1];
      BetweenSelects(r, a, e);
      SelectsMore(Between(r, a, e), r, x, a, e);
      assert s == r + [x];
    }
  }

  lemma SelectsMore<P(!new)>(f: seq<Timed<P>>, r: seq<Timed<P>>, x: Timed<P>, a: nat, e: nat)
    requires Increasing(f) && Selects(f, r, a, e) && forall y :: y in r ==> y.t < x.t
    ensures var g := f + if a < x.t < e then [x] else [];
            Increasing(g) && Selects(g, r + [x], a, e)
  {
    forall i | 0 <= i < |f|
      ensures f[i].t < x.t
    {
      assert f[i] in f;
    }
  }

  lemma {:induction false} BetweenConcat<P>(x: seq<Timed<P>>, y: seq<Timed<P>>, a: nat, e: nat)
    ensures Between(x + y, a, e) == Between(x, a, e) + Between(y, a, e)
  {
    if |y| == 0 {
      assert x + y == x;
    } else {
      assert (x + y)[..|x + y| - 1] == x + y[..|y| - 1];
      BetweenConcat(x, y[..|y| - 1], a, e);
    }
  }

  lemma {:induction false} BetweenBetween<P>(s: seq<Timed<P>>, a: nat, e: nat, a': nat, e': nat)
    requires a <= a' && e' <= e
    ensures Between(Between(s, a, e), a', e') == Between(s, a', e')
  {
    if |s| > 0 {
      var r, x := s[..|s| - 1], s[|s| - 1];
      BetweenBetween(r, a, e, a', e');
      BetweenConcat(Between(r, a, e), if a < x.t < e then [x] else [], a', e');
    }
  }

  /** The knots of a clip: both ends, and between them every knot of the curve. */
  function Framed<P>(mix: (P, P, real) -> P, s: seq<Timed<P>>, start: nat, last: nat): seq<Timed<P>>
    requires Covers(s, start) && Covers(s, last)
  {
    [Timed(start, At(mix, s, start))] + Between(s, start, last) + [Timed(last, At(mix, s, last))]
  }

  lemma FramedRefines<P(!new)>(mix: (P, P, real) -> P, s: seq<Timed<P>>, start: nat, last: nat)
    requires MeetsEnds(mix) && Increasing(s) && Covers(s, start) && Covers(s, last) && start < last
    ensures Increasing(Framed(mix, s, start, last))
    ensures Refines(mix, Framed(mix, s, start, last), s)
  {
    hide At, Framed, Covers;
    var c := Framed(mix, s, start, last);
    forall k | 0 <= k < |c|
      ensures Covers(s, c[k].t) && c[k].p == At(mix, s, c[k].t)
    {
      FramedKnot(mix, s, start, last, k);
    }
    forall k, j | 0 <= k < |c| - 1 && 0 <= j < |s|
      ensures s[j].t <= c[k].t || c[k + 1].t <= s[j].t
    {
      FramedClear(mix, s, start, last, k, j);
    }
    FramedIncreases(mix, s, start, last);
  }

  lemma FramedIncreases<P(!new)>(mix: (P, P, real) -> P, s: seq<Timed<P>>, start: nat, last: nat)
    requires Increasing(s) && Covers(s, start) && Covers(s, last) && start < last
    ensures Increasing(Framed(mix, s, start, last))
  {
    hide At, Between, Covers;
    var f := Between(s, start, last);
    BetweenSelects(s, start, last);
    assert forall k :: 0 <= k < |f| ==> f[k] in f;
  }

  /** Each knot of a framed piece is on the curve; the inner ones are knots of it. */
  lemma FramedKnot<P(!new)>(mix: (P, P, real) -> P, s: seq<Timed<P>>, start: nat, last: nat, k: nat)
    requires MeetsEnds(mix) && Increasing(s) && Covers(s, start) && Covers(s, last) && start < last
             && k < |Framed(mix, s, start, last)|
    ensures var c := Framed(mix, s, start, last); Covers(s, c[k].t) && c[k].p == At(mix, s, c[k].t)
  {
    hide At, Between;
    var f, c := Between(s, start, last), Framed(mix, s, start, last);
    if 0 < k < |c| - 1 {
      BetweenSelects(s, start, last);
      assert c[k] == f[k - 1] && f[k - 1] in f;
      var j :| 0 <= j < |s| && s[j] == f[k - 1];
      AtKnot(mix, s, j);
    }
  }

  /** No knot of the curve lies strictly between two neighbours of a framed piece. */
  lemma FramedClear<P(!new)>(mix: (P, P, real) -> P, s: seq<Timed<P>>, start: nat, last: nat, k: nat, j: nat)
    requires Increasing(s) && Covers(s, start) && Covers(s, last) && start < last
    requires k < |Framed(mix, s, start, last)| - 1 && j < |s|
    ensures var c := Framed(mix, s, start, last); s[j].t <= c[k].t || c[k + 1].t <= s[j].t
  {
    hide At, Between, Covers;
    var f, c := Between(s, start, last), Framed(mix, s, start, last);
    BetweenSelects(s, start, last);
    FramedIncreases(mix, s, start, last);
    if start < s[j].t < last {
      assert s[j] in f;
      var m :| 0 <= m < |f| && f[m] == s[j];
      assert c[m + 1] == s[j] && (m + 1 <= k || k + 1 <= m + 1);
    } else {
      assert c[0].t == start && c[|c| - 1].t == last;
      assert start <= c[k].t && c[k + 1].t <= last;
    }
  }

  /** What a clip of the range from `start` to `last` holds. */
  function Piece<P>(mix: (P, P, real) -> P, s: seq<Timed<P>>, start: nat, last: nat): seq<Timed<P>>
    requires Covers(s, start) && Covers(s, last)
  {
    if start == last then [Timed(start, At(mix, s, start))] else Framed(mix, s, start, last)
  }

  /** A clip that overlaps the curve is the piece over the overlap. */
  lemma ClipForm<P>(mix: (P, P, real) -> P, s: seq<Timed<P>>, a: nat, b: nat)
    requires Increasing(s) && |s| > 0 && a < b && s[0].t < b && a <= s[|s| - 1].t
    ensures var start, last := Max(a, s[0].t), Min(b - 1, s[|s| - 1].t);
            && Covers(s, start) && Covers(s, last) && start <= last
            && ClipOf(mix, s, a, b) == Ok(Piece(mix, s, start, last))
  {
    hide Interpolate, Between;
    assert s[0].t <= s[|s| - 1].t;
    InterpolateCovered(mix, s, Max(a, s[0].t));
    InterpolateCovered(mix, s, Min(b - 1, s[|s| - 1].t));
  }

  lemma ClipShape<P(!new)>(mix: (P, P, real) -> P, s: seq<Timed<P>>, a: nat, b: nat)
    requires MeetsEnds(mix) && Increasing(s) && |s| > 0
    requires a < b && s[0].t < b && a <= s[|s| - 1].t
    ensures var start, last := Max(a, s[0].t), Min(b - 1, s[|s| - 1].t);
            && Covers(s, start) && Covers(s, last)
            && ClipOf(mix, s, a, b) == Ok(Piece(mix, s, start, last))
    ensures var c := ClipOf(mix, s, a, b).value;
            && |c| > 0 && Increasing(c) && Refines(mix, c, s)
            && c[0].t == Max(a, s[0].t) && c[|c| - 1].t == Min(b - 1, s[|s| - 1].t)
  {
    hide ClipOf, Between, At;
    var start, last := Max(a, s[0].t), Min(b - 1, s[|s| - 1].t);
    ClipForm(mix, s, a, b);
    if start < last {
      FramedRefines(mix, s, start, last);
    }
  }

  lemma InterpolateCovered<P>(mix: (P, P, real) -> P, s: seq<Timed<P>>, t: nat)
    ensures Interpolate(mix, s, t).Ok? <==> Covers(s, t)
    ensures Covers(s, t) ==> Interpolate(mix, s, t) == Ok(At(mix, s, t))
    ensures !Covers(s, t) ==> Interpolate(mix, s, t) == Err(if |s| == 0 then EmptyTrajectory else OutOfRange)
  {
    hide Fraction;
  }

  /** Clipping preserves the curve, and covers exactly the overlap of the two ranges. */
  lemma ClipPreservesCurve<P(!new)>(mix: (P, P, real) -> P, s: seq<Timed<P>>, a: nat, b: nat)
    requires Geodesic(mix) && Increasing(s)
    ensures ClipOf(mix, s, a, b) == Err(BadRange) <==> a > b
    ensures a <= b ==>
              var r := ClipOf(mix, s, a, b);
              && r.Ok? && Increasing(r.value)
              && (forall t: nat :: Covers(r.value, t) <==> Covers(s, t) && a <= t < b)
              && (forall t: nat :: Covers(r.value, t) ==> At(mix, r.value, t) == At(mix, s, t))
  {
    if a < b && |s| > 0 && s[0].t < b && a <= s[|s| - 1].t {
      ClipShape(mix, s, a, b);
      hide ClipOf;
      var c := ClipOf(mix, s, a, b).value;
      forall t: nat
        ensures Covers(c, t) <==> Covers(s, t) && a <= t < b
        ensures Covers(c, t) ==> At(mix, c, t) == At(mix, s, t)
      {
        if Covers(c, t) {
          OnCurve(mix, c, s, t);
        }
      }
    }
  }

  lemma BetweenFramed<P>(x: Timed<P>, f: seq<Timed<P>>, y: Timed<P>, a: nat, e: nat)
    requires x.t <= a && e <= y.t
    ensures Between([x] + f + [y], a, e) == Between(f, a, e)
  {
    BetweenConcat([x] + f, [y], a, e);
    BetweenConcat([x], f, a, e);
  }

  lemma FramedTwice<P(!new)>(mix: (P, P, real) -> P, s: seq<Timed<P>>, a: nat, e: nat, start: nat, last: nat)
    requires Geodesic(mix) && Increasing(s) && Covers(s, a) && Covers(s, e) && a <= start < last <= e
    ensures var x := Framed(mix, s, a, e);
            Covers(x, start) && Covers(x, last) && Framed(mix, x, start, last) == Framed(mix, s, start, last)
  {
    var x := Framed(mix, s, a, e);
    FramedRefines(mix, s, a, e);
    OnCurve(mix, x, s, start);
    OnCurve(mix, x, s, last);
    hide At, Between;
    BetweenFramed(Timed(a, At(mix, s, a)), Between(s, a, e), Timed(e, At(mix, s, e)), start, last);
    BetweenBetween(s, a, e, start, last);
  }

  lemma PieceOfPiece<P(!new)>(mix: (P, P, real) -> P, s: seq<Timed<P>>, a: nat, e: nat, start: nat, last: nat)
    requires Geodesic(mix) && Increasing(s) && Covers(s, a) && Covers(s, e) && a <= start <= last <= e
    ensures var x := Piece(mix, s, a, e);
            Covers(x, start) && Covers(x, last) && Piece(mix, x, start, last) == Piece(mix, s, start, last)
  {
    if start < last {
      FramedTwice(mix, s, a, e, start, last);
    } else if a < e {
      FramedRefines(mix, s, a, e);
      OnCurve(mix, Framed(mix, s, a, e), s, start);
    }
  }

  lemma ClipOfOverlappingClip<P(!new)>(mix: (P, P, real) -> P, s: seq<Timed<P>>, a: nat, b: nat, c: nat, d: nat)
    requires Geodesic(mix) && Increasing(s) && |s| > 0
    requires Max(a, c) < Min(b, d) && s[0].t < Min(b, d) && Max(a, c) <= s[|s| - 1].t
    ensures ClipOf(mix, s, a, b).Ok?
    ensures ClipOf(mix, ClipOf(mix, s, a, b).value, c, d) == ClipOf(mix, s, Max(a, c), Min(b, d))
  {
    hide ClipOf, Piece, Refines, Increasing, Geodesic, MeetsEnds, Covers, At;
    var t0, t1 := s[0].t, s[|s| - 1].t;
    Basics(mix, s);
    ClipShape(mix, s, a, b);
    ClipShape(mix, s, Max(a, c), Min(b, d));
    var x := ClipOf(mix, s, a, b).value;
    ClipShape(mix, x, c, d);
    PieceOfPiece(mix, s, Max(a, t0), Min(b - 1, t1), Max(Max(a, c), t0), Min(Min(b, d) - 1, t1));
  }

  lemma Basics<P(!new)>(mix: (P, P, real) -> P, s: seq<Timed<P>>)
    requires Geodesic(mix) && Increasing(s) && |s| > 0
    ensures MeetsEnds(mix) && s[0].t <= s[|s| - 1].t
  {
  }

  /** Clipping twice is clipping once to the common range, pose for pose. */
  lemma ClipOfClip<P(!new)>(mix: (P, P, real) -> P, s: seq<Timed<P>>, a: nat, b: nat, c: nat, d: nat)
    requires Geodesic(mix) && Increasing(s) && a <= b && c <= d
    ensures ClipOf(mix, s, a, b).Ok?
    ensures ClipOf(mix, ClipOf(mix, s, a, b).value, c, d) ==
            if Max(a, c) <= Min(b, d) then ClipOf(mix, s, Max(a, c), Min(b, d)) else Ok([])
  {
    var m, n := Max(a, c), Min(b, d);
    if m < n && |s| > 0 && s[0].t < n && m <= s[|s| - 1].t {
      ClipOfOverlappingClip(mix, s, a, b, c, d);
    } else if |s| > 0 && a < b && s[0].t < b && a <= s[|s| - 1].t {
      ClipShape(mix, s, a, b);
      hide Framed, At;
    }
  }

  // ----- append

  function AppendOf<P>(close: (P, P) -> bool, x: seq<Timed<P>>, y: seq<Timed<P>>): Result<seq<Timed<P>>, Error> {
    if |x| == 0 then Ok(y)
    else if |y| == 0 then Ok(x)
    else
      var last, first := x[|x| - 1], y[0];
      if last.t == first.t then
        if close(last.p, first.p) then Ok(x + y[1..]) else Err(PoseMismatch)
      else if last.t < first.t then Ok(x + y)
      else Err(NotContinuous)
  }

  /** With nothing on one side the other side is kept; otherwise each error has its cause. */
  lemma AppendOutcome<P>(close: (P, P) -> bool, x: seq<Timed<P>>, y: seq<Timed<P>>)
    ensures |x| == 0 ==> AppendOf(close, x, y) == Ok(y)
    ensures |y| == 0 ==> AppendOf(close, x, y) == Ok(x)
    ensures |x| > 0 && |y| > 0 ==>
              var last, first, r := x[|x| - 1], y[0], AppendOf(close, x, y);
              && (r == Err(NotContinuous) <==> last.t > first.t)
              && (r == Err(PoseMismatch) <==> last.t == first.t && !close(last.p, first.p))
              && (r.Ok? ==> |r.value| == |x| + |y| - (if last.t == first.t then 1 else 0))
  {
  }

  /**
   * Append succeeds exactly when the ranges do not overlap, but for one shared timestamp with close payloads.
   * The first curve is kept; the second one is kept exactly when the shared payloads, if any, are the same.
   */
  lemma AppendJoins<P(!new)>(mix: (P, P, real) -> P, close: (P, P) -> bool, x: seq<Timed<P>>, y: seq<Timed<P>>)
    requires Geodesic(mix) && Increasing(x) && Increasing(y) && |x| > 0 && |y| > 0
    ensures var last, first := x[|x| - 1], y[0];
            AppendOf(close, x, y).Ok? <==> last.t < first.t || (last.t == first.t && close(last.p, first.p))
    ensures AppendOf(close, x, y).Ok? ==>
              var j := AppendOf(close, x, y).value;
              && Increasing(j) && j[0].t == x[0].t && j[|j| - 1].t == y[|y| - 1].t
              && (forall t: nat :: Covers(x, t) ==> Covers(j, t) && At(mix, j, t) == At(mix, x, t))
              && ((forall t: nat :: Covers(y, t) ==> Covers(j, t) && At(mix, j, t) == At(mix, y, t))
                  <==> x[|x| - 1].t < y[0].t || x[|x| - 1].p == y[0].p)
  {
    hide At, Geodesic, Covers, Increasing;
    if AppendOf(close, x, y).Ok? {
      var j, d := AppendShape(close, x, y);
      forall t: nat | Covers(x, t)
        ensures Covers(j, t) && At(mix, j, t) == At(mix, x, t)
      {
        SliceOnCurve(mix, j, x, 0, t);
      }
      SecondKept(mix, close, x, y);
      AppendEnds(close, x, y);
    }
  }

  lemma AppendEnds<P>(close: (P, P) -> bool, x: seq<Timed<P>>, y: seq<Timed<P>>)
    requires |x| > 0 && |y| > 0 && AppendOf(close, x, y).Ok?
    ensures var j := AppendOf(close, x, y).value; |j| > 0 && j[0].t == x[0].t && j[|j| - 1].t == y[|y| - 1].t
  {
  }

  lemma SecondKept<P(!new)>(mix: (P, P, real) -> P, close: (P, P) -> bool, x: seq<Timed<P>>, y: seq<Timed<P>>)
    requires Geodesic(mix) && Increasing(x) && Increasing(y) && |x| > 0 && |y| > 0 && AppendOf(close, x, y).Ok?
    ensures (forall t: nat :: Covers(y, t) ==>
              Covers(AppendOf(close, x, y).value, t) && At(mix, AppendOf(close, x, y).value, t) == At(mix, y, t))
            <==> x[|x| - 1].t < y[0].t || x[|x| - 1].p == y[0].p
  {
    hide At, Geodesic, Covers, Increasing;
    var j, d := AppendShape(close, x, y);
    if x[|x| - 1].t < y[0].t || x[|x| - 1].p == y[0].p {
      forall t: nat | Covers(y, t)
        ensures Covers(j, t) && At(mix, j, t) == At(mix, y, t)
      {
        SliceOnCurve(mix, j, y, d, t);
      }
    } else {
      AppendTimes(close, x, y);
      JointPayload(mix, close, x, y);
    }
  }

  lemma AppendTimes<P>(close: (P, P) -> bool, x: seq<Timed<P>>, y: seq<Timed<P>>)
    requires |x| > 0 && |y| > 0 && AppendOf(close, x, y).Ok?
    ensures x[|x| - 1].t <= y[0].t
  {
  }

  /** At a shared timestamp the first curve's payload wins. */
  lemma JointPayload<P(!new)>(mix: (P, P, real) -> P, close: (P, P) -> bool, x: seq<Timed<P>>, y: seq<Timed<P>>)
    requires Geodesic(mix) && Increasing(x) && Increasing(y) && |x| > 0 && |y| > 0
    requires x[|x| - 1].t == y[0].t && AppendOf(close, x, y).Ok?
    ensures var j, t := AppendOf(close, x, y).value, y[0].t;
            Covers(j, t) && Covers(y, t) && At(mix, j, t) == x[|x| - 1].p && At(mix, y, t) == y[0].p
  {
    hide At, Geodesic;
    var j, d := AppendShape(close, x, y);
    Basics(mix, x);
    AtKnot(mix, j, |x| - 1);
    AtKnot(mix, y, 0);
    assert j[|x| - 1] == x[|x| - 1];
  }

  lemma AppendShape<P>(close: (P, P) -> bool, x: seq<Timed<P>>, y: seq<Timed<P>>) returns (j: seq<Timed<P>>, d: nat)
    requires Increasing(x) && Increasing(y) && |x| > 0 && |y| > 0 && AppendOf(close, x, y).Ok?
    ensures j == AppendOf(close, x, y).value && Increasing(j) && |x| <= |j| && x == j[0..0 + |x|] && d + |y| == |j|
    ensures x[|x| - 1].t < y[0].t || x[|x| - 1].p == y[0].p ==> y == j[d..d + |y|]
    ensures j[d].t == y[0].t && (x[|x| - 1].t == y[0].t ==> j[d] == x[|x| - 1]) && forall i :: 1 <= i < |y| ==>
              j[d + i] == y[i]
  {
    hide Increasing;
    j := AppendOf(close, x, y).value;
    d := |j| - |y|;
    if x[|x| - 1].t == y[0].t {
      TailIncreases(x, y);
      JoinIncreases(x, y[1..]);
      assert forall i :: 0 < i < |y| ==> j[d + i] == y[i];
    } else {
      JoinIncreases(x, y);
    }
  }

  lemma TailIncreases<P>(x: seq<Timed<P>>, y: seq<Timed<P>>)
    requires Increasing(y) && |x| > 0 && |y| > 0 && x[|x| - 1].t == y[0].t
    ensures Increasing(y[1..]) && (|y| > 1 ==> x[|x| - 1].t < y[1..][0].t)
  {
  }

  lemma JoinIncreases<P>(x: seq<Timed<P>>, y: seq<Timed<P>>)
    requires Increasing(x) && Increasing(y) && |x| > 0 && (|y| > 0 ==> x[|x| - 1].t < y[0].t)
    ensures Increasing(x + y)
  {
    forall i, j | 0 <= i < j < |x + y|
      ensures (x + y)[i].t < (x + y)[j].t
    {
      assert i < |x| ==> x[i].t <= x[|x| - 1].t;
      assert j >= |x| ==> y[0].t <= y[j - |x|].t;
    }
  }

  /** A run of consecutive knots of a curve is the same curve on its own range. */
  lemma SliceOnCurve<P(!new)>(mix: (P, P, real) -> P, j: seq<Timed<P>>, x: seq<Timed<P>>, d: nat, t: nat)
    requires Geodesic(mix) && Increasing(j) && d + |x| <= |j| && x == j[d..d + |x|] && Covers(x, t)
    ensures Covers(j, t) && At(mix, j, t) == At(mix, x, t)
  {
    hide At;
    assert forall k :: 0 <= k < |x| ==> x[k] == j[d + k];
    forall k | 0 <= k < |x|
      ensures Covers(j, x[k].t) && x[k].p == At(mix, j, x[k].t)
    {
      AtKnot(mix, j, d + k);
    }
    forall k, i | 0 <= k < |x| - 1 && 0 <= i < |j|
      ensures j[i].t <= x[k].t || x[k + 1].t <= j[i].t
    {
      assert i <= d + k || d + k + 1 <= i;
    }
    OnCurve(mix, x, j, t);
  }

  /** Two clips that meet at `m` can be appended, and give back the clip of the whole range. */
  lemma ClipsRejoin<P(!new)>(mix: (P, P, real) -> P, close: (P, P) -> bool, s: seq<Timed<P>>, a: nat, m: nat, b: nat)
    requires Geodesic(mix) && Increasing(s) && Covers(s, m) && a <= m < b
    requires forall p :: close(p, p)
    ensures ClipOf(mix, s, a, m + 1).Ok? && ClipOf(mix, s, m, b).Ok? && ClipOf(mix, s, a, b).Ok?
    ensures var x, y, whole := ClipOf(mix, s, a, m + 1).value, ClipOf(mix, s, m, b).value, ClipOf(mix, s, a, b).value;
            var r := AppendOf(close, x, y);
            && r.Ok? && Increasing(r.value)
            && (forall t: nat :: Covers(r.value, t) <==> Covers(whole, t))
            && (forall t: nat :: Covers(whole, t) ==> At(mix, r.value, t) == At(mix, whole, t))
  {
    hide ClipOf, At, Geodesic, MeetsEnds, Refines;
    Basics(mix, s);
    ClipShape(mix, s, a, m + 1);
    ClipShape(mix, s, m, b);
    ClipPreservesCurve(mix, s, a, m + 1);
    ClipPreservesCurve(mix, s, m, b);
    ClipPreservesCurve(mix, s, a, b);
    var x, y, whole := ClipOf(mix, s, a, m + 1).value, ClipOf(mix, s, m, b).value, ClipOf(mix, s, a, b).value;
    assert x[|x| - 1].t == m == y[0].t;
    RefinesAt(mix, x, s, |x| - 1);
    RefinesAt(mix, y, s, 0);
    AppendJoins(mix, close, x, y);
    var j := AppendOf(close, x, y).value;
    forall t: nat
      ensures Covers(j, t) <==> Covers(whole, t)
      ensures Covers(whole, t) ==> At(mix, j, t) == At(mix, whole, t)
    {
      assert Covers(j, t) <==> Covers(x, t) || Covers(y, t);
    }
  }

  lemma ClipsRejoinAt<P(!new)>(mix: (P, P, real) -> P, close: (P, P) -> bool, s: seq<Timed<P>>, a: nat, m: nat,
        b: nat, t: nat)
    requires Geodesic(mix) && Increasing(s) && Covers(s, m) && a <= m < b && Covers(s, t) && a <= t < b
    requires forall p :: close(p, p)
    ensures ClipOf(mix, s, a, m + 1).Ok? && ClipOf(mix, s, m, b).Ok?
    ensures var r := AppendOf(close, ClipOf(mix, s, a, m + 1).value, ClipOf(mix, s, m, b).value);
            r.Ok? && Increasing(r.value) && Covers(r.value, t) && At(mix, r.value, t) == At(mix, s, t)
  {
    hide ClipOf, At, AppendOf, Geodesic;
    ClipPreservesCurve(mix, s, a, m + 1);
    ClipPreservesCurve(mix, s, m, b);
    ClipsRejoin(mix, close, s, a, m, b);
    ClipPreservesCurve(mix, s, a, b);
    assert Covers(ClipOf(mix, s, a, b).value, t);
  }

  lemma RefinesAt<P>(mix: (P, P, real) -> P, c: seq<Timed<P>>, s: seq<Timed<P>>, k: nat)
    requires Refines(mix, c, s) && k < |c|
    ensures Covers(s, c[k].t) && c[k].p == At(mix, s, c[k].t)
  {
  }
}
