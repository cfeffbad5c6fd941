/**
 A stored route that grows as the vehicle gets near its end (RouteGenerator in
 src/runtime/alpasim_runtime/route_generator.py). Which waypoints the map adds next is the map's
 business: here they come in a list, one entry for every time the route is to be extended.
 */
module RouteExtension {
  import opened Wrappers
  import opened Vectors
  import opened Poses
  import opened Arcs
  import I = Interpolators
  import opened Remainders
  import opened Routes

  type Supply = seq<seq<Vec>>

  /** The route, what the map has left, and what went wrong. */
  datatype Outcome = Outcome(route: seq<Vec>, supply: Supply, error: Option<Routes.Error>)

  function Ahead(sqrt: real -> real, route: seq<Vec>, p: Vec): real {
    Total(sqrt, RemainingOf(sqrt, route, p))
  }

  /** The loop of `_ensure_sufficient_waypoints`: an entry without waypoints ends it, like the end of the list. */
  ghost function Extended(sqrt: real -> real, route: seq<Vec>, supply: Supply, p: Vec): Outcome
    decreases |supply|
  {
    if Ahead(sqrt, route, p) >= LOOKAHEAD || |supply| == 0 then Outcome(route, supply, None)
    else if |supply[0]| == 0 then Outcome(route, supply[1..], None)
    else
      var longer := route + supply[0];
      if FoldsBack(sqrt, longer) then Outcome(longer, supply[1..], Some(FoldedBack))
      else if RemainingOf(sqrt, longer, p) == [] then Outcome(longer, supply[1..], Some(NothingAhead))
      else Extended(sqrt, longer, supply[1..], p)
  }

  /** A vehicle with nothing of the route ahead of it is left with that. */
  ghost function Ensured(sqrt: real -> real, route: seq<Vec>, supply: Supply, p: Vec): Outcome {
    if RemainingOf(sqrt, route, p) == [] then Outcome(route, supply, None) else Extended(sqrt, route, supply, p)
  }

  // ----- what extending does

  function Joined(supply: Supply): seq<Vec> {
    if |supply| == 0 then [] else supply[0] + Joined(supply[1..])
  }

  /** The route with the first `k` entries. */
  function LongerBy(route: seq<Vec>, supply: Supply, k: int): seq<Vec>
    requires 0 <= k <= |supply|
  {
    route + Joined(supply[..k])
  }

  lemma LongerByMore(route: seq<Vec>, supply: Supply, k: int)
    requires 0 <= k <= |supply|
    ensures LongerBy(route, supply, 0) == route
    ensures k > 0 ==> LongerBy(route, supply, k) == LongerBy(route + supply[0], supply[1..], k - 1)
  {
    if k > 0 {
      assert supply[..k][1..] == supply[1..][..k - 1] && supply[..k][0] == supply[0];
      assert route + (supply[0] + Joined(supply[1..][..k - 1])) == route + supply[0] + Joined(supply[1..][..k - 1]);
    }
  }

  /** The old route and the first `k` entries, whole and in order; what is left is the others, but for an empty one. */
  ghost predicate IsLongerBy(route: seq<Vec>, supply: Supply, r: Outcome, k: int) {
    && 0 <= k <= |supply| && r.route == LongerBy(route, supply, k)
    && (r.supply == supply[k..] || (k < |supply| && |supply[k]| == 0 && r.supply == supply[k + 1..]))
    && forall i :: 0 <= i < k ==> |supply[i]| > 0
  }

  lemma OneEntryMore(route: seq<Vec>, supply: Supply, r: Outcome, k: nat)
    requires |supply| > 0 && |supply[0]| > 0 && IsLongerBy(route + supply[0], supply[1..], r, k)
    ensures IsLongerBy(route, supply, r, k + 1)
  {
    hide LongerBy;
    var more := supply[1..];
    LongerByMore(route, supply, k + 1);
    assert more[k..] == supply[k + 1..];
    assert k < |more| ==> more[k] == supply[k + 1] && more[k + 1..] == supply[k + 2..];
    assert forall i :: 1 <= i < k + 1 ==> supply[i] == more[i - 1];
  }

  lemma NoEntry(route: seq<Vec>, supply: Supply, error: Option<Routes.Error>)
    ensures IsLongerBy(route, supply, Outcome(route, supply, error), 0)
    ensures |supply| > 0 && |supply[0]| == 0 ==> IsLongerBy(route, supply, Outcome(route, supply[1..], error), 0)
  {
    LongerByMore(route, supply, 0);
  }

  /** A route the extension goes on with: it does not fold back, and some of it is ahead of the vehicle. */
  ghost predicate Sound(sqrt: real -> real, route: seq<Vec>, p: Vec) {
    !FoldsBack(sqrt, route) && RemainingOf(sqrt, route, p) != []
  }

  /** Extending goes on after the first `k` entries only while the route is short, and sound. */
  ghost predicate GoesOnUpTo(sqrt: real -> real, route: seq<Vec>, supply: Supply, p: Vec, k: int) {
    && 0 <= k <= |supply|
    && (forall i :: 0 <= i < k ==> Ahead(sqrt, LongerBy(route, supply, i), p) < 80.0)
    && (forall i :: 1 <= i < k ==> Sound(sqrt, LongerBy(route, supply, i), p))
  }

  /** Why it stops there: an error of the last entry, 80 metres ahead, no entry left, or an empty one. */
  ghost predicate StopsFor(sqrt: real -> real, supply: Supply, p: Vec, r: Outcome, k: int)
    requires 0 <= k <= |supply|
  {
    match r.error
    case Some(FoldedBack) => k > 0 && FoldsBack(sqrt, r.route) && r.supply == supply[k..]
    case Some(NothingAhead) =>
      k > 0 && !FoldsBack(sqrt, r.route) && RemainingOf(sqrt, r.route, p) == [] && r.supply == supply[k..]
    case None =>
      && (k > 0 ==> Sound(sqrt, r.route, p))
      && (if Ahead(sqrt, r.route, p) >= 80.0 then r.supply == supply[k..]
          else if k < |supply| then |supply[k]| == 0 && r.supply == supply[k + 1..]
          else r.supply == [])
    case _ => false
  }

  /**
   * The route grows by whole entries, none of them skipped, no longer than it is short, and it is clear why it
   * stops.
   */
  lemma {:induction false} ExtendedByEntries(sqrt: real -> real, route: seq<Vec>, supply: Supply, p: Vec)
      returns (k: nat)
    ensures var r := Extended(sqrt, route, supply, p);
            && k <= |supply| && IsLongerBy(route, supply, r, k)
            && GoesOnUpTo(sqrt, route, supply, p, k) && StopsFor(sqrt, supply, p, r, k)
    decreases |supply|
  {
    hide FoldsBack, Ahead, RemainingOf, IsLongerBy, GoesOnUpTo, LongerBy;
    var r := Extended(sqrt, route, supply, p);
    k := 0;
    NoEntry(route, supply, r.error);
    LongerByMore(route, supply, 0);
    GoesOnNow(sqrt, route, supply, p);
    assert supply[0..] == supply;
    if !(Ahead(sqrt, route, p) >= LOOKAHEAD) && |supply| > 0 && |supply[0]| > 0 {
      var longer, more := route + supply[0], supply[1..];
      if FoldsBack(sqrt, longer) || RemainingOf(sqrt, longer, p) == [] {
        NoEntry(longer, more, r.error);
        GoesOnNow(sqrt, longer, more, p);
        assert more[0..] == supply[1..];
      } else {
        k := ExtendedByEntries(sqrt, longer, more, p);
        NoneTaken(longer, more, r);
        assert more[k..] == supply[k + 1..];
        assert k < |more| ==> more[k] == supply[k + 1] && more[k + 1..] == supply[k + 2..];
      }
      GoesOnMore(sqrt, route, supply, p, k);
      OneEntryMore(route, supply, r, k);
      k := k + 1;
    }
  }

  lemma NoneTaken(route: seq<Vec>, supply: Supply, r: Outcome)
    ensures IsLongerBy(route, supply, r, 0) ==> r.route == route
  {
    LongerByMore(route, supply, 0);
  }

  lemma GoesOnNow(sqrt: real -> real, route: seq<Vec>, supply: Supply, p: Vec)
    ensures GoesOnUpTo(sqrt, route, supply, p, 0)
  {
  }

  lemma GoesOnMore(sqrt: real -> real, route: seq<Vec>, supply: Supply, p: Vec, k: nat)
    requires |supply| > 0 && Ahead(sqrt, route, p) < 80.0 && GoesOnUpTo(sqrt, route + supply[0], supply[1..], p, k)
    requires k > 0 ==> Sound(sqrt, route + supply[0], p)
    ensures GoesOnUpTo(sqrt, route, supply, p, k + 1)
  {
    hide Ahead, LongerBy, Sound;
    var longer, more := route + supply[0], supply[1..];
    LongerByMore(longer, more, 0);
    forall i | 0 <= i < k + 1
      ensures Ahead(sqrt, LongerBy(route, supply, i), p) < 80.0
      ensures i > 0 ==> Sound(sqrt, LongerBy(route, supply, i), p)
    {
      LongerByMore(route, supply, i);
      if i > 0 {
        assert Ahead(sqrt, LongerBy(longer, more, i - 1), p) < 80.0;
        assert i > 1 ==> Sound(sqrt, LongerBy(longer, more, i - 1), p);
      }
    }
  }

  /** `k` entries, none of them empty, make the route long enough, and no route on the way is unsound. */
  ghost predicate Reaches(sqrt: real -> real, route: seq<Vec>, supply: Supply, p: Vec, k: int) {
    && 0 <= k <= |supply| && (forall i :: 0 <= i < k ==> |supply[i]| > 0)
    && (forall i :: 1 <= i <= k ==> Sound(sqrt, LongerBy(route, supply, i), p))
    && Ahead(sqrt, LongerBy(route, supply, k), p) >= 80.0
  }

  lemma {:induction false} ExtendedReaches(sqrt: real -> real, route: seq<Vec>, supply: Supply, p: Vec)
    ensures var r := Extended(sqrt, route, supply, p);
            r.error.None? && Ahead(sqrt, r.route, p) >= 80.0 <==> exists k :: Reaches(sqrt, route, supply, p, k)
    decreases |supply|
  {
    hide FoldsBack, Ahead, RemainingOf, LongerBy;
    LongerByMore(route, supply, 0);
    if Ahead(sqrt, route, p) >= LOOKAHEAD {
      assert Reaches(sqrt, route, supply, p, 0);
    } else if |supply| > 0 && |supply[0]| > 0 {
      var longer, more := route + supply[0], supply[1..];
      if Sound(sqrt, longer, p) {
        ExtendedReaches(sqrt, longer, more, p);
        if k :| Reaches(sqrt, longer, more, p, k) {
          ReachesNext(sqrt, route, supply, p, k + 1);
        }
      }
      if k :| Reaches(sqrt, route, supply, p, k) {
        ReachesNext(sqrt, route, supply, p, k);
      }
    } else {
      assert forall k :: Reaches(sqrt, route, supply, p, k) ==> k == 0;
    }
  }

  lemma ReachesNext(sqrt: real -> real, route: seq<Vec>, supply: Supply, p: Vec, k: int)
    requires |supply| > 0 && |supply[0]| > 0 && !(Ahead(sqrt, route, p) >= LOOKAHEAD)
    ensures Reaches(sqrt, route, supply, p, k) <==>
            Sound(sqrt, route + supply[0], p) && Reaches(sqrt, route + supply[0], supply[1..], p, k - 1)
  {
    hide Ahead, LongerBy, Sound;
    var longer, more := route + supply[0], supply[1..];
    if 1 <= k <= |supply| {
      LongerByMore(longer, more, 0);
      LongerByMore(route, supply, 1);
      LongerByMore(route, supply, k);
      if Reaches(sqrt, route, supply, p, k) {
        assert forall i :: 0 <= i < k - 1 ==> more[i] == supply[i + 1];
        assert Sound(sqrt, LongerBy(route, supply, 1), p);
        forall i | 1 <= i <= k - 1
          ensures Sound(sqrt, LongerBy(longer, more, i), p)
        {
          LongerByMore(route, supply, i + 1);
          assert Sound(sqrt, LongerBy(route, supply, i + 1), p);
        }
      }
      if Sound(sqrt, longer, p) && Reaches(sqrt, longer, more, p, k - 1) {
        assert forall i :: 1 <= i < k ==> supply[i] == more[i - 1];
        forall i | 1 <= i <= k
          ensures Sound(sqrt, LongerBy(route, supply, i), p)
        {
          LongerByMore(route, supply, i);
          assert i > 1 ==> Sound(sqrt, LongerBy(longer, more, i - 1), p);
        }
      }
    } else if k == 0 {
      LongerByMore(route, supply, 0);
    }
  }

  /**
   * There are 80 metres ahead afterwards, and no error, exactly when something is ahead of the vehicle before
   * and some number of entries makes it so, none of them empty and no route on the way unsound.
   */
  lemma EnoughExactlyWhen(sqrt: real -> real, route: seq<Vec>, supply: Supply, p: Vec)
    ensures var r := Ensured(sqrt, route, supply, p);
            r.error.None? && Ahead(sqrt, r.route, p) >= 80.0 <==>
            RemainingOf(sqrt, route, p) != [] && exists k :: Reaches(sqrt, route, supply, p, k)
  {
    hide RemainingOf, Reaches, Extended;
    ExtendedReaches(sqrt, route, supply, p);
  }

  // ----- the object

  /** What a generated route is: the sampled route ahead of the vehicle, trimmed. */
  ghost predicate IsGenerated(sqrt: real -> real, route: seq<Vec>, pose: Pose, offset: real, whole: seq<Vec>,
        r: seq<Vec>) {
    && |whole| == SampleCount(sqrt, RemainingOf(sqrt, route, pose.position)) <= 20
    && (|whole| == 20 <==> Ahead(sqrt, route, pose.position) >= 80.0)
    && IsRoute(sqrt, route, pose, 0, whole) && r == TrimStart(sqrt, whole, offset)
    && |r| <= |whole| && IsRoute(sqrt, route, pose, |whole| - |r|, r) && Spaced(sqrt, r, SPACING + TINY)
    && (I.NoTinySegment(sqrt, route) ==>
          Spaced(sqrt, r, 80.0 / 19.0) && IsExactRoute(sqrt, route, pose, |whole| - |r|, r))
  }

  lemma ExtendedStep(sqrt: real -> real, route: seq<Vec>, supply: Supply, p: Vec)
    ensures Extended(sqrt, route, supply, p) ==
            if Ahead(sqrt, route, p) >= LOOKAHEAD || |supply| == 0 then Outcome(route, supply, None)
            else if |supply[0]| == 0 then Outcome(route, supply[1..], None)
            else if FoldsBack(sqrt, route + supply[0]) then Outcome(route + supply[0], supply[1..], Some(FoldedBack))
            else if RemainingOf(sqrt, route + supply[0], p) == [] then
              Outcome(route + supply[0], supply[1..], Some(NothingAhead))
            else Extended(sqrt, route + supply[0], supply[1..], p)
  {
    hide Ahead, FoldsBack, RemainingOf;
  }

  class RouteGenerator {
    const offset: real
    var route: seq<Vec>
    var supply: Supply

    constructor (route: seq<Vec>, offset: real, supply: Supply)
      requires |route| > 0
      ensures this.route == route && this.offset == offset && this.supply == supply
    {
      this.route, this.offset, this.supply := route, offset, supply;
    }

    /** `_extend_waypoints` */
    method ExtendWaypoints() returns (extended: bool)
      modifies this`route, this`supply
      ensures extended <==> |old(supply)| > 0 && |old(supply[0])| > 0
      ensures |old(supply)| == 0 ==> route == old(route) && supply == []
      ensures |old(supply)| > 0 ==> route == old(route) + old(supply[0]) && supply == old(supply[1..])
    {
      if |supply| == 0 {
        return false;
      }
      extended := |supply[0]| > 0;
      route, supply := route + supply[0], supply[1..];
    }

    /** `_ensure_sufficient_waypoints` */
    method EnsureSufficient(sqrt: real -> real, p: Vec) returns (error: Option<Routes.Error>)
      requires IsSqrt(sqrt) && |route| > 0
      modifies this`route, this`supply
      ensures Outcome(route, supply, error) == Ensured(sqrt, old(route), old(supply), p)
      ensures |route| > 0
    {
      hide FoldsBack, RemainingOf, IsSqrt, SnapsToLast, ArcLength, Extended;
      var cumulative := CumulativeDistancesFromPoint(sqrt, route, p);
      if |cumulative.value.0| == 0 {
        return None;
      }
      ghost var start := Extended(sqrt, route, supply, p);
      var remaining := cumulative.value.0[|cumulative.value.0| - 1];
      while remaining < LOOKAHEAD
        invariant |route| > 0 && remaining == Ahead(sqrt, route, p)
        invariant Extended(sqrt, route, supply, p) == start
        decreases |supply|
      {
        ExtendedStep(sqrt, route, supply, p);
        var extended := ExtendWaypoints();
        if !extended {
          return None;
        }
        var ok := SanityCheck(sqrt, route);
        if !ok {
          return Some(FoldedBack);
        }
        cumulative := CumulativeDistancesFromPoint(sqrt, route, p);
        if |cumulative.value.0| == 0 {
          return Some(NothingAhead);
        }
        remaining := cumulative.value.0[|cumulative.value.0| - 1];
      }
      ExtendedStep(sqrt, route, supply, p);
      return None;
    }

    /** `generate_route` */
    method Generate(sqrt: real -> real, pose: Pose) returns (r: Result<seq<Vec>, Routes.Error>, ghost whole: seq<Vec>)
      requires IsSqrt(sqrt) && Unit(pose.quaternion) && |route| > 0
      modifies this`route, this`supply
      ensures var outcome := Ensured(sqrt, old(route), old(supply), pose.position);
              && route == outcome.route && supply == outcome.supply
              && (outcome.error.Some? ==> r == Err(outcome.error.value))
              && (outcome.error.None? ==> r.Ok? && IsGenerated(sqrt, route, pose, offset, whole, r.value))
    {
      hide *;
      whole := [];
      var error := EnsureSufficient(sqrt, pose.position);
      if error.Some? {
        return Err(error.value), [];
      }
      var generated: seq<Vec>;
      generated, whole := GenerateRoute(sqrt, route, pose, offset);
      IsGeneratedBy(sqrt, route, pose, offset, whole, generated);
      return Ok(generated), whole;
    }
  }

  lemma IsGeneratedBy(sqrt: real -> real, route: seq<Vec>, pose: Pose, offset: real, whole: seq<Vec>, r: seq<Vec>)
    requires IsSqrt(sqrt) && |whole| == SampleCount(sqrt, RemainingOf(sqrt, route, pose.position)) <= NUM_WAYPOINTS
    requires IsRoute(sqrt, route, pose, 0, whole) && r == TrimStart(sqrt, whole, offset)
    requires |whole| >= |r| && IsRoute(sqrt, route, pose, |whole| - |r|, r) && Spaced(sqrt, r, SPACING + TINY)
    requires I.NoTinySegment(sqrt, route) ==>
               Spaced(sqrt, r, SPACING) && IsExactRoute(sqrt, route, pose, |whole| - |r|, r)
    ensures IsGenerated(sqrt, route, pose, offset, whole, r)
  {
    hide IsRoute, Spaced, IsExactRoute, RemainingOf, SampleCount, IsSqrt, TrimStart, Total;
    FullExactlyWhenEnough(sqrt, RemainingOf(sqrt, route, pose.position));
  }
}
