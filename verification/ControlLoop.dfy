/**
 The controller's stepping loop (src/controller/alpasim_controller/system.py): when the MPC runs,
 which control each propagation uses, and what is reported.

 The MPC solver is a parameter. `solves` and `legs` are a history the source does not store.
 */
module ControlLoop {
  import opened Wrappers
  import opened Vectors
  import opened Poses
  import opened Curves
  import opened VehicleModels
  import opened Ranges
  import T = Trajectories

  type Track = T.Track

  /**
   * `period` is the MPC period in microseconds; `solve` sees the vehicle, the plan in the frame of the rig,
   * and the time.
   */
  datatype Env = Env(trig: Trig, slerp: T.Slerp, period: int, solve: (State, Track, int) -> Control)

  datatype Solve = Solve(at: int, control: Control)

  /** One propagation, and when the control it used was computed. */
  datatype Leg = Leg(from: int, to: int, control: Control, solvedAt: Option<int>)

  datatype Snapshot = Snapshot(clock: nat, lastRun: Option<int>, control: Control, vehicle: State, track: Track,
                               solves: seq<Solve>, legs: seq<Leg>)

  datatype Dynamics = Dynamics(vx: real, vy: real, yawRate: real, ax: real, ay: real, yawAccel: real)

  datatype Report = Report(at: nat, pose: Pose, dynamics: Dynamics)

  datatype Request = Request(time: int, pose: Pose, plan: Track, future: nat, interval: int,
                             coerce: bool, vx: real, vy: real, yawRate: real)

  datatype Error = ClockMismatch | EmptyPlan | FutureNotAhead | NegativeInterval | TrackMismatch | BadPlan | NoReference

  // ----- one step

  function Seconds(us: int): real {
    us as real * 0.000001
  }

  /** `_get_reference_in_rig_frame`: the plan, moved by the pose the vehicle had at the plan's first time. */
  function Reference(env: Env, track: Track, plan: Track): Track
    requires |plan| > 0 && Covers(track, plan[0].t)
  {
    var shift := Compose(Inv(track[|track| - 1].p), At(T.MixPose(env.slerp), track, plan[0].t));
    seq(|plan|, i requires 0 <= i < |plan| => Timed(plan[i].t, Compose(shift, plan[i].p)))
  }

  /** Solving needs a plan that starts within the track; otherwise the step fails. */
  predicate CanStep(s: Snapshot, plan: Track, run: bool) {
    run ==> |plan| > 0 && Covers(s.track, plan[0].t)
  }

  /** `_step`: solve first when asked to, then propagate with the control in force. */
  function StepOf(env: Env, s: Snapshot, plan: Track, dt: nat, run: bool): Snapshot
    requires |s.track| > 0 && CanStep(s, plan, run)
  {
    var v0 := AtOrigin(s.vehicle);
    var control := if run then env.solve(v0, Reference(env, s.track, plan), s.clock) else s.control;
    var lastRun := if run then Some(s.clock) else s.lastRun;
    var v1 := Run(env.trig, v0, control, SubSteps(Seconds(dt)));
    var to := s.clock + dt;
    Snapshot(to, lastRun, control, v1,
             s.track + [Timed(to, Compose(s.track[|s.track| - 1].p, PoseOf(env.trig, v1)))],
             if run then s.solves + [Solve(s.clock, control)] else s.solves,
             s.legs + [Leg(s.clock, to, control, lastRun)])
  }

  /** `_build_dynamic_state_in_rig_frame` */
  function DynamicsOf(env: Env, s: Snapshot): Dynamics {
    var v, d, l := s.vehicle, Derivs(env.trig, s.vehicle, s.control), RIG_TO_CG;
    Dynamics(v.vx, v.vy - v.yawRate * l, v.yawRate,
             d.vx + v.yawRate * v.yawRate * l, d.vy - d.yawRate * l, d.yawRate)
  }

  function ReportOf(env: Env, s: Snapshot): Report
    requires |s.track| > 0
  {
    Report(s.clock, s.track[|s.track| - 1].p, DynamicsOf(env, s))
  }

  // ----- a request

  function Check(s: Snapshot, req: Request): Option<Error>
    requires |s.track| > 0
  {
    if req.time != s.clock then Some(ClockMismatch)
    else if |req.plan| == 0 then Some(EmptyPlan)
    else if req.future <= req.time then Some(FutureNotAhead)
    else if req.interval < 0 then Some(NegativeInterval)
    else if req.time != s.track[|s.track| - 1].t then Some(TrackMismatch)
    else None
  }

  /** The last pose is overridden. */
  function Overridden(s: Snapshot, req: Request): Snapshot
    requires |s.track| > 0
  {
    var n := |s.track| - 1;
    s.(track := s.track[n := Timed(s.track[n].t, req.pose)])
  }

  /** The last pose is overridden, and the velocity too when the request asks for it. */
  function Prepared(s: Snapshot, req: Request): Snapshot
    requires |s.track| > 0
  {
    var vehicle := if req.coerce then s.vehicle.(vx := req.vx, vy := req.vy + RIG_TO_CG * req.yawRate) else s.vehicle;
    Overridden(s, req).(vehicle := vehicle)
  }

  function MpcTimes(env: Env, s: Snapshot, future: int): seq<int>
    requires env.period > 0
  {
    Range(if s.lastRun.Some? then s.lastRun.value + env.period else s.clock, future, env.period)
  }

  function ReportingTimes(s: Snapshot, req: Request): seq<int> {
    if req.interval > 0 then Range(s.clock + req.interval, req.future, req.interval) else []
  }

  function Targets(env: Env, s: Snapshot, req: Request): seq<int>
    requires env.period > 0
  {
    SortedMembers((Elements(MpcTimes(env, s, req.future)) - {s.clock as int}) + Elements(ReportingTimes(s, req))
        + {req.future as int},
           s.clock + 1, req.future + 1)
  }

  /** Where the step list leaves the state, and whether it got to its end. */
  datatype Driven = Driven(state: Snapshot, finished: bool)

  function Drive(env: Env, s: Snapshot, plan: Track, targets: seq<int>, mpc: seq<int>): Driven
    requires |s.track| > 0
    decreases |targets|
  {
    if |targets| == 0 || targets[0] < s.clock then Driven(s, true)
    else if !CanStep(s, plan, s.clock in mpc) then Driven(s.(vehicle := AtOrigin(s.vehicle)), false)
    else Drive(env, StepOf(env, s, plan, targets[0] - s.clock, s.clock in mpc), plan, targets[1..], mpc)
  }

  function Reports(env: Env, s: Snapshot, plan: Track, targets: seq<int>, mpc: seq<int>, reporting: seq<int>,
        future: int): seq<Report>
    requires |s.track| > 0
    decreases |targets|
  {
    if |targets| == 0 || targets[0] < s.clock || !CanStep(s, plan, s.clock in mpc) then []
    else
      var next := StepOf(env, s, plan, targets[0] - s.clock, s.clock in mpc);
      (if targets[0] in reporting || targets[0] == future then [ReportOf(env, next)] else [])
      + Reports(env, next, plan, targets[1..], mpc, reporting, future)
  }

  datatype Response = Response(state: Snapshot, result: Result<seq<Report>, Error>)

  /** The state after a request, whatever comes of it, and the reports or the error. */
  function Respond(env: Env, s: Snapshot, req: Request): Response
    requires env.period > 0 && |s.track| > 0
  {
    match Check(s, req)
    case Some(e) => Response(s, Err(e))
    case None =>
      if !PlanIncreases(req.plan) then Response(Overridden(s, req), Err(BadPlan))
      else
        var p, targets, mpc := Prepared(s, req), Targets(env, s, req), MpcTimes(env, s, req.future);
        var driven := Drive(env, p, req.plan, targets, mpc);
        Response(driven.state,
                 if driven.finished then Ok(Reports(env, p, req.plan, targets, mpc, ReportingTimes(s, req), req.future))
                 else Err(NoReference))
  }

  predicate PlanIncreases(plan: Track) {
    forall i :: 1 <= i < |plan| ==> plan[i - 1].t < plan[i].t
  }

  // ----- what every step keeps

  function Times(solves: seq<Solve>): (r: seq<int>)
    ensures |r| == |solves| && forall i :: 0 <= i < |r| ==> r[i] == solves[i].at
  {
    seq(|solves|, i requires 0 <= i < |solves| => solves[i].at)
  }

  /** A propagation inside one MPC period, with the control solved at the start of that period. */
  ghost predicate LegOk(period: int, solves: seq<Solve>, leg: Leg) {
    && leg.from < leg.to
    && leg.solvedAt.Some?
    && leg.solvedAt.value <= leg.from && leg.to <= leg.solvedAt.value + period
    && Solve(leg.solvedAt.value, leg.control) in solves
  }

  ghost predicate LegsOk(period: int, t0: int, s: Snapshot) {
    && (forall i :: 0 <= i < |s.legs| ==> LegOk(period, s.solves, s.legs[i]))
    && (forall i, j :: 0 <= i && j == i + 1 && j < |s.legs| ==> s.legs[i].to == s.legs[j].from)
    && (if |s.legs| == 0 then s.clock == t0 else s.legs[0].from == t0 && s.legs[|s.legs| - 1].to == s.clock)
  }

  ghost predicate TrackOk(s: Snapshot) {
    |s.track| > 0 && Increasing(s.track) && s.track[|s.track| - 1].t == s.clock
  }

  /** The MPC has run exactly on the grid t0, t0 + period, ... below the clock. */
  ghost predicate OnGrid(period: int, t0: int, s: Snapshot)
    requires period > 0
  {
    && t0 <= s.clock
    && Times(s.solves) == Range(t0, s.clock, period)
    && (if |s.solves| == 0 then s.lastRun == None
        else s.lastRun == Some(s.solves[|s.solves| - 1].at) && s.control == s.solves[|s.solves| - 1].control)
  }

  ghost predicate Consistent(env: Env, t0: int, s: Snapshot) {
    env.period > 0 && OnGrid(env.period, t0, s) && LegsOk(env.period, t0, s) && TrackOk(s)
  }

  function Start(t0: nat, pose: Pose, vehicle: State): Snapshot {
    Snapshot(t0, None, Control(0.0, 0.0), vehicle, [Timed(t0, pose)], [], [])
  }

  lemma StartConsistent(env: Env, t0: nat, pose: Pose, vehicle: State)
    requires env.period > 0
    ensures Consistent(env, t0, Start(t0, pose, vehicle))
  {
  }

  /** A step that crosses no grid point, and solves exactly when it starts on one, keeps the invariant. */
  lemma StepKeeps(env: Env, t0: int, s: Snapshot, plan: Track, to: int, run: bool)
    requires Consistent(env, t0, s) && s.clock < to && ClearBetween(Range(t0, to, env.period), s.clock, to)
    requires (run <==> s.clock in Range(t0, to, env.period)) && CanStep(s, plan, run)
    ensures Consistent(env, t0, StepOf(env, s, plan, to - s.clock, run))
  {
    hide StepOf, Range, LegsOk;
    RangeGrows(t0, s.clock, to, env.period);
    StepOnGrid(env, t0, s, plan, to, run);
    StepLegs(env, t0, s, plan, to, run);
    StepTrack(env, s, plan, to, run);
  }

  lemma StepTrack(env: Env, s: Snapshot, plan: Track, to: int, run: bool)
    requires TrackOk(s) && s.clock < to && CanStep(s, plan, run)
    ensures TrackOk(StepOf(env, s, plan, to - s.clock, run))
            && StepOf(env, s, plan, to - s.clock, run).track[0].t == s.track[0].t
  {
    hide Run, SubSteps, AtOrigin, PoseOf, Compose, Seconds, Reference, CanStep;
  }

  lemma StepOnGrid(env: Env, t0: int, s: Snapshot, plan: Track, to: int, run: bool)
    requires env.period > 0 && OnGrid(env.period, t0, s) && s.clock < to && |s.track| > 0 && CanStep(s, plan, run)
    requires Range(t0, to, env.period) == Range(t0, s.clock, env.period) + if run then [s.clock] else []
    ensures OnGrid(env.period, t0, StepOf(env, s, plan, to - s.clock, run))
  {
    hide StepOf, Times, Range, CanStep;
    var n := StepOf(env, s, plan, to - s.clock, run);
    SolvesAfter(env, s, plan, to - s.clock, run);
    if run {
      TimesMore(s.solves, Solve(s.clock, n.control));
    }
  }

  lemma SolvesAfter(env: Env, s: Snapshot, plan: Track, dt: nat, run: bool)
    requires |s.track| > 0 && CanStep(s, plan, run)
    ensures var n := StepOf(env, s, plan, dt, run);
            && n.clock == s.clock + dt
            && n.solves == s.solves + (if run then [Solve(s.clock, n.control)] else [])
            && n.lastRun == (if run then Some(s.clock as int) else s.lastRun)
            && (!run ==> n.control == s.control)
  {
    hide Run, SubSteps, AtOrigin, PoseOf, Compose, Seconds, Reference, CanStep;
    assert s.solves + [] == s.solves;
  }

  lemma TimesMore(solves: seq<Solve>, x: Solve)
    ensures Times(solves + [x]) == Times(solves) + [x.at]
  {
  }

  lemma StepLegs(env: Env, t0: int, s: Snapshot, plan: Track, to: int, run: bool)
    requires env.period > 0 && LegsOk(env.period, t0, s) && s.clock < to && |s.track| > 0 && CanStep(s, plan, run)
    requires OnGrid(env.period, t0, s)
    requires OnGrid(env.period, t0, StepOf(env, s, plan, to - s.clock, run))
    ensures LegsOk(env.period, t0, StepOf(env, s, plan, to - s.clock, run))
  {
    hide Run, SubSteps, AtOrigin, PoseOf, Compose, Seconds, Reference, CanStep, Range;
    var n := StepOf(env, s, plan, to - s.clock, run);
    LastSolve(env.period, t0, n);
    if !run {
      assert |Times(s.solves)| > 0;
      LastSolve(env.period, t0, s);
    }
    forall i | 0 <= i < |n.legs|
      ensures LegOk(env.period, n.solves, n.legs[i])
    {
      if i < |s.legs| {
        assert n.legs[i] == s.legs[i] && LegOk(env.period, s.solves, s.legs[i]);
      }
    }
  }

  /** The clock is at most one period past the latest solve. */
  lemma LastSolve(period: int, t0: int, s: Snapshot)
    requires period > 0 && OnGrid(period, t0, s) && t0 < s.clock
    ensures |s.solves| > 0
    ensures var last := s.solves[|s.solves| - 1];
            && last == Solve(last.at, s.control) && s.lastRun == Some(last.at)
            && last.at < s.clock <= last.at + period
  {
    hide Range;
    RangeLast(t0, s.clock, period);
    RangeStart(t0, s.clock, period);
    assert s.solves[|s.solves| - 1].at == Times(s.solves)[|s.solves| - 1];
  }

  // ----- what every request keeps

  /** The step list misses no grid point before its end, and names the solving times. */
  ghost predicate Plan(t0: int, period: int, clock: int, targets: seq<int>, mpc: seq<int>, future: int)
    requires period > 0
  {
    && Ascending(targets)
    && (if |targets| == 0 then clock == future else clock < targets[0] && targets[|targets| - 1] == future)
    && (forall x :: x in Range(t0, future, period) && clock < x ==> x in targets)
    && (forall x :: clock <= x < future ==> (x in mpc <==> x in Range(t0, future, period)))
  }

  lemma {:induction false} RangePrefix(a: int, b: int, d: int, step: int, x: int)
    requires step > 0 && b <= d
    ensures x in Range(a, b, step) <==> x in Range(a, d, step) && x < b
    decreases d - a
  {
    hide Range;
    RangeStart(a, b, step);
    RangeStart(a, d, step);
    if a < d {
      RangePrefix(a + step, b, d, step, x);
    }
  }

  lemma PlanStep(t0: int, period: int, clock: int, targets: seq<int>, mpc: seq<int>, future: int)
    requires period > 0 && |targets| > 0 && Plan(t0, period, clock, targets, mpc, future)
    ensures var to := targets[0];
            && clock < to <= future
            && ClearBetween(Range(t0, to, period), clock, to)
            && (clock in mpc <==> clock in Range(t0, to, period))
            && Plan(t0, period, to, targets[1..], mpc, future)
  {
    hide Range;
    var to, r := targets[0], Range(t0, targets[0], period);
    forall i | 0 <= i < |r|
      ensures r[i] <= clock || to <= r[i]
    {
      var x := r[i];
      assert x in r;
      RangePrefix(t0, to, future, period, x);
      assert clock < x ==> x in targets;
    }
    RangePrefix(t0, to, future, period, clock);
    forall x | x in Range(t0, future, period) && to < x
      ensures x in targets[1..]
    {
      assert x in targets;
    }
  }

  lemma {:induction false} DriveKeeps(env: Env, t0: int, s: Snapshot, plan: Track, targets: seq<int>, mpc: seq<int>,
        future: int)
    requires Consistent(env, t0, s) && Plan(t0, env.period, s.clock, targets, mpc, future)
    ensures var r := Drive(env, s, plan, targets, mpc);
            Consistent(env, t0, r.state) && s.clock <= r.state.clock <= future
              && (r.finished ==> r.state.clock == future)
    decreases |targets|
  {
    hide StepOf, Plan, Range, CanStep;
    if |targets| == 0 {
      PlanDone(t0, env.period, s.clock, targets, mpc, future);
    } else {
      PlanStep(t0, env.period, s.clock, targets, mpc, future);
      if !CanStep(s, plan, s.clock in mpc) {
        ResetKeeps(env, t0, s);
        return;
      }
      StepKeeps(env, t0, s, plan, targets[0], s.clock in mpc);
      StepClock(env, s, plan, targets[0], s.clock in mpc);
      DriveKeeps(env, t0, StepOf(env, s, plan, targets[0] - s.clock, s.clock in mpc), plan, targets[1..], mpc, future);
    }
  }

  /** The vehicle is no part of the invariant. */
  lemma ResetKeeps(env: Env, t0: int, s: Snapshot)
    requires Consistent(env, t0, s)
    ensures Consistent(env, t0, s.(vehicle := AtOrigin(s.vehicle)))
  {
    hide Range;
  }

  lemma PlanDone(t0: int, period: int, clock: int, targets: seq<int>, mpc: seq<int>, future: int)
    requires period > 0 && |targets| == 0 && Plan(t0, period, clock, targets, mpc, future)
    ensures clock == future
  {
  }

  lemma StepClock(env: Env, s: Snapshot, plan: Track, to: int, run: bool)
    requires |s.track| > 0 && s.clock <= to && CanStep(s, plan, run)
    ensures StepOf(env, s, plan, to - s.clock, run).clock == to
    ensures |StepOf(env, s, plan, to - s.clock, run).track| > 0
  {
    hide Run, SubSteps, AtOrigin, PoseOf, Compose, Seconds, Reference, CanStep;
  }

  lemma PreparedKeeps(env: Env, t0: int, s: Snapshot, req: Request)
    requires Consistent(env, t0, s)
    ensures Consistent(env, t0, Overridden(s, req)) && Overridden(s, req).clock == s.clock
    ensures Consistent(env, t0, Prepared(s, req)) && Prepared(s, req).clock == s.clock
  {
    hide Range;
  }

  /** The MPC times of a request are the grid points from the clock on. */
  lemma MpcTimesAreGrid(env: Env, t0: int, s: Snapshot, future: int, x: int)
    requires Consistent(env, t0, s) && s.clock < future && s.clock <= x < future
    ensures x in MpcTimes(env, s, future) <==> x in Range(t0, future, env.period)
  {
    hide Range;
    if |s.solves| > 0 {
      assert |Times(s.solves)| > 0;
      LastSolve(env.period, t0, s);
      RangeContinues(t0, s.clock, future, env.period);
      assert Times(s.solves)[|s.solves| - 1] == s.solves[|s.solves| - 1].at;
      RangePrefix(t0, s.clock, future, env.period, x);
    } else {
      assert |Times(s.solves)| == 0;
    }
  }

  lemma TargetsPlan(env: Env, t0: int, s: Snapshot, req: Request)
    requires Consistent(env, t0, s) && s.clock < req.future
    ensures Plan(t0, env.period, s.clock, Targets(env, s, req), MpcTimes(env, s, req.future), req.future)
  {
    hide Range, MpcTimes, OnGrid, LegsOk, TrackOk;
    var targets := Targets(env, s, req);
    forall x | s.clock <= x < req.future
      ensures x in MpcTimes(env, s, req.future) <==> x in Range(t0, req.future, env.period)
    {
      MpcTimesAreGrid(env, t0, s, req.future, x);
    }
    TargetsEnds(env, s, req);
  }

  /** The step list holds exactly the MPC's grid times, the reporting times and the end, after the clock. */
  lemma StepListExactlyWhen(env: Env, t0: int, s: Snapshot, req: Request, x: int)
    requires Consistent(env, t0, s) && s.clock < req.future
    ensures x in Targets(env, s, req) <==>
            && s.clock < x <= req.future
            && (|| (OnMpcGrid(env, t0, x) && x < req.future)
                || (req.interval > 0 && (x - s.clock) % req.interval == 0)
                || x == req.future)
  {
    hide Targets, MpcTimes, ReportingTimes, OnGrid, LegsOk, OnMpcGrid;
    TargetsEnds(env, s, req);
    ReportingTimesAre(s, req, x);
    if s.clock <= x < req.future {
      MpcTimesAre(env, t0, s, req.future, x);
    }
  }

  lemma TargetsEnds(env: Env, s: Snapshot, req: Request)
    requires env.period > 0 && s.clock < req.future
    ensures var targets := Targets(env, s, req);
            && Ascending(targets) && |targets| > 0 && s.clock < targets[0] && targets[|targets| - 1] == req.future
            && (forall x :: x in targets <==>
                  s.clock < x <= req.future
                  && (x in MpcTimes(env, s, req.future) || x in ReportingTimes(s, req) || x == req.future))
  {
    hide Range, MpcTimes, ReportingTimes, SortedMembers;
    var all := (Elements(MpcTimes(env, s, req.future)) - {s.clock as int}) + Elements(ReportingTimes(s, req))
        + {req.future as int};
    var targets := Targets(env, s, req);
    SortedMembersAscend(all, s.clock + 1, req.future + 1);
    assert targets == SortedMembers(all, s.clock + 1, req.future + 1);
    assert req.future in all && req.future in targets;
    assert targets[0] in targets && targets[|targets| - 1] in targets;
  }

  /** A request keeps the invariant, even one that fails halfway; one that succeeds takes the clock to its end. */
  lemma RespondKeeps(env: Env, t0: int, s: Snapshot, req: Request)
    requires Consistent(env, t0, s)
    ensures var r := Respond(env, s, req);
            && Consistent(env, t0, r.state)
            && (Check(s, req).Some? ==> r == Response(s, Err(Check(s, req).value)))
            && (r.result.Ok? ==>
                 Check(s, req).None? && PlanIncreases(req.plan) && r.state.clock == req.future > s.clock)
            && (r.result.Err? && Check(s, req).None? ==> s.clock <= r.state.clock <= req.future)
  {
    hide Drive, Reports, Prepared, Overridden, Targets, MpcTimes, ReportingTimes, Range, Plan, OnGrid, LegsOk,
      PlanIncreases;
    if Check(s, req).None? {
      PreparedKeeps(env, t0, s, req);
      TargetsPlan(env, t0, s, req);
      DriveKeeps(env, t0, Prepared(s, req), req.plan, Targets(env, s, req), MpcTimes(env, s, req.future), req.future);
    }
  }

  // ----- exactly when a request succeeds

  /** At every time the MPC is to run, the plan starts within the track as it will be then. */
  ghost predicate StartsInTime(s: Snapshot, plan: Track, mpc: seq<int>, future: int)
    requires |s.track| > 0 && |plan| > 0
  {
    forall x :: x in mpc && s.clock <= x < future ==> s.track[0].t <= plan[0].t <= x
  }

  lemma {:induction false} DriveFinishes(env: Env, t0: int, s: Snapshot, plan: Track, targets: seq<int>,
        mpc: seq<int>, future: int)
    requires Consistent(env, t0, s) && Plan(t0, env.period, s.clock, targets, mpc, future) && |plan| > 0
    ensures Drive(env, s, plan, targets, mpc).finished <==> StartsInTime(s, plan, mpc, future)
    decreases |targets|
  {
    hide StepOf, Plan, Range, CanStep, OnGrid, LegsOk, Drive, StartsInTime;
    if |targets| == 0 {
      PlanDone(t0, env.period, s.clock, targets, mpc, future);
      NoSteps(env, s, plan, mpc, [], future);
      NothingToSolve(s, plan, mpc, future);
      assert targets == [];
    } else {
      var run, to := s.clock in mpc, targets[0];
      PlanStep(t0, env.period, s.clock, targets, mpc, future);
      OneStep(env, s, plan, targets, mpc, [], future);
      SolveNow(s, plan, run);
      if CanStep(s, plan, run) {
        StepKeeps(env, t0, s, plan, to, run);
        StepTrack(env, s, plan, to, run);
        DriveFinishes(env, t0, StepOf(env, s, plan, to - s.clock, run), plan, targets[1..], mpc, future);
      }
      NextSolve(env, t0, s, plan, targets, mpc, future);
    }
  }

  lemma NothingToSolve(s: Snapshot, plan: Track, mpc: seq<int>, future: int)
    requires |s.track| > 0 && |plan| > 0 && s.clock == future
    ensures StartsInTime(s, plan, mpc, future)
  {
  }

  lemma SolveNow(s: Snapshot, plan: Track, run: bool)
    requires TrackOk(s) && |plan| > 0
    ensures CanStep(s, plan, run) <==> (run ==> s.track[0].t <= plan[0].t <= s.clock)
  {
  }

  /** What is asked of the plan splits into what is asked now and what is asked after the step. */
  lemma NextSolve(env: Env, t0: int, s: Snapshot, plan: Track, targets: seq<int>, mpc: seq<int>, future: int)
    requires env.period > 0 && |targets| > 0 && Plan(t0, env.period, s.clock, targets, mpc, future) && |plan| > 0
             && |s.track| > 0
    ensures var to, now := targets[0], s.clock in mpc ==> s.track[0].t <= plan[0].t <= s.clock;
            && (StartsInTime(s, plan, mpc, future) ==> now)
            && forall n: Snapshot :: n.clock == to && |n.track| > 0 && n.track[0].t == s.track[0].t && now ==>
                 (StartsInTime(s, plan, mpc, future) <==> StartsInTime(n, plan, mpc, future))
  {
    hide Range, Plan;
    PlanStep(t0, env.period, s.clock, targets, mpc, future);
    var to := targets[0];
    forall x | x in mpc && s.clock <= x < future
      ensures x == s.clock || to <= x
    {
      NoSolveBetween(t0, env.period, s.clock, targets, mpc, future, x);
    }
  }

  lemma NoSolveBetween(t0: int, period: int, clock: int, targets: seq<int>, mpc: seq<int>, future: int, x: int)
    requires period > 0 && |targets| > 0 && Plan(t0, period, clock, targets, mpc, future) && x in mpc
             && clock <= x < future
    ensures x == clock || targets[0] <= x
  {
    hide Range;
    assert x in Range(t0, future, period);
    if clock < x {
      assert x in targets;
    }
  }

  /**
   * A request succeeds exactly when it is for the time of the clock and ends later, its interval is not negative,
   * it has a plan whose times increase, and at the first grid time the MPC is to run at, if there is one, the plan
   * has started, no earlier than the track.
   */
  lemma SucceedsExactlyWhen(env: Env, t0: int, s: Snapshot, req: Request)
    requires Consistent(env, t0, s)
    ensures Respond(env, s, req).result.Ok? <==>
            && req.time == s.clock < req.future && req.interval >= 0 && |req.plan| > 0
            && (forall i :: 1 <= i < |req.plan| ==> req.plan[i - 1].t < req.plan[i].t)
            && forall x :: s.clock <= x < req.future && OnMpcGrid(env, t0, x) ==> s.track[0].t <= req.plan[0].t <= x
  {
    hide Drive, Reports, Targets, ReportingTimes, Range, Plan, OnGrid, LegsOk, MpcTimes, OnMpcGrid;
    if Check(s, req).None? && PlanIncreases(req.plan) {
      var p, mpc := Prepared(s, req), MpcTimes(env, s, req.future);
      PreparedKeeps(env, t0, s, req);
      TargetsPlan(env, t0, s, req);
      DriveFinishes(env, t0, p, req.plan, Targets(env, s, req), mpc, req.future);
      assert p.track[0].t == s.track[0].t;
      forall x | s.clock <= x < req.future
        ensures x in mpc <==> OnMpcGrid(env, t0, x)
      {
        MpcTimesAre(env, t0, s, req.future, x);
      }
    }
  }

  /** A whole number of periods after the start. */
  predicate OnMpcGrid(env: Env, t0: int, x: int) {
    env.period > 0 && (x - t0) % env.period == 0
  }

  lemma MpcTimesAre(env: Env, t0: int, s: Snapshot, future: int, x: int)
    requires Consistent(env, t0, s) && s.clock <= x < future
    ensures x in MpcTimes(env, s, future) <==> OnMpcGrid(env, t0, x)
  {
    hide Range, MpcTimes, LegsOk;
    MpcTimesAreGrid(env, t0, s, future, x);
    RangeMembers(t0, future, env.period, x);
  }

  /** The first request of a run, with a plan that starts a microsecond after the clock. */
  function Late(pose: Pose): Request {
    Request(0, pose, [Timed(1, pose)], 1, 0, false, 0.0, 0.0, 0.0)
  }

  /** It passes the checks and fails, and by then it has overridden the pose. */
  lemma LatePlanFails(env: Env, pose: Pose, vehicle: State, req: Pose)
    requires env.period > 0
    ensures var s, r := Start(0, pose, vehicle), Respond(env, Start(0, pose, vehicle), Late(req));
            Check(s, Late(req)).None? && r.result == Err(NoReference) && r.state.track == [Timed(0, req)]
  {
    hide Range, StepOf, Reports, Targets;
    var s := Start(0, pose, vehicle);
    RangeStart(0, 1, env.period);
    TargetsEnds(env, s, Late(req));
    assert 0 in MpcTimes(env, s, 1);
    assert Prepared(s, Late(req)).track == [Timed(0, req)];
    assert !CanStep(Prepared(s, Late(req)), [Timed(1, req)], true);
  }

  lemma MpcTimesAhead(env: Env, t0: int, s: Snapshot, future: int, x: int)
    requires Consistent(env, t0, s) && x in MpcTimes(env, s, future)
    ensures s.clock <= x < future
  {
    hide Range;
    if |s.solves| > 0 {
      assert |Times(s.solves)| > 0;
      RangeStart(t0, s.clock, env.period);
      LastSolve(env.period, t0, s);
    }
  }

  // ----- what a request reports

  function ReportTimes(r: seq<Report>): (ts: seq<int>)
    ensures |ts| == |r| && forall i :: 0 <= i < |r| ==> ts[i] == r[i].at
  {
    seq(|r|, i requires 0 <= i < |r| => r[i].at)
  }

  /** The steps of the list after which the state is reported. */
  function Reported(targets: seq<int>, reporting: seq<int>, future: int): seq<int> {
    if |targets| == 0 then []
    else
      (if targets[0] in reporting || targets[0] == future then [targets[0]] else [])
      + Reported(targets[1..], reporting, future)
  }

  lemma {:induction false} ReportedSelects(targets: seq<int>, reporting: seq<int>, future: int)
    requires Ascending(targets)
    ensures Ascending(Reported(targets, reporting, future))
    ensures forall x :: x in Reported(targets, reporting, future) <==> x in targets && (x in reporting || x == future)
  {
    if |targets| > 0 {
      var rest := Reported(targets[1..], reporting, future);
      ReportedSelects(targets[1..], reporting, future);
      assert forall i :: 0 <= i < |rest| ==> rest[i] in rest;
      assert targets == [targets[0]] + targets[1..];
    }
  }

  lemma {:induction false} ReportsAre(env: Env, s: Snapshot, plan: Track, targets: seq<int>, mpc: seq<int>,
        reporting: seq<int>, future: int)
    requires |s.track| > 0 && Ascending(targets) && (|targets| > 0 ==> s.clock < targets[0])
    requires Drive(env, s, plan, targets, mpc).finished
    ensures ReportTimes(Reports(env, s, plan, targets, mpc, reporting, future)) == Reported(targets, reporting, future)
    decreases |targets|
  {
    hide StepOf, ReportOf, CanStep, Drive, Reports;
    if |targets| == 0 {
      NoSteps(env, s, plan, mpc, reporting, future);
      assert targets == [];
    } else {
      OneStep(env, s, plan, targets, mpc, reporting, future);
      var next := StepOf(env, s, plan, targets[0] - s.clock, s.clock in mpc);
      ReportsAre(env, next, plan, targets[1..], mpc, reporting, future);
      ReportTime(env, next);
    }
  }

  lemma ReportTime(env: Env, s: Snapshot)
    requires |s.track| > 0
    ensures ReportOf(env, s).at == s.clock
  {
    hide DynamicsOf;
  }

  lemma ReportingTimesAre(s: Snapshot, req: Request, x: int)
    ensures x in ReportingTimes(s, req) <==>
            req.interval > 0 && s.clock < x < req.future && (x - s.clock) % req.interval == 0
  {
    hide Range;
    if req.interval > 0 {
      RangeMembers(s.clock + req.interval, req.future, req.interval, x);
      if x > s.clock {
        StepsBefore(x - s.clock, req.interval);
      }
    }
  }

  /** Reports come in order of time, exactly every whole number of intervals and at the end of the request. */
  lemma ReportedTimes(env: Env, t0: int, s: Snapshot, req: Request)
    requires Consistent(env, t0, s) && Respond(env, s, req).result.Ok?
    ensures var ts := ReportTimes(Respond(env, s, req).result.value);
            && Ascending(ts)
            && (forall x :: x in ts <==>
                  || x == req.future
                  || (req.interval > 0 && s.clock < x < req.future && (x - s.clock) % req.interval == 0))
  {
    hide Drive, Reports, Targets, MpcTimes, Range, OnGrid, LegsOk, ReportingTimes;
    var targets, mpc, reporting := Targets(env, s, req), MpcTimes(env, s, req.future), ReportingTimes(s, req);
    TargetsEnds(env, s, req);
    ReportsAre(env, Prepared(s, req), req.plan, targets, mpc, reporting, req.future);
    ReportedSelects(targets, reporting, req.future);
    forall x
      ensures x in Reported(targets, reporting, req.future) <==>
              || x == req.future
              || (req.interval > 0 && s.clock < x < req.future && (x - s.clock) % req.interval == 0)
    {
      ReportingTimesAre(s, req, x);
    }
  }

  // ----- whole histories

  /** The state after a history of requests, accepted, rejected or failed halfway. */
  function Replay(env: Env, s: Snapshot, reqs: seq<Request>): Snapshot
    requires env.period > 0
    decreases |reqs|
  {
    if |reqs| == 0 || |s.track| == 0 then s else Replay(env, Respond(env, s, reqs[0]).state, reqs[1..])
  }

  lemma {:induction false} ReplayKeeps(env: Env, t0: int, s: Snapshot, reqs: seq<Request>)
    requires Consistent(env, t0, s)
    ensures Consistent(env, t0, Replay(env, s, reqs))
    decreases |reqs|
  {
    hide Respond, OnGrid, LegsOk;
    if |reqs| > 0 {
      RespondKeeps(env, t0, s, reqs[0]);
      ReplayKeeps(env, t0, Respond(env, s, reqs[0]).state, reqs[1..]);
    }
  }

  /** Over any history the MPC runs at exactly the grid times below the clock, once each and in order. */
  lemma RunsOnGrid(env: Env, t0: nat, pose: Pose, vehicle: State, reqs: seq<Request>)
    requires env.period > 0
    ensures var n := Replay(env, Start(t0, pose, vehicle), reqs);
            && Times(n.solves) == Range(t0, n.clock, env.period) && Ascending(Times(n.solves))
            && (forall x :: x in Times(n.solves) <==> t0 <= x < n.clock && (x - t0) % env.period == 0)
            && LegsOk(env.period, t0, n) && TrackOk(n)
  {
    hide Replay, LegsOk, TrackOk, Range;
    var clock := Replay(env, Start(t0, pose, vehicle), reqs).clock;
    RangeAscends(t0, clock, env.period);
    forall x
      ensures x in Range(t0, clock, env.period) <==> t0 <= x < clock && (x - t0) % env.period == 0
    {
      RangeMembers(t0, clock, env.period, x);
    }
    StartConsistent(env, t0, pose, vehicle);
    ReplayKeeps(env, t0, Start(t0, pose, vehicle), reqs);
  }

  /** However requests cut up the time, the MPC runs at the same times. */
  lemma CutsDoNotMatter(env: Env, t0: nat, pose: Pose, vehicle: State, reqs: seq<Request>, reqs': seq<Request>)
    requires env.period > 0
    requires Replay(env, Start(t0, pose, vehicle), reqs).clock == Replay(env, Start(t0, pose, vehicle), reqs').clock
    ensures Times(Replay(env, Start(t0, pose, vehicle), reqs).solves)
            == Times(Replay(env, Start(t0, pose, vehicle), reqs').solves)
  {
    hide Replay, LegsOk, TrackOk, Start;
    RunsOnGrid(env, t0, pose, vehicle, reqs);
    RunsOnGrid(env, t0, pose, vehicle, reqs');
  }

  // ----- the object

  class System {
    const env: Env
    const vehicle: VehicleModel
    const trajectory: T.Trajectory
    var timestamp: nat
    var lastMpc: Option<int>
    var controlInput: Control
    ghost const t0: nat
    ghost var solves: seq<Solve>
    ghost var legs: seq<Leg>

    ghost function Snap(): Snapshot
      reads this, vehicle, trajectory
    {
      Snapshot(timestamp, lastMpc, controlInput, vehicle.state, trajectory.poses, solves, legs)
    }

    ghost predicate Valid()
      reads this, vehicle, trajectory
    {
      Consistent(env, t0, Snap())
    }

    constructor (env: Env, atan: real -> real, start: nat, pose: Pose, vx: real, vy: real, yawRate: real)
      requires env.period > 0
      ensures Valid() && fresh(vehicle) && fresh(trajectory)
      ensures this.env == env && t0 == start && Snap() == Start(start, pose, vehicle.state)
      ensures timestamp == start && lastMpc.None? && controlInput == Control(0.0, 0.0)
      ensures trajectory.poses == [Timed(start, pose)]
      ensures vehicle.state
              == VehicleModels.State(0.0, 0.0, 0.0, vx, vy, yawRate,
                                     if vx > 0.25 then atan(yawRate / vx * WHEELBASE) else 0.0, 0.0)
    {
      this.env := env;
      t0 := start;
      timestamp, lastMpc, controlInput := start, None, Control(0.0, 0.0);
      solves, legs := [], [];
      vehicle := new VehicleModel(atan, vx, vy, yawRate);
      trajectory := new T.Trajectory(start, pose);
      new;
      StartConsistent(env, start, pose, vehicle.state);
    }

    /** `_step`; it fails after the reset when the plan starts outside the track. */
    method Step(plan: Track, dt: nat, run: bool) returns (ok: bool)
      requires TrackOk(Snap()) && dt > 0
      modifies this, vehicle, trajectory
      ensures ok == old(CanStep(Snap(), plan, run)) && TrackOk(Snap())
      ensures !ok ==> Snap() == old(Snap().(vehicle := AtOrigin(vehicle.state)))
      ensures ok ==> Snap() == StepOf(env, old(Snap()), plan, dt, run)
      ensures ok ==>
                var d := Derivs(env.trig, vehicle.state, controlInput);
                vehicle.accelerations == (d.vx, d.vy, d.yawRate)
    {
      hide Run, SubSteps, Derivs, Compose, Seconds, OnGrid, LegsOk, Increasing, PoseOf, Reference;
      assert trajectory.Valid() && |trajectory.poses| > 0 && trajectory.poses[|trajectory.poses| - 1].t == timestamp;
      vehicle.ResetOrigin();
      if run {
        if |plan| == 0 || !Covers(trajectory.poses, plan[0].t) {
          return false;
        }
        controlInput := env.solve(vehicle.state, Reference(env, trajectory.poses, plan), timestamp);
        lastMpc := Some(timestamp);
        solves := solves + [Solve(timestamp, controlInput)];
      }
      var delta := vehicle.Advance(env.trig, controlInput, Seconds(dt));
      legs := legs + [Leg(timestamp, timestamp + dt, controlInput, lastMpc)];
      timestamp := timestamp + dt;
      var moved := trajectory.UpdateRelative(timestamp, delta);
      assert moved.Ok? && trajectory.Valid();
      return true;
    }

    method Observe() returns (report: Report)
      requires TrackOk(Snap())
      requires var d := Derivs(env.trig, vehicle.state, controlInput); vehicle.accelerations == (d.vx, d.vy, d.yawRate)
      ensures report == ReportOf(env, Snap())
    {
      hide Derivs;
      var v, a, l := vehicle.state, vehicle.accelerations, RIG_TO_CG;
      report := Report(timestamp, trajectory.poses[|trajectory.poses| - 1].p,
                       Dynamics(v.vx, v.vy - v.yawRate * l, v.yawRate,
                                a.0 + v.yawRate * v.yawRate * l, a.1 - a.2 * l, a.2));
    }

    /** `run_controller_and_vehicle_model` */
    method RunRequest(req: Request) returns (r: Result<seq<Report>, Error>)
      requires Valid()
      modifies this, vehicle, trajectory
      ensures Valid() && Response(Snap(), r) == Respond(env, old(Snap()), req)
    {
      hide OnGrid, LegsOk, Drive, Reports, Targets, MpcTimes, ReportingTimes, PlanIncreases;
      ghost var before := Snap();
      RespondKeeps(env, t0, before, req);
      var problem := Check(Snapshot(timestamp, lastMpc, controlInput, vehicle.state, trajectory.poses, [], []), req);
      if problem.Some? {
        return Err(problem.value);
      }
      var targets, mpc, reporting := RequestTimes(req);
      TargetsEnds(env, before, req);
      var overridden := trajectory.SetPose(-1, req.pose);
      assert Snap() == Overridden(before, req);
      if !PlanIncreases(req.plan) {
        return Err(BadPlan);
      }
      if req.coerce {
        vehicle.SetVelocity(req.vx, req.vy + RIG_TO_CG * req.yawRate);
      }
      PreparedKeeps(env, t0, before, req);
      assert Snap() == Prepared(before, req);
      var finished, states := Follow(req.plan, targets, mpc, reporting, req.future);
      return if finished then Ok(states) else Err(NoReference);
    }

    /** The times of a request: where to step to, where to solve, and where to report. */
    method RequestTimes(req: Request) returns (targets: seq<int>, mpc: seq<int>, reporting: seq<int>)
      requires env.period > 0
      ensures targets == Targets(env, Snap(), req)
      ensures mpc == MpcTimes(env, Snap(), req.future) && reporting == ReportingTimes(Snap(), req)
    {
      hide Range, SortedMembers;
      reporting := if req.interval > 0 then Range(timestamp + req.interval, req.future, req.interval) else [];
      var first := if lastMpc.Some? then lastMpc.value + env.period else timestamp;
      mpc := Range(first, req.future, env.period);
      targets := SortedMembers((Elements(mpc) - {timestamp as int}) + Elements(reporting) + {req.future as int},
                               timestamp + 1, req.future + 1);
    }

    /** The loop over the step list; it ends early when a step fails. */
    method Follow(plan: Track, targets: seq<int>, mpc: seq<int>, reporting: seq<int>, future: int)
      returns (finished: bool, states: seq<Report>)
      requires TrackOk(Snap()) && Ascending(targets) && (|targets| > 0 ==> timestamp < targets[0])
      modifies this, vehicle, trajectory
      ensures Driven(Snap(), finished) == Drive(env, old(Snap()), plan, targets, mpc)
      ensures states == Reports(env, old(Snap()), plan, targets, mpc, reporting, future)
    {
      hide StepOf, ReportOf, Derivs, Drive, Reports, CanStep;
      ghost var start := Snap();
      states := [];
      assert targets[0..] == targets;
      for i := 0 to |targets|
        invariant TrackOk(Snap()) && (i < |targets| ==> timestamp < targets[i])
        invariant Drive(env, Snap(), plan, targets[i..], mpc) == Drive(env, start, plan, targets, mpc)
        invariant states + Reports(env, Snap(), plan, targets[i..], mpc, reporting, future)
                  == Reports(env, start, plan, targets, mpc, reporting, future)
      {
        var to := targets[i];
        OneStep(env, Snap(), plan, targets[i..], mpc, reporting, future);
        assert targets[i..][1..] == targets[i + 1..];
        var ok := Step(plan, to - timestamp, timestamp in mpc);
        if !ok {
          assert states + [] == states;
          return false, states;
        }
        if to in reporting || to == future {
          var report := Observe();
          states := states + [report];
        }
      }
      NoSteps(env, Snap(), plan, mpc, reporting, future);
      assert targets[|targets|..] == [] && states + [] == states;
      finished := true;
    }
  }

  lemma NoSteps(env: Env, s: Snapshot, plan: Track, mpc: seq<int>, reporting: seq<int>, future: int)
    requires |s.track| > 0
    ensures Drive(env, s, plan, [], mpc) == Driven(s, true) && Reports(env, s, plan, [], mpc, reporting, future) == []
  {
  }

  lemma OneStep(env: Env, s: Snapshot, plan: Track, targets: seq<int>, mpc: seq<int>, reporting: seq<int>, future: int)
    requires |s.track| > 0 && |targets| > 0 && s.clock < targets[0]
    ensures !CanStep(s, plan, s.clock in mpc) ==>
              && Drive(env, s, plan, targets, mpc) == Driven(s.(vehicle := AtOrigin(s.vehicle)), false)
              && Reports(env, s, plan, targets, mpc, reporting, future) == []
    ensures CanStep(s, plan, s.clock in mpc) ==>
              var to, n := targets[0], StepOf(env, s, plan, targets[0] - s.clock, s.clock in mpc);
              && n.clock == to && |n.track| > 0
              && Drive(env, s, plan, targets, mpc) == Drive(env, n, plan, targets[1..], mpc)
              && Reports(env, s, plan, targets, mpc, reporting, future)
                 == (if to in reporting || to == future then [ReportOf(env, n)] else [])
                    + Reports(env, n, plan, targets[1..], mpc, reporting, future)
  {
    hide StepOf, ReportOf, CanStep;
    if CanStep(s, plan, s.clock in mpc) {
      StepClock(env, s, plan, targets[0], s.clock in mpc);
    }
  }
}
