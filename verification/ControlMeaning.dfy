/**
 What the steps and reports of the control loop mean: frames, units, and where the numbers of a report come from
 (src/controller/alpasim_controller/system.py).
 */
module ControlMeaning {
  import opened Wrappers
  import opened Vectors
  import opened Poses
  import opened Curves
  import T = Trajectories
  import opened VehicleModels
  import M = VehicleMotion
  import opened Ranges
  import opened ControlLoop

  // ----- checks and preparation

  /** Which request is rejected with which error; the first cause counts. */
  lemma RejectedExactlyWhen(env: Env, s: Snapshot, req: Request)
    requires env.period > 0 && |s.track| > 0
    ensures var r := Respond(env, s, req).result;
            var last := s.track[|s.track| - 1].t;
            && (r == Err(ClockMismatch) <==> req.time != s.clock)
            && (r == Err(EmptyPlan) <==> req.time == s.clock && |req.plan| == 0)
            && (r == Err(FutureNotAhead) <==> req.time == s.clock && |req.plan| > 0 && req.future <= s.clock)
            && (r == Err(NegativeInterval) <==>
                req.time == s.clock && |req.plan| > 0 && s.clock < req.future && req.interval < 0)
            && (r == Err(TrackMismatch) <==>
                req.time == s.clock && |req.plan| > 0 && s.clock < req.future && req.interval >= 0 && last != s.clock)
            && (r == Err(BadPlan) <==>
                && req.time == s.clock && |req.plan| > 0 && s.clock < req.future && req.interval >= 0 && last == s.clock
                && exists i :: 1 <= i < |req.plan| && req.plan[i - 1].t >= req.plan[i].t)
  {
    hide Drive, Reports, Prepared, Targets, MpcTimes, ReportingTimes;
  }

  /** The request's pose replaces the last one and nothing else of the track; velocities are set when asked to. */
  lemma PreparedIs(s: Snapshot, req: Request)
    requires |s.track| > 0
    ensures var p, n := Prepared(s, req), |s.track| - 1;
            && |p.track| == n + 1 && (forall i :: 0 <= i < n ==> p.track[i] == s.track[i])
            && p.track[n] == Timed(s.track[n].t, req.pose)
            && (!req.coerce ==> p.vehicle == s.vehicle)
            && (req.coerce ==> p.vehicle == s.vehicle.(vx := req.vx, vy := req.vy + 1.59 * req.yawRate))
            && p == s.(track := p.track, vehicle := p.vehicle)
  {
  }

  /**
   * With the velocity coerced, the rig has the forward speed that was asked for; it has the sideways speed exactly
   * when the yaw rate was that of the request already, because only the velocities are set.
   */
  lemma CoercedExactlyWhen(env: Env, s: Snapshot, req: Request)
    requires |s.track| > 0 && req.coerce
    ensures var d := DynamicsOf(env, Prepared(s, req));
            && d.vx == req.vx && d.yawRate == s.vehicle.yawRate
            && (d.vy == req.vy <==> s.vehicle.yawRate == req.yawRate)
  {
    hide Derivs;
  }

  // ----- one step

  /** Seen from the world, the reference is the plan moved by the pose the vehicle had at the plan's first time. */
  lemma ReferenceIsPlan(env: Env, track: Track, plan: Track, i: nat, v: Vec)
    requires i < |plan| && Covers(track, plan[0].t) && Unit(track[|track| - 1].p.quaternion)
    ensures var r, now := Reference(env, track, plan), track[|track| - 1].p;
            var start := At(T.MixPose(env.slerp), track, plan[0].t);
            && |r| == |plan| && r[i].t == plan[i].t
            && Act(now, Act(r[i].p, v)) == Act(start, Act(plan[i].p, v))
  {
    hide Act, Compose, Inv, Unit, At, T.MixPose;
    var now, start := track[|track| - 1].p, At(T.MixPose(env.slerp), track, plan[0].t);
    InvIsInverse(now);
    ActCompose(Compose(Inv(now), start), plan[i].p, v);
    var u := Act(plan[i].p, v);
    ActCompose(Inv(now), start, u);
    ActCompose(now, Inv(now), Act(start, u));
    ActIdentity(Act(start, u));
  }

  /** A step takes as many seconds as its microseconds say, in sub-steps of at most 10 ms. */
  lemma StepTakesItsTime(dt: nat)
    ensures 1000000.0 * Sum(SubSteps(Seconds(dt))) == dt as real
    ensures forall i :: 0 <= i < |SubSteps(Seconds(dt))| ==> 0.0 < SubSteps(Seconds(dt))[i] <= 0.01
  {
    hide SubSteps, Sum;
    SubStepsCover(Seconds(dt));
  }

  /**
   * A step appends one knot: the last pose, moved by what one run from the origin under the control in force has
   * moved. That control is the one just solved for when it solves, from the state at the origin and the reference.
   */
  lemma StepMoves(env: Env, s: Snapshot, plan: Track, dt: nat, run: bool, v: Vec)
    requires |s.track| > 0 && CanStep(s, plan, run)
    ensures var n, last := StepOf(env, s, plan, dt, run), s.track[|s.track| - 1];
            var origin := s.vehicle.(x := 0.0, y := 0.0, yaw := 0.0);
            && n.clock == s.clock + dt
            && n.control == (if run then env.solve(origin, Reference(env, s.track, plan), s.clock) else s.control)
            && n.vehicle == Run(env.trig, origin, n.control, SubSteps(Seconds(dt)))
            && |n.track| == |s.track| + 1 && n.track[..|s.track|] == s.track && n.track[|s.track|].t == n.clock
            && Act(n.track[|s.track|].p, v) == Act(last.p, Act(PoseOf(env.trig, n.vehicle), v))
            && n.legs == s.legs + [Leg(s.clock, n.clock, n.control, n.lastRun)]
            && n.lastRun == (if run then Some(s.clock as int) else s.lastRun)
  {
    hide Run, SubSteps, Compose, PoseOf, Reference, Act;
    var n := StepOf(env, s, plan, dt, run);
    assert n.track[..|s.track|] == s.track;
    ActCompose(s.track[|s.track| - 1].p, PoseOf(env.trig, n.vehicle), v);
  }

  /**
   * Two steps under one control move the vehicle as one run over both of their sub-steps does: reporting in
   * between, with the origin put back each time, changes which sub-steps there are and nothing else.
   */
  lemma TwoStepsAreOneRun(env: Env, s: Snapshot, plan: Track, dt: nat, more: nat, run: bool)
    requires |s.track| > 0 && CanStep(s, plan, run) && M.IsTrig(env.trig)
    ensures var n := StepOf(env, StepOf(env, s, plan, dt, run), plan, more, false);
            var hs := SubSteps(Seconds(dt)) + SubSteps(Seconds(more));
            var through := Run(env.trig, AtOrigin(s.vehicle), n.control, hs);
            && n.track[|s.track| + 1].p == Compose(s.track[|s.track| - 1].p, PoseOf(env.trig, through))
            && AtOrigin(n.vehicle) == AtOrigin(through)
  {
    hide Run, SubSteps, Compose, PoseOf, Reference, M.IsTrig;
    var first := StepOf(env, s, plan, dt, run);
    var second := StepOf(env, first, plan, more, false);
    var u, o := first.control, AtOrigin(s.vehicle);
    var p := s.track[|s.track| - 1].p;
    M.StoppingChangesNothing(env.trig, o, u, SubSteps(Seconds(dt)), SubSteps(Seconds(more)));
    ComposeAssoc(p, PoseOf(env.trig, first.vehicle), PoseOf(env.trig, second.vehicle));
  }

  // ----- reports

  /** A rate of turn about the vertical, or its change, as a vector. */
  function Up(w: real): Vec {
    Vec(0.0, 0.0, w)
  }

  /** A report gives the motion of the rig, 1.59 m behind the centre of gravity, of which the state holds the motion. */
  lemma DynamicsAreOfRig(env: Env, s: Snapshot)
    requires |s.track| > 0
    ensures var r, v, a := ReportOf(env, s), s.vehicle, Derivs(env.trig, s.vehicle, s.control);
            var behind, turn, change := Vec(-1.59, 0.0, 0.0), Up(s.vehicle.yawRate), Up(a.yawRate);
            && r.at == s.clock && r.pose == s.track[|s.track| - 1].p
            && Vec(r.dynamics.vx, r.dynamics.vy, 0.0) == Add(Vec(v.vx, v.vy, 0.0), Cross(turn, behind))
            && Vec(r.dynamics.ax, r.dynamics.ay, 0.0)
               == Add(Vec(a.vx, a.vy, 0.0), Add(Cross(change, behind), Cross(turn, Cross(turn, behind))))
            && r.dynamics.yawRate == v.yawRate && r.dynamics.yawAccel == a.yawRate
  {
    hide Derivs, Cross, Up;
    var v, a := s.vehicle, Derivs(env.trig, s.vehicle, s.control);
    CrossBehind(v.yawRate, 1.59);
    CrossBehind(a.yawRate, 1.59);
  }

  lemma CrossBehind(w: real, l: real)
    ensures Cross(Up(w), Vec(-l, 0.0, 0.0)) == Vec(0.0, -(w * l), 0.0)
    ensures Cross(Up(w), Vec(0.0, -(w * l), 0.0)) == Vec(w * w * l, 0.0, 0.0)
  {
  }

  /** Stepping on keeps the knots of the track. */
  lemma {:induction false} DriveExtends(env: Env, s: Snapshot, plan: Track, targets: seq<int>, mpc: seq<int>)
    requires |s.track| > 0
    ensures s.track <= Drive(env, s, plan, targets, mpc).state.track
    decreases |targets|
  {
    hide StepOf, CanStep;
    if |targets| > 0 && targets[0] >= s.clock && CanStep(s, plan, s.clock in mpc) {
      var dt, run := targets[0] - s.clock, s.clock in mpc;
      StepMoves(env, s, plan, dt, run, ZERO);
      DriveExtends(env, StepOf(env, s, plan, dt, run), plan, targets[1..], mpc);
    }
  }

  /** Every report is a knot of the track as it is in the end. */
  lemma {:induction false} ReportsAreKnots(env: Env, s: Snapshot, plan: Track, targets: seq<int>, mpc: seq<int>,
                                           reporting: seq<int>, future: int, k: nat)
    requires |s.track| > 0 && k < |Reports(env, s, plan, targets, mpc, reporting, future)|
    ensures var r := Reports(env, s, plan, targets, mpc, reporting, future)[k];
            Timed(r.at, r.pose) in Drive(env, s, plan, targets, mpc).state.track
    decreases |targets|
  {
    hide StepOf, CanStep, DynamicsOf, Drive, Reports;
    ReportsNext(env, s, plan, targets, mpc, reporting, future);
    var dt, run := targets[0] - s.clock, s.clock in mpc;
    var n := StepOf(env, s, plan, dt, run);
    StepMoves(env, s, plan, dt, run, ZERO);
    var first := if targets[0] in reporting || targets[0] == future then 1 else 0;
    if k < first {
      DriveExtends(env, n, plan, targets[1..], mpc);
      assert n.track[|s.track|] in Drive(env, n, plan, targets[1..], mpc).state.track;
    } else {
      ReportsAreKnots(env, n, plan, targets[1..], mpc, reporting, future, k - first);
    }
  }

  lemma ReportsNext(env: Env, s: Snapshot, plan: Track, targets: seq<int>, mpc: seq<int>, reporting: seq<int>,
        future: int)
    requires |s.track| > 0 && |Reports(env, s, plan, targets, mpc, reporting, future)| > 0
    ensures |targets| > 0 && s.clock <= targets[0] && CanStep(s, plan, s.clock in mpc)
    ensures var n := StepOf(env, s, plan, targets[0] - s.clock, s.clock in mpc);
            && |n.track| > 0
            && Drive(env, s, plan, targets, mpc) == Drive(env, n, plan, targets[1..], mpc)
            && Reports(env, s, plan, targets, mpc, reporting, future)
               == (if targets[0] in reporting || targets[0] == future then [ReportOf(env, n)] else [])
                  + Reports(env, n, plan, targets[1..], mpc, reporting, future)
  {
    hide StepOf, CanStep, DynamicsOf, ReportOf;
    if |targets| > 0 && s.clock <= targets[0] && CanStep(s, plan, s.clock in mpc) {
      StepMoves(env, s, plan, targets[0] - s.clock, s.clock in mpc, ZERO);
    }
  }

  /** What a successful request reports are the poses that its trajectory has at those times. */
  lemma ReportedPosesAreRecorded(env: Env, s: Snapshot, req: Request, k: nat)
    requires env.period > 0 && |s.track| > 0 && Respond(env, s, req).result.Ok?
    requires k < |Respond(env, s, req).result.value|
    ensures var n := Respond(env, s, req); var r := n.result.value[k];
            Timed(r.at, r.pose) in n.state.track
  {
    hide Drive, Reports, Targets, MpcTimes, ReportingTimes;
    ReportsAreKnots(env, Prepared(s, req), req.plan, Targets(env, s, req), MpcTimes(env, s, req.future),
                    ReportingTimes(s, req), req.future, k);
  }
}
