/**
 The planar bicycle model and its sub-stepped Runge-Kutta integrator
 (src/controller/alpasim_controller/vehicle_model.py). Sine and cosine are parameters.
 */
module VehicleModels {
  import opened Vectors
  import opened Poses

  datatype Trig = Trig(sin: real -> real, cos: real -> real)

  /** x, y, yaw of the rig; velocity of the centre of gravity; yaw rate, steering angle, acceleration. */
  datatype State = State(x: real, y: real, yaw: real, vx: real, vy: real, yawRate: real, steering: real, accel: real)

  datatype Control = Control(steering: real, accel: real)

  const MASS := 2014.4
  const INERTIA := 3414.2
  const RIG_TO_CG := 1.59
  const WHEELBASE := 2.85
  const FRONT_STIFFNESS := 93534.5
  const REAR_STIFFNESS := 176162.1
  const TIME_CONSTANT := 0.1
  const KINEMATIC_SPEED := 5.0
  const MAX_STEP := 0.01

  function Plus(s: State, k: real, d: State): State {
    State(s.x + k * d.x, s.y + k * d.y, s.yaw + k * d.yaw, s.vx + k * d.vx, s.vy + k * d.vy,
          s.yawRate + k * d.yawRate, s.steering + k * d.steering, s.accel + k * d.accel)
  }

  /** First-order lag of both actuators. */
  function Lag(command: real, value: real): real {
    (command - value) / TIME_CONSTANT
  }

  /** The rates of the sideways velocity and of the yaw rate: kinematic below a speed, dynamic above it. */
  function LateralRates(s: State): (real, real) {
    if s.vx < KINEMATIC_SPEED then
      (10.0 * (s.vx * s.steering * RIG_TO_CG / WHEELBASE - s.vy),
       10.0 * (s.vx * s.steering / WHEELBASE - s.yawRate))
    else
      var mass, inertia, lf := MASS * s.vx, INERTIA * s.vx, WHEELBASE - RIG_TO_CG;
      var lfCaf, lrCar := lf * FRONT_STIFFNESS, RIG_TO_CG * REAR_STIFFNESS;
      var a00 := -2.0 * (FRONT_STIFFNESS + REAR_STIFFNESS) / mass;
      var a01 := -s.vx - 2.0 * (lfCaf - lrCar) / mass;
      var a10 := -2.0 * (lfCaf - lrCar) / inertia;
      var a11 := -2.0 * (lf * lfCaf + RIG_TO_CG * lrCar) / inertia;
      (a00 * s.vy + a01 * s.yawRate + 2.0 * FRONT_STIFFNESS / MASS * s.steering,
       a10 * s.vy + a11 * s.yawRate + 2.0 * lfCaf / INERTIA * s.steering)
  }

  /** `_derivs` */
  function Derivs(trig: Trig, s: State, u: Control): State {
    var vyRig := if s.vx < KINEMATIC_SPEED then 0.0 else s.vy - s.yawRate * RIG_TO_CG;
    var (dVy, dYawRate) := LateralRates(s);
    State(s.vx * trig.cos(s.yaw) - vyRig * trig.sin(s.yaw),
          s.vx * trig.sin(s.yaw) + vyRig * trig.cos(s.yaw),
          s.yawRate,
          s.accel,
          dVy,
          dYawRate,
          Lag(u.steering, s.steering),
          Lag(u.accel, s.accel))
  }

  function NonNegative(v: real): real {
    if v > 0.0 then v else 0.0
  }

  /** One sub-step: midpoint rule, and then no reversing. */
  function SubStep(trig: Trig, s: State, u: Control, h: real): State {
    var k1 := Derivs(trig, s, u);
    var k2 := Derivs(trig, Plus(s, h / 2.0, k1), u);
    var r := Plus(s, h, k2);
    r.(vx := NonNegative(r.vx))
  }

  // ----- the sub-steps of an interval

  function StepsLeft(dt: real): nat {
    if dt <= 0.0 then 0 else (dt * 100.0).Floor + 1
  }

  lemma FewerSteps(dt: real)
    requires dt > 0.0
    ensures StepsLeft(dt - if MAX_STEP <= dt then MAX_STEP else dt) < StepsLeft(dt)
  {
    if MAX_STEP <= dt {
      FloorMinusOne(dt * 100.0);
      assert (dt - MAX_STEP) * 100.0 == dt * 100.0 - 1.0;
    }
  }

  lemma FloorMinusOne(r: real)
    ensures (r - 1.0).Floor == r.Floor - 1
  {
  }

  /** Full sub-steps, and a last one that is what remains. */
  function SubSteps(dt: real): seq<real>
    decreases StepsLeft(dt)
  {
    if dt <= 0.0 then []
    else
      var h := if MAX_STEP <= dt then MAX_STEP else dt;
      FewerSteps(dt);
      [h] + SubSteps(dt - h)
  }

  function Sum(hs: seq<real>): real {
    if |hs| == 0 then 0.0 else hs[0] + Sum(hs[1..])
  }

  /** The sub-steps cover the interval exactly, and none is longer than the limit. */
  lemma {:induction false} SubStepsCover(dt: real)
    ensures Sum(SubSteps(dt)) == NonNegative(dt)
    ensures forall i :: 0 <= i < |SubSteps(dt)| ==> 0.0 < SubSteps(dt)[i] <= MAX_STEP
    ensures forall i :: 0 <= i < |SubSteps(dt)| - 1 ==> SubSteps(dt)[i] == MAX_STEP
    decreases StepsLeft(dt)
  {
    if dt > 0.0 {
      FewerSteps(dt);
      var h := if MAX_STEP <= dt then MAX_STEP else dt;
      SubStepsCover(dt - h);
      assert SubSteps(dt)[1..] == SubSteps(dt - h);
    }
  }

  function Run(trig: Trig, s: State, u: Control, hs: seq<real>): State
    decreases |hs|
  {
    if |hs| == 0 then s else Run(trig, SubStep(trig, s, u, hs[0]), u, hs[1..])
  }

  function AtOrigin(v: State): State {
    v.(x := 0.0, y := 0.0, yaw := 0.0)
  }

  /** Where a step has taken the rig, seen from where it started. */
  function PoseOf(trig: Trig, v: State): Pose {
    Pose(Vec(v.x, v.y, 0.0), Quat(0.0, 0.0, trig.sin(v.yaw / 2.0), trig.cos(v.yaw / 2.0)))
  }

  class VehicleModel {
    var state: State
    var accelerations: (real, real, real)

    /** `atan` is the arctangent; the start is standing at the origin of the rig. */
    constructor (atan: real -> real, vx: real, vy: real, yawRate: real)
      ensures state == State(0.0, 0.0, 0.0, vx, vy, yawRate,
                             if vx > 0.25 then atan(yawRate / vx * WHEELBASE) else 0.0, 0.0)
      ensures accelerations == (0.0, 0.0, 0.0)
    {
      state := State(0.0, 0.0, 0.0, vx, vy, yawRate, if vx > 0.25 then atan(yawRate / vx * WHEELBASE) else 0.0, 0.0);
      accelerations := (0.0, 0.0, 0.0);
    }

    method ResetOrigin()
      modifies this`state
      ensures state == old(state).(x := 0.0, y := 0.0, yaw := 0.0)
    {
      state := state.(x := 0.0, y := 0.0, yaw := 0.0);
    }

    method SetVelocity(vx: real, vy: real)
      modifies this`state
      ensures state == old(state).(vx := vx, vy := vy)
    {
      state := state.(vx := vx, vy := vy);
    }

    method Advance(trig: Trig, u: Control, dt: real) returns (pose: Pose)
      modifies this
      ensures state == Run(trig, old(state), u, SubSteps(dt))
      ensures var d := Derivs(trig, state, u); accelerations == (d.vx, d.vy, d.yawRate)
      ensures pose == PoseOf(trig, state)
    {
      hide Derivs, SubStep;
      var total := 0.0;
      while total < dt
        invariant total <= NonNegative(dt)
        invariant Run(trig, state, u, SubSteps(dt - total)) == Run(trig, old(state), u, SubSteps(dt))
        decreases StepsLeft(dt - total)
      {
        var h := if MAX_STEP <= dt - total then MAX_STEP else dt - total;
        assert SubSteps(dt - total)[1..] == SubSteps(dt - (total + h));
        FewerSteps(dt - total);
        total := total + h;
        state := SubStep(trig, state, u, h);
      }
      var d := Derivs(trig, state, u);
      accelerations := (d.vx, d.vy, d.yawRate);
      pose := Pose(Vec(state.x, state.y, 0.0), Quat(0.0, 0.0, trig.sin(state.yaw / 2.0), trig.cos(state.yaw / 2.0)));
    }
  }

  // ----- the actuators

  /** A product that a proof can hide. */
  function Times(a: real, b: real): real {
    a * b
  }

  /** What a sub-step leaves of the distance to the command. */
  function Decay(h: real): real {
    1.0 - 10.0 * h + 50.0 * (h * h)
  }

  /** A lagged value half a step on. */
  function Midpoint(command: real, value: real, h: real): real {
    value + h / 2.0 * Lag(command, value)
  }

  /** A lagged value after one midpoint step. */
  function Lagged(command: real, value: real, h: real): real {
    value + h * Lag(command, Midpoint(command, value, h))
  }

  lemma SubStepParts(trig: Trig, s: State, u: Control, h: real)
    ensures var r := SubStep(trig, s, u, h);
            && r.steering == Lagged(u.steering, s.steering, h)
            && r.accel == Lagged(u.accel, s.accel, h)
            && r.vx == NonNegative(s.vx + Times(h, Midpoint(u.accel, s.accel, h)))
  {
    var k1 := Derivs(trig, s, u);
    DerivsParts(trig, s, u);
    DerivsParts(trig, Plus(s, h / 2.0, k1), u);
    hide Derivs, Lag;
  }

  lemma DerivsParts(trig: Trig, s: State, u: Control)
    ensures var d := Derivs(trig, s, u);
            d.vx == s.accel && d.steering == Lag(u.steering, s.steering) && d.accel == Lag(u.accel, s.accel)
  {
    hide Lag;
  }

  lemma LaggedDecays(command: real, value: real, h: real)
    ensures Lagged(command, value, h) - command == Times(Decay(h), value - command)
  {
    var e := value - command;
    MidpointIs(command, value, h);
    assert Lag(command, Midpoint(command, value, h)) == -10.0 * (e - 5.0 * (h * e));
    LastStep(e, h);
  }

  lemma MidpointIs(command: real, value: real, h: real)
    ensures Midpoint(command, value, h) == value - 5.0 * (h * (value - command))
  {
    var e := value - command;
    assert Lag(command, value) == -10.0 * e;
    assert h / 2.0 * (-10.0 * e) == -5.0 * (h * e);
  }

  lemma LastStep(e: real, h: real)
    ensures e + h * (-10.0 * (e - 5.0 * (h * e))) == (1.0 - 10.0 * h + 50.0 * (h * h)) * e
  {
  }

  lemma DecayBounds(h: real)
    requires 0.0 < h <= MAX_STEP
    ensures 0.905 <= Decay(h) < 1.0
  {
    var p, q := h * (10.0 - 50.0 * h), (h - 0.01) * (h - 0.19);
    Product(h, 10.0 - 50.0 * h, p);
    Product(h - 0.01, h - 0.19, q);
    assert p == 10.0 * h - 50.0 * (h * h);
    assert q == h * h - 0.2 * h + 0.0019;
  }

  // ----- over any number of sub-steps

  function DecayProduct(hs: seq<real>): real {
    if |hs| == 0 then 1.0 else Times(Decay(hs[0]), DecayProduct(hs[1..]))
  }

  ghost predicate ValidSteps(hs: seq<real>) {
    forall i :: 0 <= i < |hs| ==> 0.0 < hs[i] <= MAX_STEP
  }

  lemma {:induction false} DecayProductBounds(hs: seq<real>)
    requires ValidSteps(hs)
    ensures 0.0 < DecayProduct(hs) <= 1.0
    ensures |hs| > 0 ==> DecayProduct(hs) < 1.0
  {
    hide Decay, Times;
    if |hs| > 0 {
      DecayProductBounds(hs[1..]);
      DecayBounds(hs[0]);
      ProductBelow(Decay(hs[0]), DecayProduct(hs[1..]));
    }
  }

  lemma ProductBelow(a: real, b: real)
    requires 0.0 < a < 1.0 && 0.0 < b <= 1.0
    ensures 0.0 < Times(a, b) < 1.0
  {
    Product(a, b, a * b);
    Product(1.0 - a, b, (1.0 - a) * b);
    assert (1.0 - a) * b == b - a * b;
  }

  /** Steering and acceleration close in on their commands by the same factor, whatever the rest of the state does. */
  lemma {:induction false} ActuatorsDecay(trig: Trig, s: State, u: Control, hs: seq<real>)
    ensures var r := Run(trig, s, u, hs);
            && r.steering - u.steering == Times(DecayProduct(hs), s.steering - u.steering)
            && r.accel - u.accel == Times(DecayProduct(hs), s.accel - u.accel)
    decreases |hs|
  {
    hide SubStep, Decay, Lagged, Times;
    if |hs| == 0 {
      TimesOne(s.steering - u.steering);
      TimesOne(s.accel - u.accel);
    } else {
      var s1, h, d := SubStep(trig, s, u, hs[0]), hs[0], DecayProduct(hs[1..]);
      ActuatorsDecay(trig, s1, u, hs[1..]);
      SubStepParts(trig, s, u, h);
      LaggedDecays(u.steering, s.steering, h);
      LaggedDecays(u.accel, s.accel, h);
      Regroup(d, Decay(h), s.steering - u.steering);
      Regroup(d, Decay(h), s.accel - u.accel);
    }
  }

  lemma TimesOne(e: real)
    ensures Times(1.0, e) == e
  {
  }

  lemma Regroup(d: real, k: real, e: real)
    ensures Times(d, Times(k, e)) == Times(Times(k, d), e)
  {
  }

  ghost predicate Within(v: real, a: real, b: real) {
    (a <= v <= b) || (b <= v <= a)
  }

  lemma ScaledWithin(k: real, e: real)
    requires 0.0 <= k <= 1.0
    ensures Within(Times(k, e), 0.0, e)
  {
    var p, q := k * e, (1.0 - k) * e;
    assert p + q == e;
    Product(k, e, p);
    Product(1.0 - k, e, q);
  }

  /** Both move monotonically toward their commands and never overshoot: they stay between value and command. */
  lemma ActuatorsNeverOvershoot(trig: Trig, s: State, u: Control, hs: seq<real>)
    requires ValidSteps(hs)
    ensures var r := Run(trig, s, u, hs);
            Within(r.steering, s.steering, u.steering) && Within(r.accel, s.accel, u.accel)
  {
    hide Run, DecayProduct, ValidSteps, Times;
    ActuatorsDecay(trig, s, u, hs);
    DecayProductBounds(hs);
    ScaledWithin(DecayProduct(hs), s.steering - u.steering);
    ScaledWithin(DecayProduct(hs), s.accel - u.accel);
  }

  // ----- speed

  function AtLeast(a: real, b: real): real {
    if a >= b then a else b
  }

  function Top(a: real, command: real): real {
    AtLeast(0.0, AtLeast(a, command))
  }

  function Bottom(a: real, command: real): real {
    -Top(-a, -command)
  }

  /** The acceleration at the midpoint lies between the present one and the command. */
  lemma MidpointWithin(command: real, a: real, h: real)
    requires 0.0 < h <= MAX_STEP
    ensures Within(Midpoint(command, a, h), a, command)
  {
    MidpointIs(command, a, h);
    var e := command - a;
    assert -5.0 * (h * (a - command)) == Times(5.0 * h, e);
    hide Midpoint, Times;
    ScaledWithin(5.0 * h, e);
  }

  lemma StepWithin(h: real, m: real, low: real, top: real)
    requires 0.0 < h && low <= m <= top
    ensures Times(h, low) <= Times(h, m) <= Times(h, top)
    ensures low <= 0.0 <= top ==> Times(h, low) <= 0.0 <= Times(h, top)
  {
    var p, q, r, s, t := h * (m - low), h * (top - m), h * low, h * m, h * top;
    assert p == s - r && q == t - s;
    Product(h, m - low, p);
    Product(h, top - m, q);
    Product(h, low, r);
    Product(h, top, t);
  }

  lemma SubStepSpeed(trig: Trig, s: State, u: Control, h: real, low: real, top: real)
    requires 0.0 < h <= MAX_STEP && low <= 0.0 <= top && low <= s.accel <= top && low <= u.accel <= top
    ensures var r := SubStep(trig, s, u, h);
            && r.vx >= 0.0
            && (s.vx >= 0.0 ==> s.vx + Times(h, low) <= r.vx <= s.vx + Times(h, top))
            && low <= r.accel <= top
  {
    hide SubStep, Lag, Lagged, Decay, Midpoint, Times;
    SubStepParts(trig, s, u, h);
    MidpointWithin(u.accel, s.accel, h);
    StepWithin(h, Midpoint(u.accel, s.accel, h), low, top);
    LaggedDecays(u.accel, s.accel, h);
    DecayBounds(h);
    ScaledWithin(Decay(h), s.accel - u.accel);
  }

  lemma {:induction false} SpeedBounds(trig: Trig, s: State, u: Control, hs: seq<real>, low: real, top: real)
    requires ValidSteps(hs) && s.vx >= 0.0
    requires low <= 0.0 <= top && low <= s.accel <= top && low <= u.accel <= top
    ensures var r := Run(trig, s, u, hs);
            r.vx >= 0.0 && s.vx + Times(Sum(hs), low) <= r.vx <= s.vx + Times(Sum(hs), top)
    decreases |hs|
  {
    hide SubStep, Times;
    if |hs| == 0 {
      SumTimes(0.0, 0.0, low);
      SumTimes(0.0, 0.0, top);
    } else {
      var s1 := SubStep(trig, s, u, hs[0]);
      SubStepSpeed(trig, s, u, hs[0], low, top);
      SpeedBounds(trig, s1, u, hs[1..], low, top);
      SumTimes(hs[0], Sum(hs[1..]), low);
      SumTimes(hs[0], Sum(hs[1..]), top);
    }
  }

  lemma SumTimes(a: real, b: real, k: real)
    ensures Times(a + b, k) == Times(a, k) + Times(b, k)
    ensures Times(0.0, k) == 0.0
  {
  }

  /**
   * Over a whole interval: speed stays non-negative and changes by no more than the interval times the
   * most that the initial and the commanded acceleration allow; the actuators approach their commands
   * strictly, and never reach or pass them.
   */
  lemma AdvanceBounds(trig: Trig, s: State, u: Control, dt: real)
    requires s.vx >= 0.0
    ensures var r, t := Run(trig, s, u, SubSteps(dt)), NonNegative(dt);
            && 0.0 <= r.vx
            && s.vx + Times(t, Bottom(s.accel, u.accel)) <= r.vx <= s.vx + Times(t, Top(s.accel, u.accel))
            && Within(r.steering, s.steering, u.steering)
            && Within(r.accel, s.accel, u.accel)
            && (dt > 0.0 && s.steering != u.steering ==> r.steering != s.steering && r.steering != u.steering)
            && (dt > 0.0 && s.accel != u.accel ==> r.accel != s.accel && r.accel != u.accel)
  {
    var hs, low, top := SubSteps(dt), Bottom(s.accel, u.accel), Top(s.accel, u.accel);
    hide Run, SubSteps, DecayProduct, Sum, Times, NonNegative;
    SubStepsCover(dt);
    SpeedBounds(trig, s, u, hs, low, top);
    ActuatorsNeverOvershoot(trig, s, u, hs);
    ActuatorsDecay(trig, s, u, hs);
    DecayProductBounds(hs);
    if dt > 0.0 {
      NonEmptySteps(dt);
      StrictlyCloser(DecayProduct(hs), s.steering - u.steering);
      StrictlyCloser(DecayProduct(hs), s.accel - u.accel);
    }
  }

  lemma NonEmptySteps(dt: real)
    requires dt > 0.0
    ensures |SubSteps(dt)| > 0
  {
  }

  lemma StrictlyCloser(k: real, e: real)
    requires 0.0 < k < 1.0
    ensures e != 0.0 ==> Times(k, e) != e && Times(k, e) != 0.0
  {
    var p, q := k * e, (1.0 - k) * e;
    assert p + q == e;
    Product(k, e, p);
    Product(1.0 - k, e, q);
  }
}
