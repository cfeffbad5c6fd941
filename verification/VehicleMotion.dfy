/**
 What the equations of the vehicle model mean, and how a run moves the rig: wherever it starts, it is the run
 from the origin, seen from there (src/controller/alpasim_controller/vehicle_model.py).
 */
module VehicleMotion {
  import opened Vectors
  import opened Poses
  import opened VehicleModels

  // ----- turning

  function TurnedX(sin: real, cos: real, x: real, y: real): real {
    cos * x - sin * y
  }

  function TurnedY(sin: real, cos: real, x: real, y: real): real {
    sin * x + cos * y
  }

  // ----- the rates

  ghost predicate OnCircle(trig: Trig, a: real) {
    trig.sin(a) * trig.sin(a) + trig.cos(a) * trig.cos(a) == 1.0
  }

  /** The planar velocity, turned back by the yaw: forward the speed, sideways what the rear axle slips. */
  lemma VelocityInBody(trig: Trig, s: State, u: Control)
    requires OnCircle(trig, s.yaw)
    ensures var d, sin, cos := Derivs(trig, s, u), trig.sin(s.yaw), trig.cos(s.yaw);
            && d.x * cos + d.y * sin == s.vx
            && d.y * cos - d.x * sin == (if s.vx < 5.0 then 0.0 else s.vy - s.yawRate * 1.59)
            && d.yaw == s.yawRate && d.vx == s.accel
  {
    var d, sin, cos := Derivs(trig, s, u), trig.sin(s.yaw), trig.cos(s.yaw);
    var side := if s.vx < 5.0 then 0.0 else s.vy - s.yawRate * 1.59;
    PlanarRates(trig, s, u, side);
    hide Derivs;
    TurnedBack(s.vx, side, sin, cos, d.x, d.y);
  }

  lemma PlanarRates(trig: Trig, s: State, u: Control, side: real)
    requires side == if s.vx < 5.0 then 0.0 else s.vy - s.yawRate * 1.59
    ensures var d := Derivs(trig, s, u);
            && d.x == TurnedX(trig.sin(s.yaw), trig.cos(s.yaw), s.vx, side)
            && d.y == TurnedY(trig.sin(s.yaw), trig.cos(s.yaw), s.vx, side)
            && d.yaw == s.yawRate && d.vx == s.accel
  {
  }

  lemma TurnedBack(a: real, b: real, sin: real, cos: real, x: real, y: real)
    requires sin * sin + cos * cos == 1.0 && x == TurnedX(sin, cos, a, b) && y == TurnedY(sin, cos, a, b)
    ensures x * cos + y * sin == a && y * cos - x * sin == b
  {
    assert x * cos + y * sin == a * (sin * sin + cos * cos);
    assert y * cos - x * sin == b * (sin * sin + cos * cos);
  }

  /** Below the kinematic speed the sideways slips of the rear and of the steered front axle die out at rate 10. */
  lemma SlipsDieOut(trig: Trig, s: State, u: Control)
    requires s.vx < 5.0
    ensures var d := Derivs(trig, s, u);
            && d.vy - 1.59 * d.yawRate == -10.0 * (s.vy - 1.59 * s.yawRate)
            && d.vy + 1.26 * d.yawRate == -10.0 * (s.vy + 1.26 * s.yawRate - s.vx * s.steering)
  {
    var d, p := Derivs(trig, s, u), s.vx * s.steering;
    assert d.vy == 10.0 * (p * 1.59 / 2.85 - s.vy) && d.yawRate == 10.0 * (p / 2.85 - s.yawRate);
    hide Derivs;
  }

  /** Above it mass and inertia balance the forces of four tyres, each its stiffness times its slip angle. */
  lemma ForcesBalance(trig: Trig, s: State, u: Control)
    requires s.vx >= 5.0
    ensures var d := Derivs(trig, s, u);
            var front := 2.0 * 93534.5 * (s.steering - (s.vy + 1.26 * s.yawRate) / s.vx);
            var rear := -2.0 * 176162.1 * ((s.vy - 1.59 * s.yawRate) / s.vx);
            && 2014.4 * (d.vy + s.vx * s.yawRate) == front + rear
            && 3414.2 * d.yawRate == 1.26 * front - 1.59 * rear
  {
    var d := Derivs(trig, s, u);
    var v, p, q := s.vx, s.vy / s.vx, s.yawRate / s.vx;
    LateralQuotients(trig, s, u);
    hide Derivs;
    Quotients(s.vy, s.yawRate, v);
  }

  /**
   * The axle stiffnesses taken together: their sum, their moment and their second moment about the centre of
   * gravity.
   */
  const STIFFNESS := 93534.5 + 176162.1
  const MOMENT := 1.26 * 93534.5 - 1.59 * 176162.1
  const SECOND := 1.26 * (1.26 * 93534.5) + 1.59 * (1.59 * 176162.1)

  lemma LateralQuotients(trig: Trig, s: State, u: Control)
    requires s.vx >= 5.0
    ensures var d, p, q := Derivs(trig, s, u), s.vy / s.vx, s.yawRate / s.vx;
            && d.vy == -Times(s.vx, s.yawRate) - 2.0 * STIFFNESS / 2014.4 * p - 2.0 * MOMENT / 2014.4 * q
                       + 2.0 * 93534.5 / 2014.4 * s.steering
            && d.yawRate == -2.0 * MOMENT / 3414.2 * p - 2.0 * SECOND / 3414.2 * q
                            + 2.0 * (1.26 * 93534.5) / 3414.2 * s.steering
  {
    assert (Derivs(trig, s, u).vy, Derivs(trig, s, u).yawRate) == LateralRates(s);
    hide Derivs, LateralRates;
    LateralForm(s);
    LessTimes(s.vx, 2.0 * MOMENT / (2014.4 * s.vx), s.yawRate);
    CoefficientTimes(-2.0 * STIFFNESS, 2014.4, s.vx, s.vy);
    CoefficientTimes(2.0 * MOMENT, 2014.4, s.vx, s.yawRate);
    CoefficientTimes(-2.0 * MOMENT, 3414.2, s.vx, s.vy);
    CoefficientTimes(-2.0 * SECOND, 3414.2, s.vx, s.yawRate);
    hide Times;
  }

  lemma LateralForm(s: State)
    requires s.vx >= 5.0
    ensures 2014.4 * s.vx != 0.0 && 3414.2 * s.vx != 0.0
    ensures var d, q := LateralRates(s), 2.0 * MOMENT / (2014.4 * s.vx);
            && d.0 == Times(-2.0 * STIFFNESS / (2014.4 * s.vx), s.vy) + Times(-s.vx - q, s.yawRate)
                       + 2.0 * 93534.5 / 2014.4 * s.steering
            && d.1 == Times(-2.0 * MOMENT / (3414.2 * s.vx), s.vy) + Times(-2.0 * SECOND / (3414.2 * s.vx), s.yawRate)
                            + 2.0 * (1.26 * 93534.5) / 3414.2 * s.steering
  {
  }

  lemma LessTimes(v: real, q: real, x: real)
    ensures Times(-v - q, x) == -Times(v, x) - Times(q, x)
  {
  }

  lemma CoefficientTimes(k: real, m: real, v: real, x: real)
    requires m > 0.0 && v > 0.0
    ensures m * v != 0.0 && Times(k / (m * v), x) == k / m * (x / v)
  {
    Product(m, v, m * v);
    var a, b := k / (m * v), k / m;
    assert a * (m * v) == k && b * m == k;
    assert (a * v) * m == k;
    assert a * v == b;
    assert (x / v) * v == x;
    assert a * x == a * ((x / v) * v) == (a * v) * (x / v);
  }

  lemma Quotients(y: real, r: real, v: real)
    requires v > 0.0
    ensures (y + 1.26 * r) / v == y / v + 1.26 * (r / v) && (y - 1.59 * r) / v == y / v - 1.59 * (r / v)
  {
  }

  /** A sub-step adds to every component the step times its rate half a step on, and stops the speed at zero. */
  lemma SubStepIsMidpoint(trig: Trig, s: State, u: Control, h: real)
    ensures var d, k := Derivs(trig, s, u), h / 2.0;
            var m := State(s.x + Times(k, d.x), s.y + Times(k, d.y), s.yaw + Times(k, d.yaw),
                           s.vx + Times(k, d.vx), s.vy + Times(k, d.vy), s.yawRate + Times(k, d.yawRate),
                           s.steering + Times(k, d.steering), s.accel + Times(k, d.accel));
            var r, e := SubStep(trig, s, u, h), Derivs(trig, m, u);
            && r.x - s.x == Times(h, e.x) && r.y - s.y == Times(h, e.y) && r.yaw - s.yaw == Times(h, e.yaw)
            && r.vy - s.vy == Times(h, e.vy) && r.yawRate - s.yawRate == Times(h, e.yawRate)
            && r.steering - s.steering == Times(h, e.steering) && r.accel - s.accel == Times(h, e.accel)
            && r.vx == if s.vx + Times(h, e.vx) > 0.0 then s.vx + Times(h, e.vx) else 0.0
  {
    hide Derivs, Plus, Times;
    var d, k := Derivs(trig, s, u), h / 2.0;
    var m := State(s.x + Times(k, d.x), s.y + Times(k, d.y), s.yaw + Times(k, d.yaw),
                   s.vx + Times(k, d.vx), s.vy + Times(k, d.vy), s.yawRate + Times(k, d.yawRate),
                   s.steering + Times(k, d.steering), s.accel + Times(k, d.accel));
    PlusIs(s, k, d);
    assert Plus(s, k, d) == m;
    PlusIs(s, h, Derivs(trig, m, u));
  }

  lemma PlusIs(s: State, k: real, d: State)
    ensures var r := Plus(s, k, d);
            && r.x == s.x + Times(k, d.x) && r.y == s.y + Times(k, d.y) && r.yaw == s.yaw + Times(k, d.yaw)
            && r.vx == s.vx + Times(k, d.vx) && r.vy == s.vy + Times(k, d.vy)
            && r.yawRate == s.yawRate + Times(k, d.yawRate)
            && r.steering == s.steering + Times(k, d.steering) && r.accel == s.accel + Times(k, d.accel)
  {
  }

  // ----- the pose does not matter

  ghost predicate AddsUp(trig: Trig, a: real, b: real) {
    && trig.sin(a + b) == trig.sin(a) * trig.cos(b) + trig.cos(a) * trig.sin(b)
    && trig.cos(a + b) == trig.cos(a) * trig.cos(b) - trig.sin(a) * trig.sin(b)
  }

  /** What is assumed of sine and cosine: their values at zero, the circle, and the sums of angles. */
  ghost predicate IsTrig(trig: Trig) {
    && trig.sin(0.0) == 0.0 && trig.cos(0.0) == 1.0
    && (forall a :: OnCircle(trig, a))
    && forall a, b :: AddsUp(trig, a, b)
  }

  /** The state `s`, for someone to whom its origin is at the place and yaw of `b`. */
  ghost function SeenFrom(trig: Trig, b: State, s: State): State {
    var sin, cos := trig.sin(b.yaw), trig.cos(b.yaw);
    s.(x := b.x + TurnedX(sin, cos, s.x, s.y), y := b.y + TurnedY(sin, cos, s.x, s.y), yaw := b.yaw + s.yaw)
  }

  lemma Addition(trig: Trig, a: real, b: real)
    requires IsTrig(trig)
    ensures trig.sin(a + b) == TurnedY(trig.sin(a), trig.cos(a), trig.cos(b), trig.sin(b))
    ensures trig.cos(a + b) == TurnedX(trig.sin(a), trig.cos(a), trig.cos(b), trig.sin(b))
  {
    assert AddsUp(trig, a, b);
  }

  /** Rates turn with the yaw: the planar ones, and no others. */
  lemma RatesSeenFrom(trig: Trig, b: State, s: State, u: Control)
    requires IsTrig(trig)
    ensures Derivs(trig, SeenFrom(trig, b, s), u) == TurnedRates(trig, b, Derivs(trig, s, u))
  {
    var t, side := SeenFrom(trig, b, s), if s.vx < 5.0 then 0.0 else s.vy - s.yawRate * 1.59;
    PlanarRates(trig, s, u, side);
    PlanarRates(trig, t, u, side);
    OtherRates(trig, s, t, u);
    Addition(trig, b.yaw, s.yaw);
    TurnedTwice(s.vx, side, trig.sin(b.yaw), trig.cos(b.yaw), trig.sin(s.yaw), trig.cos(s.yaw));
    hide Derivs, IsTrig, TurnedX, TurnedY;
  }

  lemma OtherRates(trig: Trig, s: State, t: State, u: Control)
    requires t == s.(x := t.x, y := t.y, yaw := t.yaw)
    ensures var d, e := Derivs(trig, s, u), Derivs(trig, t, u); e == d.(x := e.x, y := e.y)
  {
  }

  lemma TurnedTwice(a: real, b: real, s: real, c: real, s': real, c': real)
    ensures TurnedX(TurnedY(s, c, c', s'), TurnedX(s, c, c', s'), a, b)
            == TurnedX(s, c, TurnedX(s', c', a, b), TurnedY(s', c', a, b))
    ensures TurnedY(TurnedY(s, c, c', s'), TurnedX(s, c, c', s'), a, b)
            == TurnedY(s, c, TurnedX(s', c', a, b), TurnedY(s', c', a, b))
  {
  }

  /** The rates `d`, turned like `SeenFrom` turns positions. */
  ghost function TurnedRates(trig: Trig, b: State, d: State): State {
    var sin, cos := trig.sin(b.yaw), trig.cos(b.yaw);
    d.(x := TurnedX(sin, cos, d.x, d.y), y := TurnedY(sin, cos, d.x, d.y))
  }

  /** Adding turned rates to a state is adding the rates, and then seeing it from there. */
  lemma PlusSeenFrom(trig: Trig, b: State, s: State, k: real, d: State)
    ensures Plus(SeenFrom(trig, b, s), k, TurnedRates(trig, b, d)) == SeenFrom(trig, b, Plus(s, k, d))
  {
    PlusIs(SeenFrom(trig, b, s), k, TurnedRates(trig, b, d));
    PlusIs(s, k, d);
    Distribute(trig.sin(b.yaw), trig.cos(b.yaw), s.x, s.y, k, d.x, d.y);
    hide Times, Plus, TurnedX, TurnedY;
  }

  lemma Distribute(sin: real, cos: real, x: real, y: real, k: real, dx: real, dy: real)
    ensures TurnedX(sin, cos, x + Times(k, dx), y + Times(k, dy))
            == TurnedX(sin, cos, x, y) + Times(k, TurnedX(sin, cos, dx, dy))
    ensures TurnedY(sin, cos, x + Times(k, dx), y + Times(k, dy))
            == TurnedY(sin, cos, x, y) + Times(k, TurnedY(sin, cos, dx, dy))
  {
  }

  lemma SubStepSeenFrom(trig: Trig, b: State, s: State, u: Control, h: real)
    requires IsTrig(trig)
    ensures SubStep(trig, SeenFrom(trig, b, s), u, h) == SeenFrom(trig, b, SubStep(trig, s, u, h))
  {
    hide Derivs, IsTrig, SeenFrom, Plus, TurnedRates;
    var k1 := Derivs(trig, s, u);
    var m := Plus(s, h / 2.0, k1);
    RatesSeenFrom(trig, b, s, u);
    PlusSeenFrom(trig, b, s, h / 2.0, k1);
    var s', k2 := SeenFrom(trig, b, s), Derivs(trig, m, u);
    var k1' := Derivs(trig, s', u);
    assert Plus(s', h / 2.0, k1') == SeenFrom(trig, b, m);
    RatesSeenFrom(trig, b, m, u);
    PlusSeenFrom(trig, b, s, h, k2);
    var t := Plus(s, h, k2);
    assert Plus(s', h, Derivs(trig, SeenFrom(trig, b, m), u)) == SeenFrom(trig, b, t);
    SpeedSeenFrom(trig, b, t);
    assert SubStep(trig, s, u, h) == t.(vx := NonNegative(t.vx));
  }

  lemma SpeedSeenFrom(trig: Trig, b: State, s: State)
    ensures var t := SeenFrom(trig, b, s); t.(vx := NonNegative(t.vx)) == SeenFrom(trig, b, s.(vx := NonNegative(s.vx)))
  {
    var v := NonNegative(s.vx);
    assert SeenFrom(trig, b, s).vx == s.vx;
    assert s.(vx := v).x == s.x && s.(vx := v).y == s.y;
  }

  /** A run from any pose is the run from the origin, seen from that pose. */
  lemma {:induction false} RunSeenFrom(trig: Trig, b: State, s: State, u: Control, hs: seq<real>)
    requires IsTrig(trig)
    ensures Run(trig, SeenFrom(trig, b, s), u, hs) == SeenFrom(trig, b, Run(trig, s, u, hs))
    decreases |hs|
  {
    hide SubStep, IsTrig, SeenFrom;
    if |hs| > 0 {
      SubStepSeenFrom(trig, b, s, u, hs[0]);
      RunSeenFrom(trig, b, SubStep(trig, s, u, hs[0]), u, hs[1..]);
    }
  }

  lemma FromOrigin(trig: Trig, s: State)
    requires IsTrig(trig)
    ensures SeenFrom(trig, s, AtOrigin(s)) == s
  {
  }

  // ----- the pose that a run reports

  /** The pose at `v` turns forward into the direction of the yaw, and moves the origin to the rig. */
  lemma PoseFaces(trig: Trig, v: State)
    requires IsTrig(trig)
    ensures Act(PoseOf(trig, v), ZERO) == Vec(v.x, v.y, 0.0) && Unit(PoseOf(trig, v).quaternion)
    ensures Act(PoseOf(trig, v), Vec(1.0, 0.0, 0.0)) == Vec(v.x + trig.cos(v.yaw), v.y + trig.sin(v.yaw), 0.0)
    ensures Act(PoseOf(trig, v), Vec(0.0, 1.0, 0.0)) == Vec(v.x - trig.sin(v.yaw), v.y + trig.cos(v.yaw), 0.0)
  {
    PoseTurns(trig, v, ZERO);
    PoseTurns(trig, v, Vec(1.0, 0.0, 0.0));
    PoseTurns(trig, v, Vec(0.0, 1.0, 0.0));
    HalfCircle(trig, v.yaw);
    hide IsTrig, Act;
  }

  lemma HalfCircle(trig: Trig, a: real)
    requires IsTrig(trig)
    ensures var s, c := trig.sin(a / 2.0), trig.cos(a / 2.0);
            s * s + c * c == 1.0 && trig.sin(a) == 2.0 * (s * c) && trig.cos(a) == c * c - s * s
  {
    assert AddsUp(trig, a / 2.0, a / 2.0);
    assert a / 2.0 + a / 2.0 == a;
    assert OnCircle(trig, a / 2.0);
  }

  lemma PoseTurns(trig: Trig, v: State, w: Vec)
    requires IsTrig(trig)
    ensures var sin, cos := trig.sin(v.yaw), trig.cos(v.yaw);
            Act(PoseOf(trig, v), w) == Vec(v.x + TurnedX(sin, cos, w.x, w.y), v.y + TurnedY(sin, cos, w.x, w.y), w.z)
  {
    hide IsTrig, Rotate, TurnedX, TurnedY;
    HalfCircle(trig, v.yaw);
    TurnAboutUp(trig.sin(v.yaw / 2.0), trig.cos(v.yaw / 2.0), trig.sin(v.yaw), trig.cos(v.yaw), w);
  }

  lemma TurnAboutUp(s: real, c: real, sin: real, cos: real, w: Vec)
    requires s * s + c * c == 1.0 && sin == 2.0 * (s * c) && cos == c * c - s * s
    ensures Rotate(Quat(0.0, 0.0, s, c), w) == Vec(TurnedX(sin, cos, w.x, w.y), TurnedY(sin, cos, w.x, w.y), w.z)
  {
    hide QMul, TurnedX, TurnedY;
    var t := QMul(Quat(0.0, 0.0, s, c), Pure(w));
    UpTimes(s, c, w);
    TimesUp(t, s, c);
    TwoHalves(s, c, sin, cos, w.x, w.y, t.x, t.y);
    WholeTurn(s, c, w.z, t.z, -t.w);
  }

  lemma UpTimes(s: real, c: real, w: Vec)
    ensures var t := QMul(Quat(0.0, 0.0, s, c), Pure(w));
            t.x == c * w.x - s * w.y && t.y == s * w.x + c * w.y && t.z == c * w.z && t.w == -(s * w.z)
  {
  }

  lemma TimesUp(t: Quat, s: real, c: real)
    ensures var r := QMul(t, Quat(0.0, 0.0, -s, c));
            r.x == t.x * c - t.y * s && r.y == t.x * s + t.y * c && r.z == t.z * c - t.w * s
  {
  }

  lemma TwoHalves(s: real, c: real, sin: real, cos: real, x: real, y: real, p: real, q: real)
    requires sin == 2.0 * (s * c) && cos == c * c - s * s && p == c * x - s * y && q == s * x + c * y
    ensures p * c - q * s == TurnedX(sin, cos, x, y) && p * s + q * c == TurnedY(sin, cos, x, y)
  {
    assert p * c - q * s == (c * c - s * s) * x - (2.0 * (s * c)) * y;
    assert p * s + q * c == (2.0 * (s * c)) * x + (c * c - s * s) * y;
  }

  lemma WholeTurn(s: real, c: real, z: real, p: real, q: real)
    requires s * s + c * c == 1.0 && p == c * z && q == s * z
    ensures p * c + q * s == z
  {
    assert p * c + q * s == (s * s + c * c) * z;
  }

  /** Seeing a state from another is composing their poses. */
  lemma PoseSeenFrom(trig: Trig, b: State, v: State)
    requires IsTrig(trig)
    ensures PoseOf(trig, SeenFrom(trig, b, v)) == Compose(PoseOf(trig, b), PoseOf(trig, v))
  {
    var p, q := PoseOf(trig, b), PoseOf(trig, v);
    hide IsTrig, Rotate, QMul, TurnedX, TurnedY;
    PoseTurns(trig, b, q.position);
    assert (b.yaw + v.yaw) / 2.0 == b.yaw / 2.0 + v.yaw / 2.0;
    Addition(trig, b.yaw / 2.0, v.yaw / 2.0);
    UpTimesUp(trig.sin(b.yaw / 2.0), trig.cos(b.yaw / 2.0), trig.sin(v.yaw / 2.0), trig.cos(v.yaw / 2.0));
  }

  lemma UpTimesUp(s: real, c: real, s': real, c': real)
    ensures QMul(Quat(0.0, 0.0, s, c), Quat(0.0, 0.0, s', c'))
            == Quat(0.0, 0.0, TurnedY(s, c, c', s'), TurnedX(s, c, c', s'))
  {
  }

  /**
   * Stopping midway, putting the origin there and composing the two poses gives the pose of running through:
   * the frames do not matter, only the sub-steps do.
   */
  lemma StoppingChangesNothing(trig: Trig, s: State, u: Control, hs: seq<real>, more: seq<real>)
    requires IsTrig(trig)
    ensures var first := Run(trig, s, u, hs);
            var second := Run(trig, AtOrigin(first), u, more);
            && Compose(PoseOf(trig, first), PoseOf(trig, second)) == PoseOf(trig, Run(trig, s, u, hs + more))
            && AtOrigin(second) == AtOrigin(Run(trig, s, u, hs + more))
  {
    hide Run, IsTrig, PoseOf, SeenFrom, AtOrigin;
    var first := Run(trig, s, u, hs);
    RunOn(trig, s, u, hs, more);
    FromOrigin(trig, first);
    RunSeenFrom(trig, first, AtOrigin(first), u, more);
    PoseSeenFrom(trig, first, Run(trig, AtOrigin(first), u, more));
    SameBut(trig, first, Run(trig, AtOrigin(first), u, more));
  }

  lemma SameBut(trig: Trig, b: State, v: State)
    ensures AtOrigin(SeenFrom(trig, b, v)) == AtOrigin(v)
  {
  }

  lemma {:induction false} RunOn(trig: Trig, s: State, u: Control, hs: seq<real>, more: seq<real>)
    ensures Run(trig, s, u, hs + more) == Run(trig, Run(trig, s, u, hs), u, more)
    decreases |hs|
  {
    hide SubStep;
    if |hs| == 0 {
      assert hs + more == more;
    } else {
      assert (hs + more)[0] == hs[0] && (hs + more)[1..] == hs[1..] + more;
      RunOn(trig, SubStep(trig, s, u, hs[0]), u, hs[1..], more);
    }
  }

  // ----- straight ahead

  /** Nothing turns, and nothing is to turn. */
  predicate IsStraight(s: State, u: Control) {
    s.yaw == 0.0 && s.vy == 0.0 && s.yawRate == 0.0 && s.steering == 0.0 && u.steering == 0.0
  }

  lemma StraightRates(trig: Trig, s: State, u: Control)
    requires IsStraight(s, u) && trig.sin(0.0) == 0.0 && trig.cos(0.0) == 1.0
    ensures var d := Derivs(trig, s, u);
            d.x == s.vx && d.y == 0.0 && d.yaw == 0.0 && d.vy == 0.0 && d.yawRate == 0.0 && d.steering == 0.0
  {
    if s.vx >= 5.0 {
      LateralQuotients(trig, s, u);
      assert s.vy / s.vx == 0.0 && s.yawRate / s.vx == 0.0;
    }
  }

  /** A straight sub-step moves ahead by the step times the speed half a step on, and not aside. */
  lemma StraightStep(trig: Trig, s: State, u: Control, h: real)
    requires IsStraight(s, u) && trig.sin(0.0) == 0.0 && trig.cos(0.0) == 1.0
    ensures var r := SubStep(trig, s, u, h);
            && IsStraight(r, u) && r.y == s.y
            && r.x - s.x == Times(h, s.vx + Times(h / 2.0, s.accel))
  {
    var d := Derivs(trig, s, u);
    var m := Plus(s, h / 2.0, d);
    StraightRates(trig, s, u);
    DerivsParts(trig, s, u);
    assert IsStraight(m, u);
    StraightRates(trig, m, u);
    hide Derivs;
  }

  /** What a step ahead is at most and at least, when accelerations stay between `low` and `top`. */
  lemma StepAhead(h: real, v: real, a: real, low: real, top: real, rest: real)
    requires 0.0 < h <= MAX_STEP && low <= 0.0 <= top && low <= a <= top && rest >= 0.0
    ensures v + Times(h + rest, low) <= v + Times(h / 2.0, a) <= v + Times(h + rest, top)
  {
    hide Times;
    StepWithin(h / 2.0, a, low, top);
    HalfStep(h, rest, -low);
    HalfStep(h, rest, top);
    Negated(h / 2.0, low);
    Negated(h + rest, low);
  }

  lemma Negated(k: real, a: real)
    ensures Times(k, -a) == -Times(k, a)
  {
  }

  lemma HalfStep(h: real, rest: real, top: real)
    requires h > 0.0 && rest >= 0.0 && top >= 0.0
    ensures Times(h / 2.0, top) <= Times(h + rest, top)
  {
    Product(h / 2.0 + rest, top, (h / 2.0 + rest) * top);
    assert (h + rest) * top - h / 2.0 * top == (h / 2.0 + rest) * top;
  }

  lemma {:induction false} SumNonNegative(hs: seq<real>)
    requires ValidSteps(hs)
    ensures Sum(hs) >= 0.0
  {
    if |hs| > 0 {
      SumNonNegative(hs[1..]);
    }
  }

  /** Driving straight stays straight, and goes ahead by the time times a speed that the accelerations allow. */
  lemma {:induction false} StraightRun(trig: Trig, s: State, u: Control, hs: seq<real>, low: real, top: real)
    requires IsStraight(s, u) && trig.sin(0.0) == 0.0 && trig.cos(0.0) == 1.0 && ValidSteps(hs) && s.vx >= 0.0
    requires low <= 0.0 <= top && low <= s.accel <= top && low <= u.accel <= top
    ensures var r, t := Run(trig, s, u, hs), Sum(hs);
            && IsStraight(r, u) && r.y == s.y
            && Times(t, s.vx + Times(t, low)) <= r.x - s.x <= Times(t, s.vx + Times(t, top))
    decreases |hs|
  {
    hide SubStep, Times, IsStraight;
    if |hs| == 0 {
      SumTimes(0.0, 0.0, s.vx + Times(0.0, low));
      SumTimes(0.0, 0.0, s.vx + Times(0.0, top));
    } else {
      var h, more := hs[0], hs[1..];
      var s1, rest := SubStep(trig, s, u, h), Sum(more);
      StraightStep(trig, s, u, h);
      SubStepSpeed(trig, s, u, h, low, top);
      StraightRun(trig, s1, u, more, low, top);
      SumNonNegative(more);
      StepAhead(h, s.vx, s.accel, low, top, rest);
      SumTimes(h, rest, low);
      SumTimes(h, rest, top);
      SumTimes(h, rest, s.vx + Times(h + rest, low));
      SumTimes(h, rest, s.vx + Times(h + rest, top));
      Ordered(h, s.vx + Times(h + rest, low), s.vx + Times(h / 2.0, s.accel));
      Ordered(h, s.vx + Times(h / 2.0, s.accel), s.vx + Times(h + rest, top));
      Ordered(rest, s.vx + Times(h + rest, low), s1.vx + Times(rest, low));
      Ordered(rest, s1.vx + Times(rest, top), s.vx + Times(h + rest, top));
    }
  }

  lemma Ordered(k: real, a: real, b: real)
    requires k >= 0.0 && a <= b
    ensures Times(k, a) <= Times(k, b)
  {
    Product(k, b - a, k * (b - a));
    assert k * b - k * a == k * (b - a);
  }

  /**
   * The speed never is negative; yet a braking vehicle that stands still is moved back, by the speed half a
   * step on.
   */
  lemma BrakingRollsBack(trig: Trig, h: real)
    requires trig.sin(0.0) == 0.0 && trig.cos(0.0) == 1.0 && 0.0 < h <= MAX_STEP
    ensures var s, u := State(0.0, 0.0, 0.0, 0.0, 0.0, 0.0, 0.0, -1.0), Control(0.0, -1.0);
            var r := SubStep(trig, s, u, h); r.vx == 0.0 && r.x == -(h * h / 2.0) < 0.0
  {
    var s, u := State(0.0, 0.0, 0.0, 0.0, 0.0, 0.0, 0.0, -1.0), Control(0.0, -1.0);
    StraightStep(trig, s, u, h);
    SubStepSpeed(trig, s, u, h, -1.0, 0.0);
    Product(h, h, h * h);
    SubStepParts(trig, s, u, h);
    MidpointIs(-1.0, -1.0, h);
    hide SubStep, Midpoint;
  }

  /** A straight sub-step goes backward exactly when the speed half a step on is negative. */
  lemma BackwardExactlyWhen(trig: Trig, s: State, u: Control, h: real)
    requires IsStraight(s, u) && trig.sin(0.0) == 0.0 && trig.cos(0.0) == 1.0 && h > 0.0
    ensures SubStep(trig, s, u, h).x < s.x <==> s.vx + h / 2.0 * s.accel < 0.0
  {
    hide SubStep;
    StraightStep(trig, s, u, h);
    var v := s.vx + h / 2.0 * s.accel;
    Product(h, if v < 0.0 then -v else v, h * if v < 0.0 then -v else v);
  }
}
