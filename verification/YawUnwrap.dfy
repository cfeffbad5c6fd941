/** Phase unwrapping of yaw angles (the nested loop of `compute_yaw_derivative` in src/utils_rs/src/trajectory.rs). */
module YawUnwrap {

  /** The value of the f32 constant. */
  const PI: real := 3.1415927410125732421875

  function Correction(diff: real): int {
    if diff > PI then -1 else if diff < -PI then 1 else 0
  }

  /** Whole turns added to the angle at `i`. */
  function Turns(ys: seq<real>, i: nat): int
    requires i < |ys|
  {
    if i == 0 then 0 else Turns(ys, i - 1) + Correction(ys[i] - ys[i - 1])
  }

  function Turned(y: real, turns: int): real {
    y + 2.0 * PI * turns as real
  }

  /** One pass with a running count of turns, which reads only the original angles. */
  function Unwrapped(ys: seq<real>): (r: seq<real>)
    ensures |r| == |ys| && forall i :: 0 <= i < |ys| ==> r[i] == Turned(ys[i], Turns(ys, i))
  {
    seq(|ys|, i requires 0 <= i < |ys| => Turned(ys[i], Turns(ys, i)))
  }

  lemma TurnedTwice(y: real, a: int, b: int)
    ensures Turned(Turned(y, a), b) == Turned(y, a + b) && Turned(y, 0) == y
  {
  }

  lemma TurnedDifference(x: real, y: real, a: int)
    ensures Turned(y, a) - Turned(x, a) == y - x
  {
  }

  lemma TurnsStart(ys: seq<real>)
    ensures |ys| > 0 ==> Turns(ys, 0) == 0
  {
  }

  lemma TurnsStep(ys: seq<real>, i: nat)
    requires 1 <= i < |ys|
    ensures Turns(ys, i) == Turns(ys, i - 1) + Correction(ys[i] - ys[i - 1])
  {
  }

  method UnwrapInPlace(yaws: array<real>)
    modifies yaws
    ensures yaws[..] == Unwrapped(old(yaws[..]))
  {
    hide Turned, Turns;
    ghost var ys := yaws[..];
    var n, i := yaws.Length, 1;
    ghost var turns := 0;
    TurnsStart(ys);
    forall k | 0 <= k < n
      ensures yaws[k] == Turned(ys[k], 0)
    {
      TurnedTwice(ys[k], 0, 0);
    }
    while i < n
      invariant 1 <= i && (n >= 1 ==> i <= n && turns == Turns(ys, i - 1))
      invariant forall k :: 0 <= k < i && k < n ==> yaws[k] == Turned(ys[k], Turns(ys, k))
      invariant forall k :: i <= k < n ==> yaws[k] == Turned(ys[k], turns)
    {
      TurnsStep(ys, i);
      assert yaws[i - 1] == Turned(ys[i - 1], turns);
      var diff := yaws[i] - yaws[i - 1];
      TurnedDifference(ys[i - 1], ys[i], turns);
      if diff > PI {
        ShiftFrom(yaws, ys, i, turns, -1);
        turns := turns - 1;
      } else if diff < -PI {
        ShiftFrom(yaws, ys, i, turns, 1);
        turns := turns + 1;
      }
      i := i + 1;
    }
  }

  /** The inner loop: every angle from `i` on moves by a whole turn. */
  method ShiftFrom(yaws: array<real>, ghost ys: seq<real>, i: nat, ghost turns: int, step: int)
    requires i <= yaws.Length == |ys|
    requires forall k :: i <= k < |ys| ==> yaws[k] == Turned(ys[k], turns)
    modifies yaws
    ensures forall k :: 0 <= k < i ==> yaws[k] == old(yaws[k])
    ensures forall k :: i <= k < |ys| ==> yaws[k] == Turned(ys[k], turns + step)
  {
    hide Turned;
    for j := i to yaws.Length
      invariant forall k :: 0 <= k < i ==> yaws[k] == old(yaws[k])
      invariant forall k :: i <= k < |ys| ==> yaws[k] == Turned(ys[k], if k < j then turns + step else turns)
    {
      TurnedTwice(ys[j], turns, step);
      yaws[j] := Turned(yaws[j], step);
    }
  }

  ghost predicate Smooth(z: seq<real>) {
    forall i :: 1 <= i < |z| ==> -PI <= z[i] - z[i - 1] <= PI
  }

  /** Neighbours end up within half a turn exactly when they started within one and a half turns. */
  lemma SmoothExactlyWhenClose(ys: seq<real>)
    ensures Smooth(Unwrapped(ys)) <==> forall i :: 1 <= i < |ys| ==> -3.0 * PI <= ys[i] - ys[i - 1] <= 3.0 * PI
  {
    var z := Unwrapped(ys);
    forall i | 1 <= i < |ys|
      ensures z[i] - z[i - 1] == Turned(ys[i] - ys[i - 1], Correction(ys[i] - ys[i - 1]))
    {
      assert Turns(ys, i) == Turns(ys, i - 1) + Correction(ys[i] - ys[i - 1]);
    }
  }

  lemma SmoothForAngles(ys: seq<real>)
    requires forall i :: 0 <= i < |ys| ==> -PI < ys[i] <= PI
    ensures Smooth(Unwrapped(ys))
  {
    SmoothExactlyWhenClose(ys);
  }

  /**
   * Where neighbours are within one and a half turns, no other choice of whole turns keeps the first angle and
   * moves less than half a turn at each step.
   */
  lemma {:induction false} UnwrappingIsUnique(ys: seq<real>, turns: seq<int>, i: nat)
    requires |turns| == |ys| && i < |ys| && turns[0] == 0
    requires forall k :: 1 <= k < |ys| ==> -3.0 * PI <= ys[k] - ys[k - 1] <= 3.0 * PI
    requires forall k :: 1 <= k < |ys| ==> -PI < Turned(ys[k], turns[k]) - Turned(ys[k - 1], turns[k - 1]) < PI
    ensures turns[i] == Turns(ys, i)
  {
    hide Turned, Correction;
    if i > 0 {
      UnwrappingIsUnique(ys, turns, i - 1);
      StepIsCorrection(ys[i - 1], ys[i], turns[i - 1], turns[i]);
    }
  }

  lemma StepIsCorrection(x: real, y: real, a: int, b: int)
    requires -3.0 * PI <= y - x <= 3.0 * PI && -PI < Turned(y, b) - Turned(x, a) < PI
    ensures b == a + Correction(y - x)
  {
    var d := b - a;
    assert -PI < (y - x) + 2.0 * PI * d as real < PI;
    assert -1 <= d <= 1;
  }
}
