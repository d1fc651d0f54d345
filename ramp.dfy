/**
 * The pixelation ramp that opens `draw`: every frame the step speed grows by
 * one until it reaches `maxResSpeed`, and the sampling resolution `res` grows
 * by the step speed until it is clamped at `maxRes`, the tile width.
 */
module Ramp {
  import opened Geometry

  const InitialRes: real := 1.0
  const InitialSpeed: real := 0.1
  const MaxResSpeed: real := 2.0

  /** The ramp's share of the sketch state: `res` and `currentResSpeed`. */
  datatype State = State(res: real, speed: real)

  const Initial: State := State(InitialRes, InitialSpeed)

  /** One frame of the ramp for the current `maxRes`. */
  function Step(s: State, maxRes: real): State
  {
    var speed := if s.speed < MaxResSpeed then s.speed + 1.0 else s.speed;
    var res := if s.res < maxRes then Min(s.res + speed, maxRes) else s.res;
    State(res, speed)
  }

  /** The state after `n` frames at a fixed `maxRes`. */
  function Ticks(s: State, maxRes: real, n: nat): State
  {
    if n == 0 then s else Step(Ticks(s, maxRes, n - 1), maxRes)
  }

  /** The step speed stays non-negative and below one past `maxResSpeed`. */
  predicate Invariant(s: State)
  {
    0.0 <= s.speed < MaxResSpeed + 1.0
  }

  /**
   * A frame keeps the invariant, makes the step speed at least one, and adds
   * one to it exactly when it was below `maxResSpeed`.
   */
  lemma StepSpeed(s: State, maxRes: real)
    requires Invariant(s)
    ensures Invariant(Step(s, maxRes))
    ensures Step(s, maxRes).speed >= 1.0
    ensures s.speed < MaxResSpeed <==> Step(s, maxRes).speed == s.speed + 1.0
    ensures s.speed >= MaxResSpeed ==> Step(s, maxRes).speed == s.speed
  {
  }

  /**
   * From the initial state the step speed is 1.1 after one frame and 2.1 from
   * the second frame on: the check against `maxResSpeed` happens before the
   * increment, so the speed settles one step past 2.
   */
  lemma {:induction false} SpeedSchedule(maxRes: real, n: nat)
    ensures n == 1 ==> Ticks(Initial, maxRes, n).speed == 1.1
    ensures n >= 2 ==> Ticks(Initial, maxRes, n).speed == 2.1
  {
    if n >= 1 {
      assert Ticks(Initial, maxRes, 1).speed == 1.1;
    }
    if n >= 2 {
      assert Ticks(Initial, maxRes, 2).speed == 2.1;
    }
    if n > 2 {
      SpeedSchedule(maxRes, n - 1);
    }
  }

  /** With a non-negative step speed a frame never lowers `res`, and only changes it while it is below `maxRes`. */
  lemma ResNeverDecreases(s: State, maxRes: real)
    requires Invariant(s)
    ensures Step(s, maxRes).res >= s.res
    ensures s.res >= maxRes ==> Step(s, maxRes).res == s.res
  {
  }

  /** Once at or below `maxRes`, `res` stays at or below it; reaching it is final. */
  lemma StaysClamped(s: State, maxRes: real)
    ensures s.res <= maxRes ==> Step(s, maxRes).res <= maxRes
    ensures s.res == maxRes ==> Step(s, maxRes).res == maxRes
  {
  }

  /**
   * Each frame adds at least one to `res` until the clamp: after `n` frames
   * `res` is at least `min(maxRes, res + n)`, and never above `maxRes` when it
   * started at or below it.
   */
  lemma {:induction false} RampProgress(s: State, maxRes: real, n: nat)
    requires Invariant(s)
    ensures Invariant(Ticks(s, maxRes, n))
    ensures Ticks(s, maxRes, n).res >= Min(maxRes, s.res + n as real)
    ensures s.res <= maxRes ==> Ticks(s, maxRes, n).res <= maxRes
  {
    if n > 0 {
      RampProgress(s, maxRes, n - 1);
      var t := Ticks(s, maxRes, n - 1);
      StepSpeed(t, maxRes);
      StaysClamped(t, maxRes);
    }
  }

  /** Starting at or below `maxRes`, `res` equals `maxRes` once as many frames as the gap have passed. */
  lemma RampCompletes(s: State, maxRes: real, n: nat)
    requires Invariant(s) && s.res <= maxRes && n as real >= maxRes - s.res
    ensures Ticks(s, maxRes, n).res == maxRes
  {
    RampProgress(s, maxRes, n);
  }
}
