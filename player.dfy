/**
 * `Player`: the local player's game-speed control. The speed is a list of
 * steps (game nanoseconds per real tick are `NANO_SECOND / step`), an index
 * into it, and the requested speed, negative while paused.
 */
module GamePlayer {
  import JavaMath
  import Units

  /** The default speed steps. */
  const SPEED_STEPS: seq<int> := [1, 4, 10, 50, 200, 1000, 5000, 25000, 60000, 180000, 500000]

  /** `signum(requestedSpeed) * NANO_SECOND / step`, in `Long` arithmetic. */
  function Speed(requested: int, step: int): int
    requires step != 0
  {
    JavaMath.Div(JavaMath.Signum(requested) * Units.NANO_SECOND, step)
  }

  /** Index after `increaseSpeed`: one up, but never past the last step. */
  function Faster(index: int, count: int): int
  {
    if index < count - 1 then index + 1 else index
  }

  /** Index after `decreaseSpeed`: one down, but never below 0. */
  function Slower(index: int): int
  {
    if index > 0 then index - 1 else index
  }

  /** Usable steps lie in [1, NANO_SECOND], so no step rounds the speed to 0. */
  ghost predicate GoodSteps(steps: seq<int>)
  {
    |steps| > 0 && forall i :: 0 <= i < |steps| ==> 1 <= steps[i] <= Units.NANO_SECOND
  }

  /** Both steps keep the index in range, and each undoes the other away from the ends. */
  lemma StepsInverse(index: int, count: int)
    requires 0 <= index < count
    ensures 0 <= Faster(index, count) < count && 0 <= Slower(index) < count
    ensures index < count - 1 ==> Slower(Faster(index, count)) == index
    ensures index > 0 ==> Faster(Slower(index), count) == index
    ensures Faster(index, count) == index <==> index == count - 1
  {
  }

  /**
   * Recomputing the speed for a step keeps its sign (paused or running) and
   * sets its size to `NANO_SECOND / step`.
   */
  lemma SpeedKeepsSign(requested: int, step: int)
    requires requested != 0 && 1 <= step <= Units.NANO_SECOND
    ensures JavaMath.Signum(Speed(requested, step)) == JavaMath.Signum(requested)
    ensures JavaMath.Abs(Speed(requested, step)) == Units.NANO_SECOND / step
  {
    JavaMath.DivMagnitude(JavaMath.Signum(requested) * Units.NANO_SECOND, step);
    var q := Units.NANO_SECOND / step;
    assert q >= 1 by {
      JavaMath.DivUnique(Units.NANO_SECOND, step, q, Units.NANO_SECOND % step);
      if q <= 0 {
        JavaMath.MulMonotone(step, q, 0);
      }
    }
    JavaMath.DivRemSpec(JavaMath.Signum(requested) * Units.NANO_SECOND, step);
  }

  /** The default steps are usable and strictly increasing, slowest first. */
  lemma DefaultStepsGood()
    ensures GoodSteps(SPEED_STEPS)
    ensures forall i, j :: 0 <= i < j < |SPEED_STEPS| ==> SPEED_STEPS[i] < SPEED_STEPS[j]
  {
  }

  class Player {
    var name: string
    var speedSteps: seq<int>
    var speedIndex: int
    var requestedSpeed: int

    /** The speed is `NANO_SECOND / step` for the current step, with the sign telling whether the game is paused. */
    ghost predicate Valid()
      reads this
    {
      GoodSteps(speedSteps) && 0 <= speedIndex < |speedSteps|
      && requestedSpeed != 0 && JavaMath.Abs(requestedSpeed) == Units.NANO_SECOND / speedSteps[speedIndex]
    }

    /** `Player(name)`: the first step, running at full `NANO_SECOND`. */
    constructor (name: string)
      ensures Valid()
      ensures this.name == name && speedSteps == SPEED_STEPS && speedIndex == 0
      ensures requestedSpeed == Units.NANO_SECOND
    {
      this.name := name;
      speedSteps := SPEED_STEPS;
      speedIndex := 0;
      requestedSpeed := Units.NANO_SECOND / SPEED_STEPS[0];
    }

    /** `increaseSpeed()`: one step up, keeping paused or running. */
    method IncreaseSpeed()
      requires Valid()
      modifies this
      ensures Valid() && name == old(name) && speedSteps == old(speedSteps)
      ensures speedIndex == Faster(old(speedIndex), |speedSteps|)
      ensures requestedSpeed == Speed(old(requestedSpeed), speedSteps[speedIndex])
      ensures JavaMath.Signum(requestedSpeed) == JavaMath.Signum(old(requestedSpeed))
    {
      if speedIndex < |speedSteps| - 1 {
        speedIndex := speedIndex + 1;
      }
      SpeedKeepsSign(requestedSpeed, speedSteps[speedIndex]);
      requestedSpeed := JavaMath.Div(JavaMath.Signum(requestedSpeed) * Units.NANO_SECOND, speedSteps[speedIndex]);
    }

    /** `decreaseSpeed()`: one step down, keeping paused or running. */
    method DecreaseSpeed()
      requires Valid()
      modifies this
      ensures Valid() && name == old(name) && speedSteps == old(speedSteps)
      ensures speedIndex == Slower(old(speedIndex))
      ensures requestedSpeed == Speed(old(requestedSpeed), speedSteps[speedIndex])
      ensures JavaMath.Signum(requestedSpeed) == JavaMath.Signum(old(requestedSpeed))
    {
      if speedIndex > 0 {
        speedIndex := speedIndex - 1;
      }
      SpeedKeepsSign(requestedSpeed, speedSteps[speedIndex]);
      requestedSpeed := JavaMath.Div(JavaMath.Signum(requestedSpeed) * Units.NANO_SECOND, speedSteps[speedIndex]);
    }

    /** `pauseSpeed()`: toggles between paused and running at the same step. */
    method PauseSpeed()
      requires Valid()
      modifies this
      ensures Valid() && name == old(name) && speedSteps == old(speedSteps) && speedIndex == old(speedIndex)
      ensures requestedSpeed == -old(requestedSpeed)
    {
      requestedSpeed := -requestedSpeed;
    }
  }

  /** Pausing twice resumes at the same speed; a step up and back down returns to the same speed. */
  method PauseAndStep(p: Player)
    requires p.Valid() && p.speedIndex < |p.speedSteps| - 1
    modifies p
    ensures p.Valid() && p.requestedSpeed == old(p.requestedSpeed) && p.speedIndex == old(p.speedIndex)
  {
    p.PauseSpeed();
    p.PauseSpeed();
    ghost var before := p.requestedSpeed;
    p.IncreaseSpeed();
    p.DecreaseSpeed();
    SpeedKeepsSign(before, p.speedSteps[p.speedIndex]);
    JavaMath.DivRemSpec(JavaMath.Signum(before) * Units.NANO_SECOND, p.speedSteps[p.speedIndex]);
  }
}
