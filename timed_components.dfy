/**
 * `TimedComponents`: a movement value known at a past time (`previous`), an
 * optional predicted value at a later time (`next`) and a cached value
 * interpolated between them. Times are `Long` game nanoseconds; positions
 * are in metres. Only the COAST interpolation is integer arithmetic; the
 * BALLISTIC one works on doubles and enters as a parameter.
 */
module TimedComponents {
  import opened Wrappers
  import JavaMath
  import Text
  import LongVectors

  type Vec = LongVectors.Vec

  const Zero: Vec := LongVectors.Vec(0, 0)

  /** `MovementValues`: position (m), velocity (cm/s), acceleration (cm/s²). */
  datatype Movement = Movement(position: Vec, velocity: Vec, acceleration: Vec)

  const Still: Movement := Movement(Zero, Zero, Zero)

  /** `TimedValue`: a value and the time it holds at. */
  datatype Timed = Timed(value: Movement, time: int)

  datatype Approach = Coast | Ballistic | Brachistochrone

  /** `getXinKM`/`getYinKM`: `(sign(m) * 500 + m) / 1000` with a `Long` addition and a truncating division. */
  function KmOf(m: int): int
  {
    JavaMath.Div(JavaMath.Wrap64(JavaMath.Signum(m) * 500 + m), 1000)
  }

  /** Away from the ends of the `Long` range, metres become kilometres rounded half away from zero. */
  lemma KmRounds(m: int)
    requires JavaMath.Abs(m) <= JavaMath.LONG_MAX - 500
    ensures m >= 0 ==> 1000 * KmOf(m) - 500 <= m < 1000 * KmOf(m) + 500
    ensures m < 0 ==> 1000 * KmOf(m) - 500 < m <= 1000 * KmOf(m) + 500
  {
    var n := JavaMath.Signum(m) * 500 + m;
    JavaMath.Wrap64Identity(n);
    JavaMath.DivRemSpec(n, 1000);
    JavaMath.RemMagnitude(n, 1000);
  }

  /** Rounding is symmetric: the kilometres of `-m` are minus those of `m`. */
  lemma KmOdd(m: int)
    requires JavaMath.Abs(m) <= JavaMath.LONG_MAX - 500
    ensures KmOf(-m) == -KmOf(m)
  {
    var n := JavaMath.Signum(m) * 500 + m;
    JavaMath.Wrap64Identity(n);
    JavaMath.Wrap64Identity(-n);
    assert JavaMath.Signum(-m) * 500 + -m == -n;
    assert JavaMath.Abs(-n) == JavaMath.Abs(n);
  }

  /** The `RuntimeException` message of `interpolate`'s time guard. */
  function InvalidState(startTime: int, endTime: int, traveledTime: int): Exception
  {
    Runtime("Invalid state: startTime " + Text.IntToString(startTime) + ", endTime " + Text.IntToString(endTime)
      + ", traveledTime " + Text.IntToString(traveledTime))
  }

  /**
   * `interpolate(time)` once both ends are known: the new cached value and
   * whether it threw. The guard throws when the time travelled since
   * `previous` exceeds the whole travel time (both `Long` subtractions).
   * COAST lerps the position from `previous` towards `next` (the position is
   * reset to the start even when the lerp then divides by zero), BALLISTIC
   * takes the position and velocity of `ballistic`, BRACHISTOCHRONE changes
   * nothing, and no approach at all throws.
   */
  function InterpolateStep(prev: Timed, next: Timed, cached: Timed, approach: Option<Approach>,
                           ballisticReady: bool, time: int, ballistic: Movement): (Timed, Outcome)
  {
    var travelTime := JavaMath.Wrap64(next.time - prev.time);
    var traveledTime := JavaMath.Wrap64(time - prev.time);
    if traveledTime > travelTime then (cached, Fail(InvalidState(prev.time, next.time, traveledTime)))
    else match approach
      case None => (cached, Fail(Runtime("Unknown approach type: null")))
      case Some(Coast) =>
        var p := LongVectors.Lerped(prev.value.position, next.value.position, traveledTime, travelTime);
        if p.Err? then (cached.(value := cached.value.(position := prev.value.position)), Fail(p.error))
        else (cached.(value := cached.value.(position := p.value)), Pass)
      case Some(Ballistic) =>
        if !ballisticReady then (cached, Fail(NullPointer))
        else (cached.(value := cached.value.(position := ballistic.position, velocity := ballistic.velocity)), Pass)
      case Some(Brachistochrone) => (cached, Pass)
  }

  /**
   * Between two known values at non-negative `Long` times, a COAST
   * interpolation succeeds, keeps the cached velocity and acceleration, and
   * puts the position in the box spanned by the two end positions.
   */
  lemma CoastBetween(prev: Timed, next: Timed, cached: Timed, time: int, ballistic: Movement)
    requires 0 <= prev.time < time < next.time <= JavaMath.LONG_MAX
    requires LongVectors.IsLongVec(prev.value.position) && LongVectors.IsLongVec(next.value.position)
    ensures var (v, o) := InterpolateStep(prev, next, cached, Some(Coast), false, time, ballistic);
      var a, b := prev.value.position, next.value.position;
      o == Pass && v.time == cached.time
      && v.value.velocity == cached.value.velocity && v.value.acceleration == cached.value.acceleration
      && JavaMath.Min(a.x, b.x) <= v.value.position.x <= JavaMath.Max(a.x, b.x)
      && JavaMath.Min(a.y, b.y) <= v.value.position.y <= JavaMath.Max(a.y, b.y)
  {
    JavaMath.Wrap64Identity(next.time - prev.time);
    JavaMath.Wrap64Identity(time - prev.time);
    LongVectors.LerpBetween(prev.value.position, next.value.position, time - prev.time, next.time - prev.time);
  }

  /** Between two known values at non-negative `Long` times the time guard never throws. */
  lemma GuardHolds(prev: Timed, next: Timed, cached: Timed, approach: Approach, time: int, ballistic: Movement)
    requires 0 <= prev.time < time < next.time <= JavaMath.LONG_MAX
    requires approach != Ballistic
    ensures InterpolateStep(prev, next, cached, Some(approach), false, time, ballistic).1 == Pass
  {
    JavaMath.Wrap64Identity(next.time - prev.time);
    JavaMath.Wrap64Identity(time - prev.time);
  }

  /**
   * `TimedMovementComponent` with the `InterpolatedComponent` logic it
   * inherits. The timed values are held by value: the source mutates them in
   * place, which gives the same contents.
   */
  class TimedMovement {
    var previous: Timed
    var interpolated: Option<Timed>
    var next: Option<Timed>
    var approach: Option<Approach>
    var startAcceleration: Option<int>
    var finalAcceleration: Option<int>
    var aimTarget: Option<Vec>

    /**
     * A prediction always lies strictly after the known value, and a
     * prediction brings a cached value and an approach with it; a BALLISTIC
     * approach has its accelerations and aim.
     */
    ghost predicate Valid()
      reads this
    {
      (next.Some? ==> next.value.time > previous.time && interpolated.Some? && approach.Some?)
      && (approach == Some(Ballistic) ==> BallisticReady())
    }

    predicate BallisticReady()
      reads this
    {
      startAcceleration.Some? && finalAcceleration.Some? && aimTarget.Some?
    }

    /** Every known time is a non-negative `Long`. */
    predicate TimesFit()
      reads this
    {
      0 <= previous.time && (next.Some? ==> next.value.time <= JavaMath.LONG_MAX)
    }

    /** `TimedMovementComponent()`: standing still at time 0, nothing predicted. */
    constructor ()
      ensures Valid() && previous == Timed(Still, 0)
      ensures interpolated.None? && next.None? && approach.None?
      ensures startAcceleration.None? && finalAcceleration.None? && aimTarget.None?
    {
      previous := Timed(Still, 0);
      interpolated, next, approach := None, None, None;
      startAcceleration, finalAcceleration, aimTarget := None, None, None;
    }

    /**
     * `set(value, time)` and both `set(...)` overloads of the movement
     * component: an older time is ignored; otherwise a prediction that is
     * not later than `time` is dropped and `previous` becomes the new value.
     */
    method Set(value: Movement, time: int)
      requires Valid()
      modifies this
      ensures Valid()
      ensures old(previous.time) > time ==> previous == old(previous) && next == old(next)
      ensures old(previous.time) <= time ==> previous == Timed(value, time)
      ensures old(previous.time) <= time ==>
        next == if old(next).Some? && time >= old(next.value.time) then None else old(next)
      ensures interpolated == old(interpolated) && approach == old(approach)
      ensures startAcceleration == old(startAcceleration) && finalAcceleration == old(finalAcceleration)
      ensures aimTarget == old(aimTarget)
    {
      if previous.time > time {
        return;
      }
      if next.Some? && time >= next.value.time {
        next := None;
      }
      previous := Timed(value, time);
    }

    /**
     * `InterpolatedComponent.setPrediction`: a time not after `previous`
     * drops the prediction and is refused; otherwise the prediction becomes
     * `(value, time)`.
     */
    method Predict(value: Movement, time: int) returns (accepted: bool)
      modifies this
      ensures accepted <==> old(previous.time) < time
      ensures next == if accepted then Some(Timed(value, time)) else None
      ensures previous == old(previous) && interpolated == old(interpolated) && approach == old(approach)
      ensures startAcceleration == old(startAcceleration) && finalAcceleration == old(finalAcceleration)
      ensures aimTarget == old(aimTarget)
    {
      if previous.time >= time {
        next := None;
        return false;
      }
      next := Some(Timed(value, time));
      return true;
    }

    /** `setPrediction` and `setPredictionCoast`: an accepted prediction coasts towards it, aiming at `aim`. */
    method SetPredictionCoast(value: Movement, aim: Option<Vec>, time: int) returns (accepted: bool)
      requires Valid()
      modifies this
      ensures Valid()
      ensures accepted <==> old(previous.time) < time
      ensures next == if accepted then Some(Timed(value, time)) else None
      ensures previous == old(previous)
      ensures accepted ==> (approach == Some(Coast) && aimTarget == aim
        && startAcceleration.None? && finalAcceleration.None?)
      ensures accepted ==> (interpolated ==
        if old(interpolated).None? then Some(Timed(Movement(Zero, value.velocity, Zero), -1)) else old(interpolated))
      ensures !accepted ==> (interpolated == old(interpolated) && approach == old(approach)
        && startAcceleration == old(startAcceleration) && finalAcceleration == old(finalAcceleration)
        && aimTarget == old(aimTarget))
    {
      accepted := Predict(value, time);
      if accepted {
        approach, startAcceleration, finalAcceleration, aimTarget := Some(Coast), None, None, aim;
        if interpolated.None? {
          interpolated := Some(Timed(Movement(Zero, value.velocity, Zero), -1));
        }
      }
    }

    /**
     * `setPredictionBrachistocrone` (with `finalAcceleration` the truncated
     * length of the predicted acceleration) and `setPredictionBallistic`
     * (with `aim` present; `aimed` is the rotated average acceleration it
     * stores in the cached value).
     */
    method SetPredictionAccelerating(value: Movement, kind: Approach, aim: Option<Vec>, start: int, final: int,
                                     aimed: Vec, time: int) returns (accepted: bool)
      requires Valid() && kind != Coast && (kind == Ballistic ==> aim.Some?)
      modifies this
      ensures Valid()
      ensures accepted <==> old(previous.time) < time
      ensures next == if accepted then Some(Timed(value, time)) else None
      ensures previous == old(previous)
      ensures accepted ==> (approach == Some(kind) && aimTarget == aim
        && startAcceleration == Some(start) && finalAcceleration == Some(final))
      ensures accepted ==> (interpolated.Some? &&
        var base := if old(interpolated).None? then Timed(Still, -1) else old(interpolated.value);
        interpolated.value == if kind == Ballistic then base.(value := base.value.(acceleration := aimed)) else base)
      ensures !accepted ==> (interpolated == old(interpolated) && approach == old(approach)
        && startAcceleration == old(startAcceleration) && finalAcceleration == old(finalAcceleration)
        && aimTarget == old(aimTarget))
    {
      accepted := Predict(value, time);
      if accepted {
        approach, startAcceleration, finalAcceleration, aimTarget := Some(kind), Some(start), Some(final), aim;
        if interpolated.None? {
          interpolated := Some(Timed(Still, -1));
        }
        if kind == Ballistic {
          var c := interpolated.value;
          interpolated := Some(c.(value := c.value.(acceleration := aimed)));
        }
      }
    }

    /** `reset()`: standing still at time 0 (the cached value too, if any) and nothing predicted. */
    method Reset()
      requires Valid()
      modifies this
      ensures Valid() && previous == Timed(Still, 0) && next.None?
      ensures interpolated == if old(interpolated).None? then None else Some(Timed(Still, 0))
      ensures approach == old(approach) && aimTarget == old(aimTarget)
      ensures startAcceleration == old(startAcceleration) && finalAcceleration == old(finalAcceleration)
    {
      previous := Timed(Still, 0);
      if interpolated.Some? {
        interpolated := Some(Timed(Still, 0));
      }
      next := None;
    }

    /** `interpolate(time)`: a missing cache or prediction is a null dereference; otherwise one `InterpolateStep`. */
    method Interpolate(time: int, ballistic: Movement) returns (o: Outcome)
      modifies this
      ensures old(interpolated).None? || old(next).None? ==> o == Fail(NullPointer) && interpolated == old(interpolated)
      ensures old(interpolated).Some? && old(next).Some? ==>
        var step := InterpolateStep(old(previous), old(next.value), old(interpolated.value), old(approach),
                                    old(BallisticReady()), time, ballistic);
        interpolated == Some(step.0) && o == step.1
      ensures previous == old(previous) && next == old(next) && approach == old(approach)
      ensures startAcceleration == old(startAcceleration) && finalAcceleration == old(finalAcceleration)
      ensures aimTarget == old(aimTarget)
    {
      if interpolated.None? || next.None? {
        return Fail(NullPointer);
      }
      var step := InterpolateStep(previous, next.value, interpolated.value, approach, BallisticReady(), time, ballistic);
      interpolated := Some(step.0);
      o := step.1;
    }

    /**
     * `get(time)`: `previous` up to its time or when nothing is predicted,
     * the prediction from its time on, and in between the cached value,
     * interpolated afresh and stamped with `time` unless it already has that
     * stamp.
     */
    method Get(time: int, ballistic: Movement) returns (r: Result<Timed>)
      requires Valid()
      modifies this
      ensures Valid()
      ensures previous == old(previous) && next == old(next) && approach == old(approach)
      ensures startAcceleration == old(startAcceleration) && finalAcceleration == old(finalAcceleration)
      ensures aimTarget == old(aimTarget)
      ensures time <= previous.time || next.None? ==> r == Ok(previous) && interpolated == old(interpolated)
      ensures next.Some? && previous.time < time && next.value.time <= time ==>
        r == Ok(next.value) && interpolated == old(interpolated)
      ensures next.Some? && previous.time < time < next.value.time && old(interpolated.value.time) == time ==>
        r == Ok(old(interpolated.value)) && interpolated == old(interpolated)
      ensures next.Some? && previous.time < time < next.value.time && old(interpolated.value.time) != time ==>
        var step := InterpolateStep(previous, next.value, old(interpolated.value), approach, BallisticReady(), time, ballistic);
        if step.1.Pass? then r == Ok(step.0.(time := time)) && interpolated == Some(step.0.(time := time))
        else r == Err(step.1.error) && interpolated == Some(step.0)
      ensures r.Ok? ==> r.value.time == if time <= previous.time || next.None? then previous.time
        else if time >= next.value.time then next.value.time else time
      ensures TimesFit() && approach != Some(Ballistic) ==> r.Ok?
    {
      if time <= previous.time || next.None? {
        return Ok(previous);
      }
      if time >= next.value.time {
        return Ok(next.value);
      }
      if interpolated.value.time != time {
        if TimesFit() && approach != Some(Ballistic) {
          GuardHolds(previous, next.value, interpolated.value, approach.value, time, ballistic);
        }
        var o := Interpolate(time, ballistic);
        if o.Fail? {
          return Err(o.error);
        }
        interpolated := Some(interpolated.value.(time := time));
      }
      return Ok(interpolated.value);
    }
  }

  /** A value just set is what `get` returns at its time. */
  method SetThenGet(c: TimedMovement, value: Movement, time: int, ballistic: Movement) returns (r: Result<Timed>)
    requires c.Valid() && c.previous.time <= time
    modifies c
    ensures r == Ok(Timed(value, time))
  {
    c.Set(value, time);
    r := c.Get(time, ballistic);
  }

  /** An accepted prediction is what `get` returns at its time. */
  method PredictThenGet(c: TimedMovement, value: Movement, time: int, ballistic: Movement) returns (r: Result<Timed>)
    requires c.Valid() && c.previous.time < time
    modifies c
    ensures r == Ok(Timed(value, time))
  {
    var accepted := c.SetPredictionCoast(value, None, time);
    r := c.Get(time, ballistic);
  }
}
