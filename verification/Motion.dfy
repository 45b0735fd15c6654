/** Velocity commands and the clamped, axis-swapped twist the robot is sent (src/motion.rs). */
module Motion {
  import opened Base

  /** A 64-bit float, with every NaN and infinity collapsed into one value. */
  datatype Number = Finite(r: real) | NonFinite

  datatype Velocity = Velocity(forward: Number, lateral: Number, yaw: Number)

  datatype Limits = Limits(forward: Number, lateral: Number, yaw: Number)

  const DEFAULT_LIMITS := Limits(Finite(0.47), Finite(0.2), Finite(2.9))

  datatype Twist = Twist(
    linearX: real, linearY: real, linearZ: real, angularX: real, angularY: real, angularZ: real)

  const ZERO := Twist(0.0, 0.0, 0.0, 0.0, 0.0, 0.0)

  datatype Axis = Forward | Lateral | Yaw

  datatype MotionError = NotFinite(axis: Axis) | LimitNotFinite(axis: Axis) | NonPositiveLimit(axis: Axis)

  function Clamp(x: real, low: real, high: real): real
    requires low <= high
  {
    if x < low then low else if x > high then high else x
  }

  function ValidateFinite(axis: Axis, value: Number): Result<real, MotionError> {
    if value.Finite? then Success(value.r) else Failure(NotFinite(axis))
  }

  function ValidateLimit(axis: Axis, value: Number): Result<real, MotionError> {
    if value.NonFinite? then Failure(LimitNotFinite(axis))
    else if value.r > 0.0 then Success(value.r)
    else Failure(NonPositiveLimit(axis))
  }

  function ToScoutTwist(v: Velocity, limits: Limits): Result<Twist, MotionError> {
    var forward :- ValidateFinite(Forward, v.forward);
    var lateral :- ValidateFinite(Lateral, v.lateral);
    var yaw :- ValidateFinite(Yaw, v.yaw);
    var maxForward :- ValidateLimit(Forward, limits.forward);
    var maxLateral :- ValidateLimit(Lateral, limits.lateral);
    var maxYaw :- ValidateLimit(Yaw, limits.yaw);
    Success(ZERO.(
      linearX := -Clamp(lateral, -maxLateral, maxLateral),
      linearY := Clamp(forward, -maxForward, maxForward),
      angularZ := Clamp(yaw, -maxYaw, maxYaw)))
  }

  /** The motion a twist asks of the robot, on the standard axes: Scout `linear.y` is forward
      and Scout `linear.x` points right. */
  function Applied(t: Twist): (real, real, real) {
    (t.linearY, -t.linearX, t.angularZ)
  }

  ghost predicate WithinLimits(v: (real, real, real), limits: Limits)
    requires limits.forward.Finite? && limits.lateral.Finite? && limits.yaw.Finite?
  {
    && -limits.forward.r <= v.0 <= limits.forward.r
    && -limits.lateral.r <= v.1 <= limits.lateral.r
    && -limits.yaw.r <= v.2 <= limits.yaw.r
  }

  function Distance(a: real, b: real): real {
    if a <= b then b - a else a - b
  }

  /** The mapping succeeds exactly on finite velocities, and what the robot then does is, axis by
      axis, the point within the limits that lies closest to the request; no other axis moves. */
  lemma ToScoutTwistIsNearest(v: Velocity)
    ensures ToScoutTwist(v, DEFAULT_LIMITS).Success?
            <==> v.forward.Finite? && v.lateral.Finite? && v.yaw.Finite?
    ensures ToScoutTwist(v, DEFAULT_LIMITS).Success? ==>
              var t := ToScoutTwist(v, DEFAULT_LIMITS).value;
              && t.linearZ == t.angularX == t.angularY == 0.0
              && Applied(t) == (t.linearY, -t.linearX, t.angularZ)
              && WithinLimits(Applied(t), DEFAULT_LIMITS)
              && forall p | WithinLimits(p, DEFAULT_LIMITS) ::
                   && Distance(Applied(t).0, v.forward.r) <= Distance(p.0, v.forward.r)
                   && Distance(Applied(t).1, v.lateral.r) <= Distance(p.1, v.lateral.r)
                   && Distance(Applied(t).2, v.yaw.r) <= Distance(p.2, v.yaw.r)
  {
  }

  /** A velocity within the limits, 0.47 and 0.2 m/s and 2.9 rad/s, reaches the robot unchanged:
      ahead is its `linear.y`, to the left its negative `linear.x`. */
  lemma ToScoutTwistKeepsSafeVelocity(forward: real, lateral: real, yaw: real)
    requires -0.47 <= forward <= 0.47 && -0.2 <= lateral <= 0.2 && -2.9 <= yaw <= 2.9
    ensures ToScoutTwist(Velocity(Finite(forward), Finite(lateral), Finite(yaw)), DEFAULT_LIMITS)
            == Success(Twist(-lateral, forward, 0.0, 0.0, 0.0, yaw))
    ensures Applied(Twist(-lateral, forward, 0.0, 0.0, 0.0, yaw)) == (forward, lateral, yaw)
  {
  }
}
