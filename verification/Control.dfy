/** The motion state shared under a mutex, and the requests that change it
    (src/integration_bridge.rs). Each method is one critical section. */
module Control {
  import opened Base
  import opened Motion

  /** The command in force and the instant it expires. */
  datatype MotionState = MotionState(command: Twist, deadline: Option<Time>)

  const IDLE := MotionState(ZERO, None)

  /** Whether the stored command may still be used at `now`. */
  predicate Live(m: MotionState, now: Time) {
    m.deadline.Some? && m.deadline.value > now
  }

  /** What a look at `now` finds ... */
  function Found(m: MotionState, now: Time): Twist {
    if Live(m, now) then m.command else ZERO
  }

  /** ... and leaves behind. */
  function Looked(m: MotionState, now: Time): MotionState {
    if Live(m, now) then m else IDLE
  }

  datatype Request = VelocityRequest(velocity: Velocity, timeoutMs: nat) | StopRequest | PingRequest

  datatype Response =
    | VelocityApplied(applied: (real, real, real), timeoutMs: nat)
    | StopDone
    | Pong
    | BadTimeout(maximum: Time)
    | BadVelocity(error: MotionError)

  /** The clamped command a request would arm, with how long it may be used; none for a request
      that arms nothing. */
  function Arms(request: Request, maximum: Time): Option<(Twist, Time)> {
    if request.VelocityRequest?
       && 0 < request.timeoutMs
       && request.timeoutMs * MILLISECOND <= maximum
       && ToScoutTwist(request.velocity, DEFAULT_LIMITS).Success?
    then
      Some((ToScoutTwist(request.velocity, DEFAULT_LIMITS).value, request.timeoutMs * MILLISECOND))
    else
      None
  }

  /** The motion state one request leaves behind when its critical section runs at `now`. */
  function Updated(request: Request, m: MotionState, now: Time, maximum: Time): MotionState {
    if request.StopRequest? then IDLE
    else match Arms(request, maximum)
      case Some((command, timeout)) => MotionState(command, Some(now + timeout))
      case None => m
  }

  /** The answer to a request depends on the request alone. */
  function Answer(request: Request, maximum: Time): Response {
    match request
    case StopRequest => StopDone
    case PingRequest => Pong
    case VelocityRequest(velocity, timeoutMs) =>
      if timeoutMs == 0 || timeoutMs * MILLISECOND > maximum then BadTimeout(maximum)
      else match ToScoutTwist(velocity, DEFAULT_LIMITS)
        case Success(command) => VelocityApplied(Applied(command), timeoutMs)
        case Failure(error) => BadVelocity(error)
  }

  /** The state behind the mutex. */
  class MotionCell {
    var command: Twist
    var deadline: Option<Time>

    function State(): MotionState
      reads this
    {
      MotionState(command, deadline)
    }

    constructor ()
      ensures State() == IDLE
    {
      command, deadline := ZERO, None;
    }

    method Stop()
      modifies this
      ensures State() == IDLE
    {
      command := ZERO;
      deadline := None;
    }

    /** An expired command is erased when it is looked at. */
    method Current(now: Time) returns (twist: Twist)
      modifies this
      ensures twist == Found(old(State()), now)
      ensures State() == Looked(old(State()), now)
    {
      if deadline.Some? && deadline.value > now {
        twist := command;
      } else {
        Stop();
        twist := ZERO;
      }
    }

    /** `now` is the clock as read while the lock is held. */
    method HandleRequest(request: Request, maximum: Time, now: Time) returns (response: Response)
      modifies this
      ensures State() == Updated(request, old(State()), now, maximum)
      ensures response == Answer(request, maximum)
    {
      match request {
        case VelocityRequest(velocity, timeoutMs) =>
          if timeoutMs == 0 || timeoutMs * MILLISECOND > maximum {
            return BadTimeout(maximum);
          }
          var converted := ToScoutTwist(velocity, DEFAULT_LIMITS);
          if converted.Failure? {
            return BadVelocity(converted.error);
          }
          var applied := Applied(converted.value);
          command := converted.value;
          deadline := Some(now + timeoutMs * MILLISECOND);
          response := VelocityApplied(applied, timeoutMs);
        case StopRequest =>
          Stop();
          response := StopDone;
        case PingRequest =>
          response := Pong;
      }
    }
  }

  /** Which answer a request gets: `pong` answers a ping and nothing else, and of the velocities those
      with a timeout of nothing or over the maximum are refused first, then those that are not finite,
      by their first such axis. */
  lemma AnswersExactly(request: Request, maximum: Time)
    ensures Answer(request, maximum) == Pong <==> request.PingRequest?
    ensures Answer(request, maximum) == StopDone <==> request.StopRequest?
    ensures request.VelocityRequest? ==>
              var timely := 0 < request.timeoutMs && request.timeoutMs * 1_000_000 <= maximum;
              var v := request.velocity;
              && (!timely <==> Answer(request, maximum) == BadTimeout(maximum))
              && (timely && v.forward.NonFinite? <==> Answer(request, maximum) == BadVelocity(NotFinite(Forward)))
              && (timely && v.forward.Finite? && v.lateral.NonFinite?
                  <==> Answer(request, maximum) == BadVelocity(NotFinite(Lateral)))
              && (timely && v.forward.Finite? && v.lateral.Finite? && v.yaw.NonFinite?
                  <==> Answer(request, maximum) == BadVelocity(NotFinite(Yaw)))
              && (timely && v.forward.Finite? && v.lateral.Finite? && v.yaw.Finite?
                  <==> Answer(request, maximum).VelocityApplied?)
  {
  }

  /** A request is answered with an applied velocity exactly when it arms motion, and then the
      answer names the motion armed: the clamped velocity, in force from now for the timeout given,
      which is no longer than the maximum. */
  lemma AnswerNamesArmedMotion(request: Request, m: MotionState, now: Time, maximum: Time)
    ensures Answer(request, maximum).VelocityApplied? <==> Arms(request, maximum).Some?
    ensures Arms(request, maximum).Some? ==>
              var m' := Updated(request, m, now, maximum);
              && Answer(request, maximum) == VelocityApplied(Applied(m'.command), request.timeoutMs)
              && ToScoutTwist(request.velocity, DEFAULT_LIMITS) == Success(m'.command)
              && m'.deadline == Some(now + request.timeoutMs * 1_000_000)
              && Live(m', now)
              && !Live(m', now + maximum)
  {
    if request.VelocityRequest? {
      var converted := ToScoutTwist(request.velocity, DEFAULT_LIMITS);
      assert converted.Success? || converted.Failure?;
    }
  }

  /** Every other answer except that to `stop` leaves the motion as it was. */
  lemma RefusalsKeepMotion(request: Request, m: MotionState, now: Time, maximum: Time)
    requires !Answer(request, maximum).VelocityApplied? && !Answer(request, maximum).StopDone?
    ensures Updated(request, m, now, maximum) == m
  {
    AnswerNamesArmedMotion(request, m, now, maximum);
  }
}
