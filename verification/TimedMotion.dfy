/** Driving for a fixed time (src/main.rs, `next_motion_wait` and `send_velocity`). Sends are
    instantaneous. */
module TimedMotion {
  import opened Base
  import opened Motion

  /** How long to pause before the next send, if there is to be one. */
  function NextMotionWait(period: Time, now: Time, deadline: Time): (wait: Option<Time>)
    ensures wait.Some? <==> now < deadline
    ensures wait.Some? ==> wait.value <= period && now + wait.value <= deadline
    ensures wait.Some? && wait.value < period ==> now + wait.value == deadline
  {
    if now < deadline then Some(Min(period, deadline - now)) else None
  }

  datatype Sent = Sent(at: Time, twist: Twist)

  /** A pause lasts its length plus `drift`; the send before it may fail. */
  datatype Pause = Pause(drift: int, sendFails: bool)

  predicate NoneCutShort(pauses: seq<Pause>) {
    forall i | 0 <= i < |pauses| :: pauses[i].drift >= 0
  }

  predicate NoneOverruns(pauses: seq<Pause>) {
    forall i | 0 <= i < |pauses| :: pauses[i].drift <= 0
  }

  /** Every send is the command, the first at the start and the others before the deadline. */
  ghost predicate Driving(sent: seq<Sent>, command: Twist, start: Time, deadline: Time) {
    && (sent != [] ==> sent[0].at == start)
    && forall i | 0 <= i < |sent| :: sent[i].twist == command && start <= sent[i].at < deadline
  }

  /** Consecutive sends are at most a period apart. */
  ghost predicate Steady(sent: seq<Sent>, period: Time) {
    forall i | 0 < i < |sent| :: sent[i].at <= sent[i - 1].at + period
  }

  ghost predicate NoFailure(pauses: seq<Pause>, n: int)
    requires n <= |pauses|
  {
    forall k | 0 <= k < n :: !pauses[k].sendFails
  }

  lemma FirstNoFailure(pauses: seq<Pause>)
    ensures NoFailure(pauses, 0)
  {
  }

  lemma NoFailureStep(pauses: seq<Pause>, n: nat)
    requires n <= |pauses| && NoFailure(pauses, n)
    ensures n < |pauses| && !pauses[n].sendFails ==> NoFailure(pauses, n + 1)
    ensures NoFailure(pauses, n - 1)
  {
  }

  /** Driving goes on for `n` sends until the time is up at `now`, a send fails or it is interrupted,
      and not after any of these. */
  ghost predicate Stopped(n: nat, now: Time, pauses: seq<Pause>, deadline: Time) {
    && n <= |pauses|
    && NoFailure(pauses, n - 1)
    && (now >= deadline || n == |pauses| || (n > 0 && pauses[n - 1].sendFails))
  }

  lemma DriftAt(pauses: seq<Pause>, i: nat)
    requires i < |pauses|
    ensures NoneCutShort(pauses) ==> pauses[i].drift >= 0
    ensures NoneOverruns(pauses) ==> pauses[i].drift <= 0
  {
  }

  function Times(n: int, period: Time): int {
    n * period
  }

  lemma TimesStep(n: int, period: Time)
    ensures Times(n + 1, period) == Times(n, period) + period
    ensures Times(0, period) == 0
  {
  }

  /** What holds at `now`, after some sends of a command. */
  ghost predicate Sending(
      pauses: seq<Pause>, sent: seq<Sent>, now: Time, command: Twist, start: Time, deadline: Time, period: Time)
  {
    && Driving(sent, command, start, deadline)
    && start <= now && start < deadline && (sent == [] ==> now == start)
    && (NoneCutShort(pauses) ==> Times(|sent| - 1, period) < deadline - start)
    && (NoneOverruns(pauses) ==>
          && Steady(sent, period) && now <= deadline
          && (sent != [] ==> now <= sent[|sent| - 1].at + period))
  }

  /** Another send is not too early, if there is to be one. */
  ghost predicate Due(pauses: seq<Pause>, n: nat, now: Time, start: Time, deadline: Time, period: Time) {
    NoneCutShort(pauses) && now < deadline ==> Times(n, period) <= now - start
  }

  lemma SendingStarts(pauses: seq<Pause>, command: Twist, start: Time, deadline: Time, period: Time)
    requires start < deadline && period > 0
    ensures Sending(pauses, [], start, command, start, deadline, period)
    ensures Due(pauses, 0, start, start, deadline, period)
  {
    TimesStep(-1, period);
    TimesStep(0, period);
    hide Times, NoneCutShort, NoneOverruns;
  }

  lemma DrivingSend(sent: seq<Sent>, command: Twist, start: Time, deadline: Time, now: Time)
    requires Driving(sent, command, start, deadline) && start <= now < deadline && (sent == [] ==> now == start)
    ensures Driving(sent + [Sent(now, command)], command, start, deadline)
  {
  }

  lemma SteadySend(sent: seq<Sent>, next: Sent, period: Time)
    requires Steady(sent, period) && (sent != [] ==> next.at <= sent[|sent| - 1].at + period)
    ensures Steady(sent + [next], period)
  {
  }

  lemma SendOnce(
      pauses: seq<Pause>, sent: seq<Sent>, now: Time, command: Twist, start: Time, deadline: Time, period: Time)
    requires Sending(pauses, sent, now, command, start, deadline, period)
    requires Due(pauses, |sent|, now, start, deadline, period) && now < deadline
    ensures Sending(pauses, sent + [Sent(now, command)], now, command, start, deadline, period)
  {
    DrivingSend(sent, command, start, deadline, now);
    hide Times, NoneCutShort, NoneOverruns, Driving;
    if NoneOverruns(pauses) {
      SteadySend(sent, Sent(now, command), period);
    }
    hide Steady;
  }

  /** A pause that starts right after a send. */
  lemma PauseOnce(
      pauses: seq<Pause>, i: nat, sent: seq<Sent>, now: Time, command: Twist, start: Time, deadline: Time, period: Time)
    requires i < |pauses| && sent != [] && sent[|sent| - 1].at == now < deadline
    requires Sending(pauses, sent, now, command, start, deadline, period)
    requires Due(pauses, |sent| - 1, now, start, deadline, period)
    ensures var later := now + Max(0, NextMotionWait(period, now, deadline).value + pauses[i].drift);
            && Sending(pauses, sent, later, command, start, deadline, period)
            && Due(pauses, |sent|, later, start, deadline, period)
  {
    DriftAt(pauses, i);
    TimesStep(|sent| - 1, period);
    hide Times, Steady, Driving, NoneCutShort, NoneOverruns;
  }

  /** What is kept to when the stop is sent. */
  ghost predicate Paced(pauses: seq<Pause>, sent: seq<Sent>, command: Twist, start: Time, deadline: Time, period: Time)
    requires sent != []
  {
    var last := |sent| - 1;
    && sent[last].twist == ZERO
    && (last == 0 ==> sent[0].at == start)
    && Driving(sent[..last], command, start, deadline)
    && (NoneCutShort(pauses) ==> Times(last - 1, period) < deadline - start)
    && (NoneOverruns(pauses) ==> Steady(sent, period) && sent[last].at <= deadline)
  }

  lemma StopOnce(
      pauses: seq<Pause>, sent: seq<Sent>, now: Time, command: Twist, start: Time, deadline: Time, period: Time)
    requires Sending(pauses, sent, now, command, start, deadline, period)
    ensures Paced(pauses, sent + [Sent(now, ZERO)], command, start, deadline, period)
  {
    hide Times, Driving, NoneCutShort, NoneOverruns;
    if NoneOverruns(pauses) {
      SteadySend(sent, Sent(now, ZERO), period);
    }
    hide Steady;
    assert (sent + [Sent(now, ZERO)])[..|sent|] == sent;
  }

  /** Drives for `duration`, or until interrupted once the given pauses are over. The last send
      attempted is always zero and every other one is the command, the first at once and all before
      the deadline. If no pause is cut short, the n sends of the command fit in the duration with
      (n - 1) * period < duration, so n is at most ceil(duration / period); if none overruns, sends
      are never more than a period apart and the stop is sent by the deadline. */
  method SendVelocity(command: Twist, start: Time, duration: Time, period: Time, pauses: seq<Pause>)
    returns (sent: seq<Sent>)
    requires 0 < duration && 0 < period
    ensures |sent| > 0 && Paced(pauses, sent, command, start, start + duration, period)
    ensures Stopped(|sent| - 1, sent[|sent| - 1].at, pauses, start + duration)
  {
    hide Sending, Due, Paced, NoFailure;
    var now: Time, deadline: Time := start, start + duration;
    sent := [];
    var i := 0;
    SendingStarts(pauses, command, start, deadline, period);
    FirstNoFailure(pauses);
    while i < |pauses| && now < deadline
      invariant |sent| == i <= |pauses| && NoFailure(pauses, i)
      invariant Sending(pauses, sent, now, command, start, deadline, period)
      invariant Due(pauses, i, now, start, deadline, period)
    {
      SendOnce(pauses, sent, now, command, start, deadline, period);
      NoFailureStep(pauses, i);
      sent := sent + [Sent(now, command)];
      if pauses[i].sendFails {
        break;
      }
      PauseOnce(pauses, i, sent, now, command, start, deadline, period);
      now := now + Max(0, NextMotionWait(period, now, deadline).value + pauses[i].drift);
      i := i + 1;
    }
    NoFailureStep(pauses, i);
    StopOnce(pauses, sent, now, command, start, deadline, period);
    sent := sent + [Sent(now, ZERO)];
  }
}
