/** What holds in every interleaving of the bridge (src/integration_bridge.rs, src/main.rs). */
module BridgeTheorems {
  import opened Base
  import opened Motion
  import opened Control
  import opened Bridge

  /** The state after a legal run from start-up satisfies the invariant. */
  lemma Reached(c: Config, run: seq<Step>)
    requires Legal(c, INITIAL, run)
    ensures Inv(c, After(c, INITIAL, run))
  {
    RunKeepsInv(c, INITIAL, run);
  }

  // ----- Ownership -----

  /** In every interleaving at most one control worker is unfinished, and motion has a deadline only
      if that worker armed it and has not yet run its final stop. */
  lemma OneOwner(c: Config, run: seq<Step>)
    requires Legal(c, INITIAL, run)
    ensures var s := After(c, INITIAL, run);
            && (forall i, j | 0 <= i < |s.workers| && 0 <= j < |s.workers|
                              && !s.workers[i].Finished? && !s.workers[j].Finished? :: i == j)
            && (s.motion.deadline.Some? ==>
                  && Pending(s.history).Some?
                  && var i := Pending(s.history).value.worker;
                     s.owner == Some(i) && i < |s.workers| && Alive(s.workers[i]))
            && (s.motion.deadline.None? ==> s.motion == IDLE)
  {
    Reached(c, run);
  }

  /** While any worker is unfinished, nothing the listener does, a busy rejection included, changes
      the command, its deadline or the workers. */
  lemma RejectionKeepsMotion(c: Config, run: seq<Step>, client: bool)
    requires Legal(c, INITIAL, run)
    requires var s := After(c, INITIAL, run);
             && Enabled(s, ListenerStep(client))
             && exists i | 0 <= i < |s.workers| :: !s.workers[i].Finished?
    ensures var s := After(c, INITIAL, run);
            var s' := Apply(c, s, ListenerStep(client));
            s'.motion == s.motion && s'.workers == s.workers && s'.history == s.history
  {
    Reached(c, run);
    hide Legal, After, Faithful, Armed, Represents, Clocks, Phases;
  }

  /** A departing worker's final stop erases no command but its own, and when the listener hands
      over to a successor the motion is already idle. */
  lemma HandOverIsClean(c: Config, run: seq<Step>, id: nat)
    requires Legal(c, INITIAL, run)
    ensures var s := After(c, INITIAL, run);
            && (id < |s.workers| && s.workers[id].Leaving? && Pending(s.history).Some? ==>
                  Pending(s.history).value.worker == id)
            && (s.listener.Clearing? ==> s.motion == IDLE && Pending(s.history).None?)
            && (s.listener.Spawning? ==> s.motion == IDLE && forall w | w in s.workers :: w.Finished?)
  {
    Reached(c, run);
  }

  // ----- Publications -----

  /** `h` is the history as it stood at some earlier instant of `later`. */
  predicate Precedes(h: History, later: History) {
    h == later || (later.Then? && Precedes(h, later.earlier))
  }

  lemma {:induction false} FaithfulBefore(c: Config, h: History, later: History)
    requires Precedes(h, later) && Faithful(c, later)
    ensures Faithful(c, h)
  {
    if h != later {
      FaithfulBefore(c, h, later.earlier);
    }
  }

  lemma {:induction false} PendingIsAccepted(c: Config, h: History)
    requires Faithful(c, h) && Pending(h).Some?
    ensures var a := Pending(h).value;
            && 0 < a.timeout <= c.maximum
            && ToScoutTwist(a.request, DEFAULT_LIMITS) == Success(a.command)
  {
    if !h.latest.Accepted? {
      PendingIsAccepted(c, h.earlier);
    }
  }

  lemma {:induction false} LookIsFaithful(c: Config, h: History)
    requires Faithful(c, h) && Look(h).Some?
    ensures var (now, twist, before) := Look(h).value;
            && now == LastLook(h)
            && twist == Commanded(before, now)
            && Faithful(c, before)
  {
    if !h.latest.Sampled? {
      LookIsFaithful(c, h.earlier);
    }
  }

  /** The request behind a nonzero twist sent when the history was `h`: the latest look found it,
      it was the last velocity accepted and not since stopped, its clamped mapping is the twist, and
      the look was taken for an instant strictly before its permitted timeout ran out. */
  ghost predicate SentFresh(c: Config, h: History, twist: Twist) {
    && Look(h).Some?
    && var (now, found, before) := Look(h).value;
    && found == twist
    && Pending(before).Some?
    && var a := Pending(before).value;
    && ToScoutTwist(a.request, DEFAULT_LIMITS) == Success(twist)
    && now < a.at + a.timeout
    && 0 < a.timeout <= c.maximum
  }

  lemma FaithfulSendIsFresh(c: Config, h: History, twist: Twist, at: Time)
    requires Faithful(c, Then(h, Sent(twist, at)))
    ensures twist == ZERO || SentFresh(c, h, twist)
  {
    if twist != ZERO {
      LookIsFaithful(c, h);
      PendingIsAccepted(c, Look(h).value.2);
    }
  }

  /** Over every run, each twist published, whenever it was, is zero or fresh. */
  lemma EverySendIsFresh(c: Config, run: seq<Step>, h: History, twist: Twist, at: Time)
    requires Legal(c, INITIAL, run)
    requires Precedes(Then(h, Sent(twist, at)), After(c, INITIAL, run).history)
    ensures twist == ZERO || SentFresh(c, h, twist)
  {
    Reached(c, run);
    FaithfulBefore(c, Then(h, Sent(twist, at)), After(c, INITIAL, run).history);
    FaithfulSendIsFresh(c, h, twist, at);
  }

  /** The state erases an expired command when it is looked at; a state that erased nothing, and
      only compared instants, would answer every look the same, in both directions. */
  lemma LazyExpiryIsInvisible(c: Config, run: seq<Step>, h: History, now: Time, twist: Twist)
    requires Legal(c, INITIAL, run)
    requires Precedes(Then(h, Sampled(now, twist)), After(c, INITIAL, run).history)
    ensures twist == Commanded(h, now)
  {
    Reached(c, run);
    FaithfulBefore(c, Then(h, Sampled(now, twist)), After(c, INITIAL, run).history);
  }

  /** A look taken for an instant `now` that has since gone stale never erases a command accepted
      after `now`; whatever it does erase had expired by `now`. */
  lemma StaleLookKeepsNewerCommand(c: Config, run: seq<Step>, ok: bool)
    requires Legal(c, INITIAL, run) && After(c, INITIAL, run).main.Lock?
    ensures var s := After(c, INITIAL, run);
            var s' := Apply(c, s, MainStep(ok));
            && (Pending(s.history).Some? && s.main.now <= Pending(s.history).value.at ==>
                  s'.motion == s.motion && s'.main == Send(Pending(s.history).value.command))
            && (s'.motion != s.motion ==>
                  s.motion.deadline.Some? && s.motion.deadline.value <= s.main.now <= s.clock)
  {
    Reached(c, run);
    if Pending(After(c, INITIAL, run).history).Some? {
      PendingIsAccepted(c, After(c, INITIAL, run).history);
    }
  }

  // ----- Timing -----

  predicate InLoop(m: Main) {
    m.LoopTest? || m.ReadClock? || m.Lock? || m.Send? || m.Parked?
  }

  /** How late the publishing thread can be in each turn: by `delay` from reading the clock, over the
      lock and the send, to pausing, and by `overrun` over one period from there to the next reading. */
  datatype Slack = Slack(delay: Time, overrun: Time)

  /** The history at the moment of the last publication. */
  function LastSentFrom(h: History): History {
    match h
    case Empty => Empty
    case Then(earlier, Sent(_, _)) => earlier
    case Then(earlier, _) => LastSentFrom(earlier)
  }

  /** The instant of the last publication. */
  function SentAt(h: History): Time {
    match h
    case Empty => 0
    case Then(earlier, Sent(_, at)) => at
    case Then(earlier, _) => SentAt(earlier)
  }

  /** Until when the thread may stay where it is in the loop. */
  function Limit(c: Config, slack: Slack, s: State): Time {
    match s.main
    case Lock(now) => now + slack.delay
    case Send(_) => LastLook(s.history) + slack.delay
    case _ => SentAt(s.history) + c.period + slack.overrun
  }

  predicate Timely(c: Config, slack: Slack, s: State, step: Step) {
    step.Tick? && InLoop(s.main) ==> s.clock + step.elapsed <= Limit(c, slack, s)
  }

  predicate TimelyRun(c: Config, slack: Slack, s: State, run: seq<Step>)
    requires Legal(c, s, run)
    decreases |run|
  {
    run == [] || (Timely(c, slack, s, run[0]) && TimelyRun(c, slack, Apply(c, s, run[0]), run[1..]))
  }

  /** Where the clock stands against the last look and the last publication. */
  ghost predicate Recent(c: Config, slack: Slack, s: State) {
    InLoop(s.main) ==>
      && s.clock <= Limit(c, slack, s)
      && (LastSent(s.history) == Some(ZERO)
          || SentAt(s.history) <= LastLook(LastSentFrom(s.history)) + slack.delay)
      && (s.main.Lock? ==> s.main.now <= SentAt(s.history) + c.period + slack.overrun)
      && (s.main.Send? ==> LastLook(s.history) <= SentAt(s.history) + c.period + slack.overrun)
  }

  lemma MainKeepsRecent(c: Config, slack: Slack, s: State, ok: bool)
    requires Recent(c, slack, s) && !s.main.Done? && !s.main.Aborted?
    ensures Recent(c, slack, ApplyMain(s, ok))
  {
    hide Found, Looked;
  }

  /** The other threads touch neither the publishing thread nor what it has looked up and sent. */
  ghost predicate Aside(s: State, s': State) {
    && s'.main == s.main && s'.clock == s.clock
    && (s'.history == s.history || s'.history == Then(s.history, Stopped)
        || (s'.history.Then? && s'.history.earlier == s.history && s'.history.latest.Accepted?))
  }

  lemma AsideKeepsRecent(c: Config, slack: Slack, s: State, s': State)
    requires Recent(c, slack, s) && Aside(s, s')
    ensures Recent(c, slack, s')
  {
  }

  lemma WorkerIsAside(c: Config, s: State, id: nat, meets: Meets)
    requires id < |s.workers| && WorkerMeets(s.workers[id], meets)
    ensures Aside(s, ApplyWorker(c, s, id, meets))
  {
    hide Arms, Updated;
  }

  lemma ListenerIsAside(s: State, client: bool)
    requires !s.listener.Returned?
    ensures Aside(s, ApplyListener(s, client))
  {
  }

  lemma TickKeepsRecent(c: Config, slack: Slack, s: State, elapsed: Time)
    requires Recent(c, slack, s) && Timely(c, slack, s, Tick(elapsed))
    ensures Recent(c, slack, s.(clock := s.clock + elapsed))
  {
  }

  lemma StepKeepsRecent(c: Config, slack: Slack, s: State, step: Step)
    requires Recent(c, slack, s) && Enabled(s, step) && Timely(c, slack, s, step)
    ensures Recent(c, slack, Apply(c, s, step))
  {
    hide Recent, ApplyWorker, ApplyListener, ApplyMain, Timely;
    match step
    case Tick(elapsed) => TickKeepsRecent(c, slack, s, elapsed);
    case MainStep(ok) => MainKeepsRecent(c, slack, s, ok);
    case WorkerStep(id, meets) =>
      WorkerIsAside(c, s, id, meets);
      AsideKeepsRecent(c, slack, s, ApplyWorker(c, s, id, meets));
    case ListenerStep(client) =>
      ListenerIsAside(s, client);
      AsideKeepsRecent(c, slack, s, ApplyListener(s, client));
    case _ => AsideKeepsRecent(c, slack, s, Apply(c, s, step));
  }

  lemma {:induction false} RunKeepsRecent(c: Config, slack: Slack, s: State, run: seq<Step>)
    requires Inv(c, s) && Recent(c, slack, s) && Legal(c, s, run) && TimelyRun(c, slack, s, run)
    ensures Recent(c, slack, After(c, s, run)) && Inv(c, After(c, s, run))
    decreases |run|
  {
    if run != [] {
      StepKeepsRecent(c, slack, s, run[0]);
      StepKeepsInv(c, s, run[0]);
      RunKeepsRecent(c, slack, Apply(c, s, run[0]), run[1..]);
    }
  }

  lemma {:induction false} LastSentIsFresh(c: Config, h: History)
    requires Faithful(c, h) && LastSent(h).Some? && LastSent(h).value != ZERO
    ensures SentFresh(c, LastSentFrom(h), LastSent(h).value)
    ensures Look(LastSentFrom(h)).value.0 == LastLook(LastSentFrom(h))
  {
    if h.latest.Sent? {
      FaithfulSendIsFresh(c, h.earlier, h.latest.twist, h.latest.at);
      LookIsFaithful(c, h.earlier);
    } else {
      LastSentIsFresh(c, h.earlier);
    }
  }

  /** Unrefreshed motion is superseded within its timeout plus one publish period, and the slack of
      the turn that sent it and of the one that replaces it: at every instant of the loop, a nonzero
      twist in force was accepted less than that long ago. */
  lemma MotionIsSuperseded(c: Config, slack: Slack, run: seq<Step>)
    requires Legal(c, INITIAL, run) && TimelyRun(c, slack, INITIAL, run)
    ensures var s := After(c, INITIAL, run);
            InLoop(s.main) ==>
              && LastSent(s.history).Some?
              && (LastSent(s.history).value == ZERO
                  || (&& SentFresh(c, LastSentFrom(s.history), LastSent(s.history).value)
                      && var a := Pending(Look(LastSentFrom(s.history)).value.2).value;
                         s.clock < a.at + a.timeout + c.period + slack.overrun + 2 * slack.delay))
  {
    RunKeepsRecent(c, slack, INITIAL, run);
    var s := After(c, INITIAL, run);
    if InLoop(s.main) && LastSent(s.history).value != ZERO {
      LastSentIsFresh(c, s.history);
    }
  }

  // ----- Shutdown -----

  /** When `shutdown` returns both listeners and every control worker are gone, motion is zero with
      no deadline and nothing pending, and the last twist the bridge tried to publish is zero. */
  lemma ShutdownLeavesNothingMoving(c: Config, run: seq<Step>)
    requires Legal(c, INITIAL, run)
    ensures var s := After(c, INITIAL, run);
            && (s.main.Done? ==>
                  && s.listener.Returned? && s.camera.CameraReturned? && (forall w | w in s.workers :: w.Finished?)
                  && s.motion == IDLE && Pending(s.history).None?)
            && (s.main.Done? || s.main.Aborted? ==> LastSent(s.history) == Some(ZERO))
  {
    Reached(c, run);
  }

  lemma {:induction false} Extend(c: Config, s: State, run: seq<Step>, step: Step)
    requires Legal(c, s, run) && Enabled(After(c, s, run), step)
    ensures Legal(c, s, run + [step])
    ensures After(c, s, run + [step]) == Apply(c, After(c, s, run), step)
    decreases |run|
  {
    if run == [] {
      assert [step][1..] == [];
    } else {
      Extend(c, Apply(c, s, run[0]), run[1..], step);
      assert (run + [step])[1..] == run[1..] + [step];
    }
  }

  lemma Go(c: Config, run: seq<Step>, step: Step) returns (longer: seq<Step>)
    requires Legal(c, INITIAL, run) && Enabled(After(c, INITIAL, run), step)
    ensures Legal(c, INITIAL, longer)
    ensures After(c, INITIAL, longer) == Apply(c, After(c, INITIAL, run), step)
  {
    Extend(c, INITIAL, run, step);
    longer := run + [step];
  }

  lemma ClientArrives(c: Config) returns (run: seq<Step>)
    ensures Legal(c, INITIAL, run)
    ensures After(c, INITIAL, run) == INITIAL.(listener := Clearing)
  {
    run := [];
    assert After(c, INITIAL, []) == INITIAL;
    hide Legal, After;
    run := Go(c, run, ListenerStep(true));
    run := Go(c, run, ListenerStep(true));
    run := Go(c, run, ListenerStep(true));
  }

  lemma ClientAccepted(c: Config) returns (run: seq<Step>)
    ensures Legal(c, INITIAL, run)
    ensures After(c, INITIAL, run) == INITIAL.(
              workers := [Greeting], owner := Some(0), history := Then(Empty, Stopped))
  {
    run := ClientArrives(c);
    hide Legal, After;
    run := Go(c, run, ListenerStep(true));
    run := Go(c, run, ListenerStep(true));
  }

  /** A first client connects and sends one line, and the running flag is then seen down. */
  lemma LineBeforeShutdown(c: Config) returns (run: seq<Step>)
    ensures Legal(c, INITIAL, run)
    ensures After(c, INITIAL, run) == INITIAL.(
              workers := [Handling(1)], owner := Some(0), main := Leave,
              history := Then(Then(Empty, Stopped), Sent(ZERO, 0)))
  {
    run := ClientAccepted(c);
    hide Legal, After;
    run := Go(c, run, WorkerStep(0, Nothing));
    run := Go(c, run, WorkerStep(0, Nothing));
    run := Go(c, run, WorkerStep(0, Lines(1)));
    run := Go(c, run, MainStep(true));
    run := Go(c, run, MainStep(false));
  }

  /** A worker that has passed its check of the flag and may still handle a line. */
  predicate StillListening(s: State) {
    && s.owner.Some? && s.owner.value < |s.workers|
    && var w := s.workers[s.owner.value];
       w.Reading? || (w.Handling? && w.lines > 0)
  }

  predicate MayArm(c: Config, s: State) {
    c.maximum >= MILLISECOND && StillListening(s)
  }

  /** Motion can come about in some continuation. */
  ghost predicate CanStillMove(c: Config, s: State) {
    exists more :: Legal(c, s, more) && After(c, s, more).motion != IDLE
  }

  /** Past the flag, with nothing moving and nobody able to arm motion. */
  ghost predicate Settled(c: Config, s: State) {
    Inv(c, s) && !s.running && s.motion == IDLE && !MayArm(c, s)
  }

  lemma RequestKeepsIdle(c: Config, s: State, id: nat, request: Option<Request>)
    requires c.maximum < MILLISECOND && s.motion == IDLE
    ensures ApplyRequest(c, s, id, request).motion == IDLE
  {
    if request.Some? && request.value.VelocityRequest? {
      assert request.value.timeoutMs > 0 ==> request.value.timeoutMs * MILLISECOND > c.maximum;
    }
  }

  lemma RequestKeepsThreads(c: Config, s: State, id: nat, request: Option<Request>)
    ensures var s' := ApplyRequest(c, s, id, request);
            && s'.owner == s.owner && s'.workers == s.workers && s'.listener == s.listener
            && s'.camera == s.camera && s'.main == s.main && s'.running == s.running
  {
    hide Arms, Updated;
  }

  lemma WorkerKeepsSettled(c: Config, s: State, id: nat, meets: Meets)
    requires Settled(c, s) && id < |s.workers| && WorkerMeets(s.workers[id], meets)
    ensures var s' := ApplyWorker(c, s, id, meets);
            !s'.running && s'.motion == IDLE && !MayArm(c, s')
  {
    OwnerMoves(c, s, id, meets);
    var request := if meets.Line? then meets.request else None;
    RequestKeepsThreads(c, s, id, request);
    if c.maximum < MILLISECOND {
      RequestKeepsIdle(c, s, id, request);
    }
    hide Inv, ApplyRequest;
  }

  lemma ListenerKeepsSettled(c: Config, s: State, client: bool)
    requires Ownership(s) && !s.running && s.motion == IDLE && !MayArm(c, s) && !s.listener.Returned?
    ensures var s' := ApplyListener(s, client);
            !s'.running && s'.motion == IDLE && !MayArm(c, s')
  {
  }

  lemma MainKeepsSettled(c: Config, s: State, ok: bool)
    requires !s.running && s.motion == IDLE && !MayArm(c, s) && !s.main.Done? && !s.main.Aborted?
    ensures var s' := ApplyMain(s, ok);
            !s'.running && s'.motion == IDLE && !MayArm(c, s')
  {
  }

  lemma InvOwnership(c: Config, s: State)
    requires Inv(c, s)
    ensures Ownership(s)
  {
  }

  lemma StepKeepsSettled(c: Config, s: State, step: Step)
    requires Settled(c, s) && Enabled(s, step)
    ensures Settled(c, Apply(c, s, step))
  {
    StepKeepsInv(c, s, step);
    InvOwnership(c, s);
    hide Inv, Ownership, ApplyWorker, ApplyListener, ApplyMain;
    match step
    case WorkerStep(id, meets) => WorkerKeepsSettled(c, s, id, meets);
    case ListenerStep(client) => ListenerKeepsSettled(c, s, client);
    case MainStep(ok) => MainKeepsSettled(c, s, ok);
    case _ =>
  }

  lemma SettledIsIdle(c: Config, s: State)
    requires Settled(c, s)
    ensures s.motion == IDLE
  {
  }

  lemma {:induction false} RunKeepsSettled(c: Config, s: State, run: seq<Step>)
    requires Settled(c, s) && Legal(c, s, run)
    ensures After(c, s, run).motion == IDLE
    decreases |run|
  {
    hide Settled, Apply, Enabled;
    if run != [] {
      StepKeepsSettled(c, s, run[0]);
      RunKeepsSettled(c, Apply(c, s, run[0]), run[1..]);
    } else {
      SettledIsIdle(c, s);
    }
  }

  /** A request for a little forward motion, for one millisecond. */
  function Nudge(): Request {
    VelocityRequest(Velocity(Finite(0.1), Finite(0.0), Finite(0.0)), 1)
  }

  lemma NudgeArms(c: Config, s: State)
    requires c.maximum >= MILLISECOND
    requires s.owner.Some? && s.owner.value < |s.workers| && !s.main.Aborted?
    requires var w := s.workers[s.owner.value]; w.Handling? && w.lines > 0
    ensures var step := WorkerStep(s.owner.value, Line(Some(Nudge()), true));
            Enabled(s, step) && Apply(c, s, step).motion != IDLE
  {
    assert Arms(Nudge(), c.maximum).Some?;
  }

  lemma OneStep(c: Config, s: State, step: Step)
    requires Enabled(s, step)
    ensures Legal(c, s, [step]) && After(c, s, [step]) == Apply(c, s, step)
  {
    assert [step][1..] == [];
  }

  lemma TwoSteps(c: Config, s: State, first: Step, second: Step)
    requires Enabled(s, first) && Enabled(Apply(c, s, first), second)
    ensures Legal(c, s, [first, second])
    ensures After(c, s, [first, second]) == Apply(c, Apply(c, s, first), second)
  {
    assert [first, second][1..] == [second];
    OneStep(c, Apply(c, s, first), second);
  }

  lemma ListenerCanArm(c: Config, s: State)
    requires MayArm(c, s) && !s.main.Aborted?
    ensures CanStillMove(c, s)
  {
    var id := s.owner.value;
    var arm := WorkerStep(id, Line(Some(Nudge()), true));
    if s.workers[id].Reading? {
      var read := WorkerStep(id, Lines(1));
      NudgeArms(c, Apply(c, s, read));
      TwoSteps(c, s, read, arm);
    } else {
      NudgeArms(c, s);
      OneStep(c, s, arm);
    }
  }

  lemma JoiningIsPastFlag(c: Config, s: State)
    requires Inv(c, s) && s.main.JoinListener?
    ensures !s.running
  {
  }

  /** When the stop `shutdown` makes itself suffices: once it is made, motion can still come about
      exactly if the control worker, past its check of the flag, is reading or has lines left to
      handle (and a timeout of a millisecond is permitted at all), or has armed motion already.
      Otherwise nothing moves ever again. */
  lemma OwnStopSufficesExactly(c: Config, run: seq<Step>)
    requires Legal(c, INITIAL, run) && After(c, INITIAL, run).main.JoinListener?
    ensures var s := After(c, INITIAL, run);
            CanStillMove(c, s) <==> s.motion != IDLE || MayArm(c, s)
  {
    Reached(c, run);
    var s := After(c, INITIAL, run);
    JoiningIsPastFlag(c, s);
    if s.motion != IDLE {
      assert Legal(c, s, []) && After(c, s, []).motion != IDLE;
    } else if MayArm(c, s) {
      ListenerCanArm(c, s);
    } else {
      hide Legal, After, MayArm, Inv;
      assert Settled(c, s);
      forall more | Legal(c, s, more) ensures After(c, s, more).motion == IDLE {
        RunKeepsSettled(c, s, more);
      }
    }
  }

  /** `shutdown` makes its own stop while the line is still to be handled. */
  lemma StopBeforeLine(c: Config) returns (run: seq<Step>)
    ensures Legal(c, INITIAL, run)
    ensures var s := After(c, INITIAL, run);
            s.main.JoinListener? && s.workers == [Handling(1)] && s.owner == Some(0)
  {
    run := LineBeforeShutdown(c);
    hide Legal, After;
    run := Go(c, run, MainStep(true));
    run := Go(c, run, MainStep(true));
    run := Go(c, run, MainStep(true));
    run := Go(c, run, MainStep(true));
  }

  /** A run in which it does not: a worker that passed its check of the flag arms motion after it.
      Only joining the worker, whose final stop follows, leaves the state idle. */
  lemma ShutdownsOwnStopIsNotEnough(c: Config, forward: real) returns (run: seq<Step>)
    requires c.maximum >= MILLISECOND && 0.0 < forward <= 0.47
    ensures Legal(c, INITIAL, run)
    ensures var s := After(c, INITIAL, run);
            s.main.JoinListener? && s.motion.command != ZERO && s.motion.deadline.Some?
  {
    run := StopBeforeLine(c);
    var request := VelocityRequest(Velocity(Finite(forward), Finite(0.0), Finite(0.0)), 1);
    assert Arms(request, c.maximum).Some?;
    hide Legal, After;
    run := Go(c, run, WorkerStep(0, Line(Some(request), true)));
  }

  function ListenerRank(l: Listener): nat {
    match l
    case Returned => 0 case Joining => 1 case Polling => 2 case Rejecting => 3
    case Spawning => 7 case Clearing => 8 case Reaping => 9 case Accepting => 10
  }

  function WorkerRank(w: Worker): nat {
    match w
    case Finished => 0 case Final => 1 case Leaving => 2 case Checking => 3 case Greeting => 4
    case Handling(lines) => 4 + lines
    case Reading => 5 + READ_BUFFER
  }

  function CameraRank(l: CameraListener): nat {
    match l
    case CameraReturned => 0 case Watching => 1 case Serving => 2 case Waiting => 3
  }

  function MainRank(m: Main): nat {
    match m
    case Aborted => 0 case Done => 0 case JoinCamera => 1 case JoinListener => 2
    case StopMotion => 3 case LowerFlag => 4 case SendStop => 5 case Leave => 6 case LoopTest => 7
    case Parked(_) => 8 case First => 8 case Send(_) => 9 case Lock(_) => 10 case ReadClock => 11
  }

  function Rank(s: State): nat {
    ListenerRank(s.listener)
    + (if s.owner.Some? && s.owner.value < |s.workers| then WorkerRank(s.workers[s.owner.value]) else 0)
    + CameraRank(s.camera) + MainRank(s.main)
  }

  predicate Moves(step: Step) {
    !step.Tick? && !step.Interrupt?
  }

  /** At most this many steps are ever left once the flag is down. */
  const SHUTDOWN_STEPS := 1053

  lemma WorkerLowersRank(c: Config, s: State, id: nat, meets: Meets)
    requires Inv(c, s) && !s.running && id < |s.workers| && WorkerMeets(s.workers[id], meets)
    ensures Rank(ApplyWorker(c, s, id, meets)) < Rank(s)
    ensures !ApplyWorker(c, s, id, meets).running
  {
    OwnerMoves(c, s, id, meets);
    RequestKeepsThreads(c, s, id, if meets.Line? then meets.request else None);
    hide Inv, ApplyRequest, CameraRank, MainRank, ListenerRank;
    var w := NextPhase(s.workers[id], s.running, meets);
    assert WorkerRank(w) < WorkerRank(s.workers[id]);
    assert ApplyWorker(c, s, id, meets).workers[id] == w;
  }

  lemma ListenerLowersRank(s: State, client: bool)
    requires Ownership(s) && !s.running && !s.listener.Returned?
    requires s.listener.Joining? ==> s.owner.None? || OwnerAt(s, Finished)
    ensures Rank(ApplyListener(s, client)) < Rank(s)
    ensures !ApplyListener(s, client).running
  {
    hide CameraRank, MainRank;
  }

  lemma MainLowersRank(s: State, ok: bool)
    requires !s.running && !s.main.Done? && !s.main.Aborted?
    ensures Rank(ApplyMain(s, ok)) < Rank(s)
    ensures !ApplyMain(s, ok).running
  {
    hide CameraRank, ListenerRank, WorkerRank;
  }

  lemma CameraLowersRank(s: State, client: bool)
    requires !s.running && !s.camera.CameraReturned?
    ensures Rank(ApplyCamera(s, client)) < Rank(s)
    ensures !ApplyCamera(s, client).running
  {
    hide MainRank, ListenerRank, WorkerRank;
  }

  /** Once the running flag is down, every step any thread takes brings the end nearer; time and
      further signals change nothing. */
  lemma StepLowersRank(c: Config, s: State, step: Step)
    requires Inv(c, s) && !s.running && Enabled(s, step)
    ensures Rank(Apply(c, s, step)) + (if Moves(step) then 1 else 0) <= Rank(s)
    ensures !Apply(c, s, step).running
  {
    hide Faithful, Armed, Represents, Clocks, Phases, Ownership;
    match step
    case WorkerStep(id, meets) => WorkerLowersRank(c, s, id, meets);
    case ListenerStep(client) => ListenerLowersRank(s, client);
    case CameraStep(client) => CameraLowersRank(s, client);
    case MainStep(ok) => MainLowersRank(s, ok);
    case _ =>
  }

  /** ... and until the end some thread can take a step. */
  lemma SomeStepEnabled(c: Config, s: State) returns (step: Step)
    requires Inv(c, s) && !s.main.Done? && !s.main.Aborted?
    ensures Enabled(s, step) && Moves(step)
  {
    hide Faithful, Armed, Represents, Clocks, Phases;
    if s.main.JoinCamera? && !s.camera.CameraReturned? {
      step := CameraStep(false);
    } else if !s.main.JoinListener? || s.listener.Returned? {
      step := MainStep(true);
    } else if !s.listener.Joining? || s.owner.None? || OwnerAt(s, Finished) {
      step := ListenerStep(false);
    } else {
      var w := s.workers[s.owner.value];
      step := WorkerStep(s.owner.value, if w.Handling? && w.lines > 0 then Line(None, true) else Nothing);
    }
  }

  /** How many of the steps are taken by threads. */
  function MovesIn(run: seq<Step>): nat {
    if run == [] then 0 else (if Moves(run[0]) then 1 else 0) + MovesIn(run[1..])
  }

  lemma {:induction false} RunLowersRank(c: Config, s: State, run: seq<Step>)
    requires Inv(c, s) && !s.running && Legal(c, s, run)
    ensures Rank(After(c, s, run)) + MovesIn(run) <= Rank(s)
    ensures Inv(c, After(c, s, run))
    decreases |run|
  {
    hide Inv, Rank, Apply, Enabled, Moves;
    if run != [] {
      StepLowersRank(c, s, run[0]);
      StepKeepsInv(c, s, run[0]);
      RunLowersRank(c, Apply(c, s, run[0]), run[1..]);
    }
  }

  lemma RankIsBounded(s: State)
    requires Ownership(s)
    ensures Rank(s) <= SHUTDOWN_STEPS
  {
    assert MainRank(s.main) <= 11 && ListenerRank(s.listener) <= 10 && CameraRank(s.camera) <= 3;
  }

  /** From every reachable state whose running flag is down, and in every interleaving from there,
      whatever time passes and whatever signals come, the threads take at most 1053 steps among them;
      as long as `shutdown` has not returned one of them can go on. */
  lemma ShutdownTerminates(c: Config, run: seq<Step>, more: seq<Step>)
    requires Legal(c, INITIAL, run) && !After(c, INITIAL, run).running
    requires Legal(c, After(c, INITIAL, run), more)
    ensures MovesIn(more) <= SHUTDOWN_STEPS
    ensures var s := After(c, After(c, INITIAL, run), more);
            s.main.Done? || s.main.Aborted? || exists step :: Enabled(s, step) && Moves(step)
  {
    Reached(c, run);
    RunLowersRank(c, After(c, INITIAL, run), more);
    var s := After(c, After(c, INITIAL, run), more);
    RankIsBounded(After(c, INITIAL, run));
    if !s.main.Done? && !s.main.Aborted? {
      var step := SomeStepEnabled(c, s);
    }
  }
}
