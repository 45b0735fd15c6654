/** The integration bridge as a system of concurrent steps (src/integration_bridge.rs, with the
    publish loop of src/main.rs). Every mutex critical section is one step; reading the clock,
    reading `running`, spawning, finishing and joining are steps of their own. */
module Bridge {
  import opened Base
  import opened Motion
  import opened Control

  /** `maximum` bounds command timeouts; `period` is the pause between publications. */
  datatype Config = Config(maximum: Time, period: Time)

  /** What has happened, latest last. */
  datatype Event =
    | Accepted(worker: nat, request: Velocity, command: Twist, at: Time, timeout: Time)
    | Stopped
    | Sampled(now: Time, twist: Twist)
    | Sent(twist: Twist, at: Time)

  datatype History = Empty | Then(earlier: History, latest: Event)

  datatype Listener =
    | Polling | Accepting | Reaping | Rejecting | Clearing | Spawning | Joining | Returned

  /** The camera listener; its workers are the matter of the module Camera. */
  datatype CameraListener = Watching | Waiting | Serving | CameraReturned

  /** A control worker: it may arm motion only while `Handling` the lines of a read. */
  datatype Worker =
    | Greeting | Checking | Reading | Handling(lines: nat) | Leaving | Final | Finished

  /** The publishing thread, from its first stop to the return of `shutdown`. */
  datatype Main =
    | First | LoopTest | ReadClock | Lock(now: Time) | Send(twist: Twist) | Parked(since: Time)
    | Leave | SendStop | LowerFlag | StopMotion | JoinListener | JoinCamera | Done | Aborted

  datatype State = State(
    clock: Time, running: bool, motion: MotionState, listener: Listener, owner: Option<nat>,
    workers: seq<Worker>, camera: CameraListener, main: Main, history: History)

  const INITIAL := State(0, true, IDLE, Polling, None, [], Watching, First, Empty)

  /** One read of at most 1024 bytes completes at most that many lines. */
  const READ_BUFFER := 1024

  /** What a worker's step meets in its environment. */
  datatype Meets =
    | Nothing
    | Fault
    | Lines(count: nat)
    | Line(request: Option<Request>, written: bool)

  datatype Step =
    | Tick(elapsed: Time)
    | Interrupt
    | ListenerStep(client: bool)
    | WorkerStep(worker: nat, meets: Meets)
    | CameraStep(client: bool)
    | MainStep(ok: bool)

  function Alive(w: Worker): bool {
    !w.Final? && !w.Finished?
  }

  function OwnerAt(s: State, w: Worker): bool {
    s.owner.Some? && s.owner.value < |s.workers| && s.workers[s.owner.value] == w
  }

  predicate WorkerMeets(w: Worker, meets: Meets) {
    match w
    case Finished => false
    case Reading => meets.Nothing? || meets.Fault? || (meets.Lines? && meets.count <= READ_BUFFER)
    case Handling(lines) =>
      meets.Fault? || (if lines == 0 then meets.Nothing? else meets.Line?)
    case Greeting => meets.Nothing? || meets.Fault?
    case _ => meets.Nothing?
  }

  predicate Enabled(s: State, step: Step) {
    && !s.main.Aborted?
    && match step
       case Tick(_) => true
       case Interrupt => true
       case ListenerStep(_) =>
         && !s.listener.Returned?
         && (s.listener.Joining? ==> s.owner.None? || OwnerAt(s, Finished))
       case WorkerStep(id, meets) => id < |s.workers| && WorkerMeets(s.workers[id], meets)
       case CameraStep(_) => !s.camera.CameraReturned?
       case MainStep(_) =>
         && !s.main.Done?
         && (s.main.JoinListener? ==> s.listener.Returned?)
         && (s.main.JoinCamera? ==> s.camera.CameraReturned?)
  }

  function Stop(s: State): State {
    s.(motion := IDLE, history := Then(s.history, Stopped))
  }

  function ApplyListener(s: State, client: bool): State
    requires !s.listener.Returned?
  {
    match s.listener
    case Polling => s.(listener := if s.running then Accepting else Joining)
    case Accepting => s.(listener := if client then Reaping else Polling)
    case Reaping =>
      var owner := if OwnerAt(s, Finished) then None else s.owner;
      s.(owner := owner, listener := if owner.Some? then Rejecting else Clearing)
    case Rejecting => s.(listener := Polling)
    case Clearing => Stop(s).(listener := Spawning)
    case Spawning =>
      s.(owner := Some(|s.workers|), workers := s.workers + [Greeting], listener := Polling)
    case Joining => s.(owner := None, listener := Returned)
  }

  function ApplyRequest(c: Config, s: State, id: nat, request: Option<Request>): State {
    if request.None? then s
    else
      var motion := Updated(request.value, s.motion, s.clock, c.maximum);
      match request.value
      case PingRequest => s
      case StopRequest => s.(motion := motion, history := Then(s.history, Stopped))
      case VelocityRequest(velocity, _) =>
        match Arms(request.value, c.maximum)
        case None => s
        case Some((command, timeout)) =>
          s.(motion := motion,
             history := Then(s.history, Accepted(id, velocity, command, s.clock, timeout)))
  }

  function NextPhase(w: Worker, running: bool, meets: Meets): Worker
    requires WorkerMeets(w, meets)
  {
    if meets.Fault? then Leaving
    else match w
      case Greeting => Checking
      case Checking => if running then Reading else Leaving
      case Reading => if meets.Lines? then Handling(meets.count) else Checking
      case Handling(lines) =>
        if lines == 0 then Checking else if meets.written then Handling(lines - 1) else Leaving
      case Leaving => Final
      case Final => Finished
  }

  function ApplyWorker(c: Config, s: State, id: nat, meets: Meets): State
    requires id < |s.workers| && WorkerMeets(s.workers[id], meets)
  {
    var effect :=
      if s.workers[id].Leaving? then Stop(s)
      else if meets.Line? then ApplyRequest(c, s, id, meets.request)
      else s;
    effect.(workers := s.workers[id := NextPhase(s.workers[id], s.running, meets)])
  }

  function ApplyCamera(s: State, client: bool): State
    requires !s.camera.CameraReturned?
  {
    match s.camera
    case Watching => s.(camera := if s.running then Waiting else CameraReturned)
    case Waiting => s.(camera := if client then Serving else Watching)
    case Serving => s.(camera := Watching)
  }

  function ApplyMain(s: State, ok: bool): State
    requires !s.main.Done? && !s.main.Aborted?
  {
    match s.main
    case First =>
      s.(main := if ok then LoopTest else Aborted, history := Then(s.history, Sent(ZERO, s.clock)))
    case LoopTest => s.(main := if s.running && ok then ReadClock else Leave)
    case ReadClock => s.(main := Lock(s.clock))
    case Lock(now) =>
      var twist := Found(s.motion, now);
      s.(motion := Looked(s.motion, now), main := Send(twist),
         history := Then(s.history, Sampled(now, twist)))
    case Send(twist) =>
      s.(main := if ok then Parked(s.clock) else Leave,
         history := Then(s.history, Sent(twist, s.clock)))
    case Parked(_) => s.(main := LoopTest)
    case Leave => s.(running := false, main := SendStop)
    case SendStop => s.(main := LowerFlag, history := Then(s.history, Sent(ZERO, s.clock)))
    case LowerFlag => s.(running := false, main := StopMotion)
    case StopMotion => Stop(s).(main := JoinListener)
    case JoinListener => s.(main := JoinCamera)
    case JoinCamera => s.(main := Done)
  }

  function Apply(c: Config, s: State, step: Step): State
    requires Enabled(s, step)
  {
    match step
    case Tick(elapsed) => s.(clock := s.clock + elapsed)
    case Interrupt => s.(running := false)
    case ListenerStep(client) => ApplyListener(s, client)
    case WorkerStep(id, meets) => ApplyWorker(c, s, id, meets)
    case CameraStep(client) => ApplyCamera(s, client)
    case MainStep(ok) => ApplyMain(s, ok)
  }

  /** An interleaving the system can follow. */
  predicate Legal(c: Config, s: State, run: seq<Step>)
    decreases |run|
  {
    run == [] || (Enabled(s, run[0]) && Legal(c, Apply(c, s, run[0]), run[1..]))
  }

  function After(c: Config, s: State, run: seq<Step>): State
    requires Legal(c, s, run)
    decreases |run|
  {
    if run == [] then s else After(c, Apply(c, s, run[0]), run[1..])
  }

  // ----- What the publications are measured against: a history read without any lazy clearing -----

  /** The last accepted velocity, unless something stopped motion after it. */
  function Pending(h: History): Option<Event>
    ensures Pending(h).Some? ==> Pending(h).value.Accepted?
  {
    match h
    case Empty => None
    case Then(earlier, Accepted(worker, request, command, at, timeout)) => Some(h.latest)
    case Then(earlier, Stopped) => None
    case Then(earlier, _) => Pending(earlier)
  }

  /** The twist the history commands at `now`: nothing is ever erased, only out of date. */
  function Commanded(h: History, now: Time): Twist {
    match Pending(h)
    case Some(a) => if now < a.at + a.timeout then a.command else ZERO
    case None => ZERO
  }

  /** The instant of the latest look at the motion state. */
  function LastLook(h: History): Time {
    match h
    case Empty => 0
    case Then(earlier, Sampled(now, _)) => now
    case Then(earlier, _) => LastLook(earlier)
  }

  /** The latest look, with what it found and the history it looked at. */
  function Look(h: History): Option<(Time, Twist, History)> {
    match h
    case Empty => None
    case Then(earlier, Sampled(now, twist)) => Some((now, twist, earlier))
    case Then(earlier, _) => Look(earlier)
  }

  function LastSent(h: History): Option<Twist> {
    match h
    case Empty => None
    case Then(earlier, Sent(twist, _)) => Some(twist)
    case Then(earlier, _) => LastSent(earlier)
  }

  /** Every accepted command is the clamped mapping of its request with a permitted timeout, every
      look finds what the history commands at the instant it was taken for, and every twist sent is
      zero or the one found by the latest look. */
  ghost predicate Faithful(c: Config, h: History) {
    match h
    case Empty => true
    case Then(earlier, e) =>
      && Faithful(c, earlier)
      && match e
         case Accepted(_, request, command, _, timeout) =>
           0 < timeout <= c.maximum && ToScoutTwist(request, DEFAULT_LIMITS) == Success(command)
         case Stopped => true
         case Sampled(now, twist) => LastLook(earlier) <= now && twist == Commanded(earlier, now)
         case Sent(twist, _) =>
           twist == ZERO || (Look(earlier).Some? && Look(earlier).value.1 == twist)
  }

  // ----- The inductive invariant -----

  predicate Bounded(w: Worker) {
    w.Handling? ==> w.lines <= READ_BUFFER
  }

  /** At most the owner is unfinished, and the hand-over states have no owner. */
  ghost predicate Ownership(s: State) {
    && (s.owner.Some? ==> s.owner.value < |s.workers| && Bounded(s.workers[s.owner.value]))
    && (forall i | 0 <= i < |s.workers| && s.owner != Some(i) :: s.workers[i] == Finished)
    && (s.listener.Clearing? || s.listener.Spawning? || s.listener.Returned? ==> s.owner.None?)
  }

  /** Pending motion belongs to the owner, which has not yet run its final stop. */
  ghost predicate Armed(s: State) {
    match Pending(s.history)
    case Some(a) => s.owner == Some(a.worker) && a.worker < |s.workers| && Alive(s.workers[a.worker])
    case None => true
  }

  /** The shared state is the pending command, or idle once a look found that command expired. */
  ghost predicate Represents(s: State) {
    match Pending(s.history)
    case None => s.motion == IDLE
    case Some(a) =>
      || s.motion == MotionState(a.command, Some(a.at + a.timeout))
      || (s.motion == IDLE && a.at + a.timeout <= LastLook(s.history))
  }

  ghost predicate Clocks(s: State) {
    && LastLook(s.history) <= s.clock
    && (s.main.Lock? ==> LastLook(s.history) <= s.main.now <= s.clock)
    && (s.main.Parked? ==> s.main.since <= s.clock)
    && (Pending(s.history).Some? ==> Pending(s.history).value.at <= s.clock)
  }

  /** The publishing thread is in or past `shutdown`. */
  predicate Closing(m: Main) {
    m.LowerFlag? || m.StopMotion? || m.JoinListener? || m.JoinCamera? || m.Done?
  }

  ghost predicate Phases(s: State) {
    && (Closing(s.main) || s.main.SendStop? || s.listener.Joining? || s.listener.Returned?
        || s.camera.CameraReturned? ==>
          !s.running)
    && (s.main.JoinCamera? || s.main.Done? ==> s.listener.Returned?)
    && (s.main.Done? ==> s.camera.CameraReturned?)
    && (s.main.First? || LastSent(s.history).Some?)
    && (Closing(s.main) || s.main.Aborted? ==> LastSent(s.history) == Some(ZERO))
    && (s.main.Send? ==> Look(s.history).Some? && Look(s.history).value.1 == s.main.twist)
  }

  ghost predicate Inv(c: Config, s: State) {
    && Ownership(s) && Armed(s) && Represents(s) && Clocks(s) && Phases(s) && Faithful(c, s.history)
  }

  lemma StopKeepsInv(c: Config, s: State)
    requires Inv(c, s)
    ensures Inv(c, Stop(s))
  {
  }

  lemma SpawnKeepsInv(c: Config, s: State)
    requires Inv(c, s) && s.listener.Spawning?
    ensures Inv(c, ApplyListener(s, true))
  {
  }

  /** The listener moves on, perhaps letting go of a finished owner. */
  lemma RelabelKeepsInv(c: Config, s: State, owner: Option<nat>, listener: Listener)
    requires Inv(c, s)
    requires owner == s.owner || (owner.None? && OwnerAt(s, Finished))
    requires listener.Clearing? || listener.Spawning? || listener.Returned? ==> owner.None?
    requires listener.Joining? || listener.Returned? ==> !s.running
    requires s.main.JoinCamera? || s.main.Done? ==> listener.Returned?
    ensures Inv(c, s.(owner := owner, listener := listener))
  {
  }

  lemma ListenerKeepsInv(c: Config, s: State, client: bool)
    requires Inv(c, s) && !s.listener.Returned?
    requires s.listener.Joining? ==> s.owner.None? || OwnerAt(s, Finished)
    ensures Inv(c, ApplyListener(s, client))
  {
    var s' := ApplyListener(s, client);
    if s.listener.Spawning? {
      SpawnKeepsInv(c, s);
    } else if s.listener.Clearing? {
      StopKeepsInv(c, s);
      RelabelKeepsInv(c, Stop(s), s.owner, s'.listener);
    } else {
      RelabelKeepsInv(c, s, s'.owner, s'.listener);
    }
  }

  lemma ArmKeepsInv(c: Config, s: State, id: nat, request: Velocity, command: Twist, timeout: Time)
    requires Inv(c, s) && s.owner == Some(id) && id < |s.workers| && Alive(s.workers[id])
    requires 0 < timeout <= c.maximum && ToScoutTwist(request, DEFAULT_LIMITS) == Success(command)
    ensures Inv(c, s.(motion := MotionState(command, Some(s.clock + timeout)),
                      history := Then(s.history, Accepted(id, request, command, s.clock, timeout))))
  {
    hide ToScoutTwist;
  }

  lemma RequestKeepsInv(c: Config, s: State, id: nat, request: Option<Request>)
    requires Inv(c, s) && s.owner == Some(id) && id < |s.workers| && Alive(s.workers[id])
    ensures Inv(c, ApplyRequest(c, s, id, request))
  {
    hide Inv, ToScoutTwist;
    match request {
      case Some(StopRequest) => StopKeepsInv(c, s);
      case Some(VelocityRequest(velocity, timeoutMs)) =>
        match Arms(request.value, c.maximum) {
          case Some((command, timeout)) => ArmKeepsInv(c, s, id, velocity, command, timeout);
          case None =>
        }
      case _ =>
    }
  }

  lemma MovedKeepsInv(c: Config, s: State, id: nat, w: Worker)
    requires Inv(c, s) && s.owner == Some(id)
    requires Alive(w) || Pending(s.history).None?
    requires Bounded(w)
    ensures Inv(c, s.(workers := s.workers[id := w]))
  {
  }

  /** Only the owner can take a step, and no command is pending once it has run its final stop. */
  lemma OwnerMoves(c: Config, s: State, id: nat, meets: Meets)
    requires Inv(c, s) && id < |s.workers| && WorkerMeets(s.workers[id], meets)
    ensures s.owner == Some(id)
    ensures Alive(s.workers[id]) || Pending(s.history).None?
    ensures Bounded(NextPhase(s.workers[id], s.running, meets))
  {
    hide Faithful, Represents, Clocks, Phases;
  }

  lemma RequestKeepsWorkers(c: Config, s: State, id: nat, request: Option<Request>)
    ensures var s' := ApplyRequest(c, s, id, request);
            s'.owner == s.owner && s'.workers == s.workers
  {
    hide Arms, Updated;
  }

  lemma WorkerKeepsInv(c: Config, s: State, id: nat, meets: Meets)
    requires Inv(c, s) && id < |s.workers| && WorkerMeets(s.workers[id], meets)
    ensures Inv(c, ApplyWorker(c, s, id, meets))
  {
    OwnerMoves(c, s, id, meets);
    hide Inv, ApplyRequest, Bounded;
    var w := NextPhase(s.workers[id], s.running, meets);
    if s.workers[id].Leaving? {
      StopKeepsInv(c, s);
      MovedKeepsInv(c, Stop(s), id, w);
    } else if meets.Line? {
      RequestKeepsInv(c, s, id, meets.request);
      RequestKeepsWorkers(c, s, id, meets.request);
      MovedKeepsInv(c, ApplyRequest(c, s, id, meets.request), id, w);
    } else {
      MovedKeepsInv(c, s, id, w);
    }
  }

  lemma LookKeepsInv(c: Config, s: State)
    requires Inv(c, s) && s.main.Lock?
    ensures Inv(c, ApplyMain(s, true))
  {
  }

  lemma SentKeepsInv(c: Config, s: State, twist: Twist, main: Main)
    requires Inv(c, s) && (s.main.First? || s.main == Send(twist) || s.main.SendStop?)
    requires s.main.Send? || twist == ZERO
    requires main.LoopTest? || main.Leave? || (main == Parked(s.clock))
             || (main.Aborted? && twist == ZERO) || (main.LowerFlag? && s.main.SendStop?)
    ensures Inv(c, s.(main := main, history := Then(s.history, Sent(twist, s.clock))))
  {
  }

  /** The publishing thread moves on without touching motion or history. */
  lemma AdvanceKeepsInv(c: Config, s: State, main: Main, running: bool)
    requires Inv(c, s) && !s.main.First? && !s.main.Done?
    requires running ==> s.running
    requires !main.Send? && !main.Parked? && (main.Lock? ==> main == Lock(s.clock))
    requires main.SendStop? ==> !running
    requires Closing(main) || main.Aborted? ==> Closing(s.main)
    requires main.JoinCamera? || main.Done? ==> s.listener.Returned?
    requires main.Done? ==> s.camera.CameraReturned?
    ensures Inv(c, s.(main := main, running := running))
  {
  }

  lemma JoinedListener(c: Config, s: State)
    requires Inv(c, s) && s.main.JoinCamera?
    ensures s.listener.Returned?
  {
  }

  lemma MainKeepsInv(c: Config, s: State, ok: bool)
    requires Inv(c, s) && !s.main.Done? && !s.main.Aborted?
    requires s.main.JoinListener? ==> s.listener.Returned?
    requires s.main.JoinCamera? ==> s.camera.CameraReturned?
    ensures Inv(c, ApplyMain(s, ok))
  {
    if s.main.JoinCamera? {
      JoinedListener(c, s);
    }
    hide Inv;
    var s' := ApplyMain(s, ok);
    if s.main.First? || s.main.Send? || s.main.SendStop? {
      SentKeepsInv(c, s, if s.main.Send? then s.main.twist else ZERO, s'.main);
    } else if s.main.Lock? {
      LookKeepsInv(c, s);
    } else if s.main.StopMotion? {
      StopKeepsInv(c, s);
      AdvanceKeepsInv(c, Stop(s), s'.main, s'.running);
    } else {
      AdvanceKeepsInv(c, s, s'.main, s'.running);
    }
  }

  lemma CameraKeepsInv(c: Config, s: State, camera: CameraListener)
    requires Inv(c, s) && !s.camera.CameraReturned? && (camera.CameraReturned? ==> !s.running)
    ensures Inv(c, s.(camera := camera))
  {
  }

  lemma TickKeepsInv(c: Config, s: State, elapsed: Time)
    requires Inv(c, s)
    ensures Inv(c, s.(clock := s.clock + elapsed))
  {
  }

  lemma InterruptKeepsInv(c: Config, s: State)
    requires Inv(c, s)
    ensures Inv(c, s.(running := false))
  {
  }

  lemma StepKeepsInv(c: Config, s: State, step: Step)
    requires Inv(c, s) && Enabled(s, step)
    ensures Inv(c, Apply(c, s, step))
  {
    hide Inv, ApplyWorker, ApplyListener, ApplyMain;
    match step
    case Tick(elapsed) => TickKeepsInv(c, s, elapsed);
    case Interrupt => InterruptKeepsInv(c, s);
    case ListenerStep(client) => ListenerKeepsInv(c, s, client);
    case WorkerStep(id, meets) => WorkerKeepsInv(c, s, id, meets);
    case CameraStep(client) => CameraKeepsInv(c, s, ApplyCamera(s, client).camera);
    case MainStep(ok) => MainKeepsInv(c, s, ok);
  }

  lemma {:induction false} RunKeepsInv(c: Config, s: State, run: seq<Step>)
    requires Inv(c, s) && Legal(c, s, run)
    ensures Inv(c, After(c, s, run))
    decreases |run|
  {
    hide Inv, Apply, Enabled;
    if run != [] {
      StepKeepsInv(c, s, run[0]);
      RunKeepsInv(c, Apply(c, s, run[0]), run[1..]);
    }
  }
}
