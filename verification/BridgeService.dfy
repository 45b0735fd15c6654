/** What the bridge does for its clients (src/integration_bridge.rs, src/main.rs): commands are sent,
    lines take effect, clients are served, and no thread gives up without a reason. */
module BridgeService {
  import opened Base
  import opened Motion
  import opened Control
  import opened Bridge
  import opened BridgeTheorems

  lemma {:induction false} Joined(c: Config, s: State, a: seq<Step>, b: seq<Step>)
    requires Legal(c, s, a) && Legal(c, After(c, s, a), b)
    ensures Legal(c, s, a + b) && After(c, s, a + b) == After(c, After(c, s, a), b)
    decreases |a|
  {
    hide Apply, Enabled;
    if a == [] {
      assert a + b == b;
    } else {
      Joined(c, Apply(c, s, a[0]), a[1..], b);
      assert (a + b)[1..] == a[1..] + b;
    }
  }

  lemma NoSteps(c: Config, s: State)
    ensures Legal(c, s, []) && After(c, s, []) == s
  {
  }

  /** One step more from `s`. */
  lemma On(c: Config, s: State, run: seq<Step>, step: Step) returns (longer: seq<Step>)
    requires Legal(c, s, run) && Enabled(After(c, s, run), step)
    ensures longer == run + [step] && Legal(c, s, longer)
    ensures After(c, s, longer) == Apply(c, After(c, s, run), step)
  {
    Extend(c, s, run, step);
    longer := run + [step];
  }

  // ----- Every send is exactly what was looked up -----

  /** The twist looked up and not yet sent. */
  function Unsent(h: History): Option<Twist> {
    match h
    case Empty => None
    case Then(earlier, Sampled(_, twist)) => Some(twist)
    case Then(earlier, Sent(_, _)) => None
    case Then(earlier, _) => Unsent(earlier)
  }

  /** Every twist sent is the one looked up since the send before, or zero if there was no look. */
  ghost predicate Exact(h: History) {
    match h
    case Empty => true
    case Then(earlier, Sent(twist, _)) =>
      Exact(earlier) && twist == (match Unsent(earlier) case Some(t) => t case None => ZERO)
    case Then(earlier, _) => Exact(earlier)
  }

  ghost predicate Prompt(s: State) {
    Exact(s.history) && Unsent(s.history) == if s.main.Send? then Some(s.main.twist) else None
  }

  lemma AsideKeepsPrompt(s: State, s': State)
    requires Prompt(s) && Aside(s, s')
    ensures Prompt(s')
  {
  }

  lemma MainKeepsPrompt(s: State, ok: bool)
    requires Prompt(s) && !s.main.Done? && !s.main.Aborted?
    ensures Prompt(ApplyMain(s, ok))
  {
    hide Found, Looked;
  }

  lemma StepKeepsPrompt(c: Config, s: State, step: Step)
    requires Prompt(s) && Enabled(s, step)
    ensures Prompt(Apply(c, s, step))
  {
    hide ApplyWorker, ApplyListener, ApplyMain;
    match step
    case MainStep(ok) => MainKeepsPrompt(s, ok);
    case WorkerStep(id, meets) =>
      WorkerIsAside(c, s, id, meets);
      AsideKeepsPrompt(s, ApplyWorker(c, s, id, meets));
    case ListenerStep(client) =>
      ListenerIsAside(s, client);
      AsideKeepsPrompt(s, ApplyListener(s, client));
    case _ =>
  }

  lemma {:induction false} RunKeepsPrompt(c: Config, s: State, run: seq<Step>)
    requires Prompt(s) && Legal(c, s, run)
    ensures Prompt(After(c, s, run))
    decreases |run|
  {
    hide Prompt, Apply, Enabled;
    if run != [] {
      StepKeepsPrompt(c, s, run[0]);
      RunKeepsPrompt(c, Apply(c, s, run[0]), run[1..]);
    }
  }

  lemma {:induction false} ExactBefore(h: History, later: History)
    requires Precedes(h, later) && Exact(later)
    ensures Exact(h)
  {
    if h != later {
      ExactBefore(h, later.earlier);
    }
  }

  lemma {:induction false} UnsentWasLookedUp(h: History)
    requires Unsent(h).Some?
    ensures Look(h).Some? && Unsent(h).value == Look(h).value.1
  {
    if !h.latest.Sampled? {
      UnsentWasLookedUp(h.earlier);
    }
  }

  /** Over every run, a twist sent after a look is exactly the one that look found, which is what the
      history commanded at that instant; only a send with no look since the one before is a bare
      zero. */
  lemma EverySendIsExact(c: Config, run: seq<Step>, h: History, twist: Twist, at: Time)
    requires Legal(c, INITIAL, run)
    requires Precedes(Then(h, Sent(twist, at)), After(c, INITIAL, run).history)
    ensures match Unsent(h)
            case None => twist == ZERO
            case Some(_) =>
              && Look(h).Some?
              && var (now, found, before) := Look(h).value; twist == found == Commanded(before, now)
  {
    Reached(c, run);
    RunKeepsPrompt(c, INITIAL, run);
    var all := After(c, INITIAL, run).history;
    ExactBefore(Then(h, Sent(twist, at)), all);
    FaithfulBefore(c, Then(h, Sent(twist, at)), all);
    if Unsent(h).Some? {
      UnsentWasLookedUp(h);
      LookIsFaithful(c, h);
    }
  }

  /** In the loop, what is sent next is what the look just found. */
  lemma SendsWhatWasFound(c: Config, run: seq<Step>, ok: bool)
    requires Legal(c, INITIAL, run) && After(c, INITIAL, run).main.Send?
    ensures var s := After(c, INITIAL, run);
            && Look(s.history).Some?
            && Apply(c, s, MainStep(ok)).history == Then(s.history, Sent(Look(s.history).value.1, s.clock))
            && var (now, found, before) := Look(s.history).value; found == Commanded(before, now)
  {
    Reached(c, run);
    LookIsFaithful(c, After(c, INITIAL, run).history);
  }

  /** The publishing thread leaves its loop exactly if the running flag is seen down or something
      fails: a send, or whatever else the loop looks at. */
  lemma LoopEndsForAReason(c: Config, s: State, ok: bool)
    requires Enabled(s, MainStep(ok)) && (s.main.First? || InLoop(s.main))
    ensures !InLoop(Apply(c, s, MainStep(ok)).main) <==>
              (s.main.LoopTest? && !s.running) || (!ok && (s.main.First? || s.main.LoopTest? || s.main.Send?))
  {
  }

  lemma Represented(c: Config, s: State)
    requires Inv(c, s)
    ensures Found(s.motion, s.clock) == Commanded(s.history, s.clock)
  {
  }

  lemma LoopLooks(c: Config, s: State) returns (turn: seq<Step>)
    requires Inv(c, s) && s.main.LoopTest? && s.running
    ensures forall step | step in turn :: step == MainStep(true)
    ensures Legal(c, s, turn)
    ensures var twist := Commanded(s.history, s.clock);
            After(c, s, turn)
            == s.(motion := Looked(s.motion, s.clock), main := Send(twist),
                  history := Then(s.history, Sampled(s.clock, twist)))
  {
    Represented(c, s);
    NoSteps(c, s);
    hide Inv, Commanded, Found, Looked, Legal, After;
    turn := On(c, s, [], MainStep(true));
    turn := On(c, s, turn, MainStep(true));
    turn := On(c, s, turn, MainStep(true));
  }

  /** While the bridge runs, every turn of the loop sends what the history commands at that instant. */
  lemma LoopPublishes(c: Config, s: State) returns (turn: seq<Step>)
    requires Inv(c, s) && s.main.LoopTest? && s.running
    ensures forall step | step in turn :: step == MainStep(true)
    ensures Legal(c, s, turn)
    ensures var twist := Commanded(s.history, s.clock);
            After(c, s, turn)
            == s.(motion := Looked(s.motion, s.clock),
                  history := Then(Then(s.history, Sampled(s.clock, twist)), Sent(twist, s.clock)))
  {
    turn := LoopLooks(c, s);
    hide Inv, Commanded, Found, Looked, Legal, After;
    turn := On(c, s, turn, MainStep(true));
    turn := On(c, s, turn, MainStep(true));
  }

  /** However long nothing else happens, the next turn sends what the history commands by then: zero
      if the last command has run out. */
  lemma WaitThenPublish(c: Config, s: State, elapsed: Time) returns (steps: seq<Step>)
    requires Inv(c, s) && s.main.LoopTest? && s.running
    ensures steps != [] && steps[0] == Tick(elapsed) && Legal(c, s, steps)
    ensures LastSent(After(c, s, steps).history) == Some(Commanded(s.history, s.clock + elapsed))
    ensures Pending(s.history).Some?
            && s.clock + elapsed >= Pending(s.history).value.at + Pending(s.history).value.timeout ==>
              LastSent(After(c, s, steps).history) == Some(ZERO)
  {
    OneStep(c, s, Tick(elapsed));
    var later := Apply(c, s, Tick(elapsed));
    StepKeepsInv(c, s, Tick(elapsed));
    var turn := LoopPublishes(c, later);
    Joined(c, s, [Tick(elapsed)], turn);
    hide Legal, After, Inv, Pending;
    steps := [Tick(elapsed)] + turn;
  }

  predicate Halted(s: State, s': State) {
    s'.motion == IDLE && s'.history == Then(s.history, Stopped)
  }

  /** Each of the three stops is made: by a worker that leaves, before a newcomer is given a worker,
      and by `shutdown` itself. */
  lemma StopsAreMade(c: Config, s: State, id: nat, ok: bool)
    ensures Enabled(s, WorkerStep(id, Nothing)) && s.workers[id].Leaving? ==>
              Halted(s, Apply(c, s, WorkerStep(id, Nothing)))
    ensures Enabled(s, ListenerStep(ok)) && s.listener.Clearing? ==> Halted(s, Apply(c, s, ListenerStep(ok)))
    ensures Enabled(s, MainStep(ok)) && s.main.StopMotion? ==> Halted(s, Apply(c, s, MainStep(ok)))
  {
  }

  /** One signal, at any time, ends everything: from then on the threads take at most 1053 steps, and
      until `shutdown` has returned one of them can go on. */
  lemma SignalShutsDown(c: Config, run: seq<Step>, more: seq<Step>)
    requires Legal(c, INITIAL, run) && !After(c, INITIAL, run).main.Aborted?
    ensures Legal(c, INITIAL, run + [Interrupt])
    ensures Legal(c, After(c, INITIAL, run + [Interrupt]), more) ==>
              var s := After(c, After(c, INITIAL, run + [Interrupt]), more);
              && MovesIn(more) <= 1053
              && (s.main.Done? || s.main.Aborted? || exists step :: Enabled(s, step) && Moves(step))
  {
    Extend(c, INITIAL, run, Interrupt);
    if Legal(c, After(c, INITIAL, run + [Interrupt]), more) {
      ShutdownTerminates(c, run + [Interrupt], more);
    }
  }

  // ----- Clients are served -----

  /** A newcomer is turned away exactly if some worker is unfinished. */
  lemma BusyExactly(c: Config, run: seq<Step>, client: bool)
    requires Legal(c, INITIAL, run) && After(c, INITIAL, run).listener.Reaping?
    requires Enabled(After(c, INITIAL, run), ListenerStep(client))
    ensures var s := After(c, INITIAL, run);
            var s' := Apply(c, s, ListenerStep(client));
            && (s'.listener.Rejecting? <==> exists i | 0 <= i < |s.workers| :: !s.workers[i].Finished?)
            && (s'.listener.Rejecting? || s'.listener.Clearing?)
  {
    Reached(c, run);
    hide Legal, After, Faithful, Armed, Represents, Clocks, Phases;
  }

  /** The listener stops listening exactly when it sees the running flag down. */
  lemma ListeningEndsForAReason(c: Config, s: State, client: bool)
    requires Enabled(s, ListenerStep(client)) && !s.listener.Joining?
    ensures var next := Apply(c, s, ListenerStep(client)).listener;
            next.Joining? || next.Returned? <==> s.listener.Polling? && !s.running
  {
  }

  lemma OwnerHasFinished(c: Config, s: State)
    requires Inv(c, s) && forall w | w in s.workers :: w.Finished?
    ensures s.owner.None? || OwnerAt(s, Finished)
  {
    hide Faithful, Armed, Represents, Clocks, Phases;
    if s.owner.Some? {
      assert s.workers[s.owner.value] in s.workers;
    }
  }

  /** With every earlier worker finished, a client that comes is given a worker of its own. */
  lemma NewcomerIsServed(c: Config, s: State) returns (steps: seq<Step>)
    requires Inv(c, s) && s.listener.Polling? && s.running && !s.main.Aborted?
    requires forall w | w in s.workers :: w.Finished?
    ensures forall step | step in steps :: step == ListenerStep(true)
    ensures Legal(c, s, steps)
    ensures After(c, s, steps)
            == s.(motion := IDLE, history := Then(s.history, Stopped),
                  owner := Some(|s.workers|), workers := s.workers + [Greeting])
  {
    OwnerHasFinished(c, s);
    NoSteps(c, s);
    hide Inv, Legal, After;
    steps := On(c, s, [], ListenerStep(true));
    steps := On(c, s, steps, ListenerStep(true));
    steps := On(c, s, steps, ListenerStep(true));
    steps := On(c, s, steps, ListenerStep(true));
    steps := On(c, s, steps, ListenerStep(true));
  }

  lemma OwnerIsUnfinished(c: Config, s: State)
    requires Inv(c, s) && exists i | 0 <= i < |s.workers| :: !s.workers[i].Finished?
    ensures s.owner.Some? && !OwnerAt(s, Finished)
  {
    hide Faithful, Armed, Represents, Clocks, Phases;
  }

  /** With a worker unfinished, a client that comes is turned away and nothing at all has changed. */
  lemma NewcomerIsRejected(c: Config, s: State) returns (steps: seq<Step>)
    requires Inv(c, s) && s.listener.Polling? && s.running && !s.main.Aborted?
    requires exists i | 0 <= i < |s.workers| :: !s.workers[i].Finished?
    ensures forall step | step in steps :: step == ListenerStep(true)
    ensures steps != [] && Legal(c, s, steps) && After(c, s, steps) == s
  {
    OwnerIsUnfinished(c, s);
    NoSteps(c, s);
    hide Inv, Legal, After;
    steps := On(c, s, [], ListenerStep(true));
    steps := On(c, s, steps, ListenerStep(true));
    steps := On(c, s, steps, ListenerStep(true));
    steps := On(c, s, steps, ListenerStep(true));
  }

  /** A worker leaves its client exactly if it sees the running flag down, the connection fails or a
      reply cannot be written. */
  lemma WorkerLeavesForAReason(c: Config, s: State, id: nat, meets: Meets)
    requires Enabled(s, WorkerStep(id, meets)) && Alive(s.workers[id]) && !s.workers[id].Leaving?
    ensures var w := Apply(c, s, WorkerStep(id, meets)).workers[id];
            && Alive(w)
            && (w.Leaving? <==>
                  || meets.Fault?
                  || (s.workers[id].Checking? && !s.running)
                  || (meets.Line? && !meets.written))
  {
    RequestKeepsThreads(c, s, id, if meets.Line? then meets.request else None);
    hide ApplyRequest;
  }

  /** What a line does: an accepted velocity is commanded from now until its timeout, a stop commands
      zero, and anything else changes nothing. */
  lemma LineTakesEffect(c: Config, s: State, id: nat, request: Option<Request>, written: bool)
    requires Enabled(s, WorkerStep(id, Line(request, written)))
    ensures var s' := Apply(c, s, WorkerStep(id, Line(request, written)));
            match request
            case Some(VelocityRequest(velocity, timeoutMs)) =>
              var twist := ToScoutTwist(velocity, DEFAULT_LIMITS);
              var timeout := timeoutMs * MILLISECOND;
              if twist.Success? && 0 < timeout <= c.maximum then
                && s'.motion == MotionState(twist.value, Some(s.clock + timeout))
                && (forall t: Time | t < s.clock + timeout :: Commanded(s'.history, t) == twist.value)
                && (forall t: Time | t >= s.clock + timeout :: Commanded(s'.history, t) == ZERO)
              else
                s'.motion == s.motion && s'.history == s.history
            case Some(StopRequest) => s'.motion == IDLE && forall t: Time :: Commanded(s'.history, t) == ZERO
            case _ => s'.motion == s.motion && s'.history == s.history
  {
    hide ToScoutTwist;
  }

  /** The requests of several lines, taken in order. */
  function AllUpdated(requests: seq<Option<Request>>, m: MotionState, now: Time, maximum: Time): MotionState {
    if requests == [] then m
    else
      var next := if requests[0].Some? then Updated(requests[0].value, m, now, maximum) else m;
      AllUpdated(requests[1..], next, now, maximum)
  }

  function LineSteps(id: nat, requests: seq<Option<Request>>): (steps: seq<Step>)
    ensures |steps| == |requests|
    ensures forall i | 0 <= i < |steps| :: steps[i] == WorkerStep(id, Line(requests[i], true))
  {
    seq(|requests|, i requires 0 <= i < |requests| => WorkerStep(id, Line(requests[i], true)))
  }

  lemma OneLine(c: Config, s: State, id: nat, request: Option<Request>)
    requires Enabled(s, WorkerStep(id, Line(request, true)))
    ensures var s' := Apply(c, s, WorkerStep(id, Line(request, true)));
            && s'.workers == s.workers[id := Handling(s.workers[id].lines - 1)]
            && s'.motion == (if request.Some? then Updated(request.value, s.motion, s.clock, c.maximum) else s.motion)
            && s'.clock == s.clock && s'.main == s.main && s'.listener == s.listener && s'.owner == s.owner
  {
    hide ToScoutTwist;
  }

  /** Every line of a read takes effect, in order, and then the worker is ready for more. */
  lemma {:induction false} LinesTakeEffect(c: Config, s: State, id: nat, requests: seq<Option<Request>>)
    requires id < |s.workers| && s.workers[id] == Handling(|requests|) && !s.main.Aborted?
    ensures Legal(c, s, LineSteps(id, requests))
    ensures var s' := After(c, s, LineSteps(id, requests));
            && s'.workers == s.workers[id := Handling(0)]
            && s'.motion == AllUpdated(requests, s.motion, s.clock, c.maximum)
    decreases |requests|
  {
    hide Updated;
    if requests != [] {
      OneLine(c, s, id, requests[0]);
      hide Apply;
      var s1 := Apply(c, s, WorkerStep(id, Line(requests[0], true)));
      LinesTakeEffect(c, s1, id, requests[1..]);
      assert LineSteps(id, requests)[1..] == LineSteps(id, requests[1..]);
      assert s1.workers[id := Handling(0)] == s.workers[id := Handling(0)];
    }
  }

  // ----- A session of two clients -----

  function Ahead(forward: real): Request {
    VelocityRequest(Velocity(Finite(forward), Finite(0.0), Finite(0.0)), 1)
  }

  /** Going forward and nothing else. */
  function AheadTwist(forward: real): Twist {
    ZERO.(linearY := forward)
  }

  lemma AheadArms(c: Config, forward: real)
    requires c.maximum >= MILLISECOND && 0.0 < forward <= 0.47
    ensures ToScoutTwist(Ahead(forward).velocity, DEFAULT_LIMITS) == Success(AheadTwist(forward))
  {
  }

  /** A worker just started is sent one line. */
  lemma LineIsHandled(c: Config, s: State, id: nat, forward: real) returns (steps: seq<Step>)
    requires s.running && !s.main.Aborted? && id < |s.workers| && s.workers[id].Greeting?
    requires c.maximum >= MILLISECOND && 0.0 < forward <= 0.47
    ensures Legal(c, s, steps)
    ensures var s' := After(c, s, steps);
            && s'.workers == s.workers[id := Handling(0)]
            && s'.main == s.main && s'.running && s'.listener == s.listener && s'.clock == s.clock
            && Commanded(s'.history, s'.clock) == AheadTwist(forward)
  {
    AheadArms(c, forward);
    NoSteps(c, s);
    hide Legal, After, ToScoutTwist, Commanded;
    steps := On(c, s, [], WorkerStep(id, Nothing));
    steps := On(c, s, steps, WorkerStep(id, Nothing));
    steps := On(c, s, steps, WorkerStep(id, Lines(1)));
    var before := After(c, s, steps);
    LineTakesEffect(c, before, id, Some(Ahead(forward)), true);
    steps := On(c, s, steps, WorkerStep(id, Line(Some(Ahead(forward)), true)));
  }

  /** ... and its command is published. */
  lemma CommandIsSent(c: Config, s: State, id: nat, forward: real) returns (steps: seq<Step>)
    requires Inv(c, s) && s.running && s.main.LoopTest? && id < |s.workers| && s.workers[id].Greeting?
    requires c.maximum >= MILLISECOND && 0.0 < forward <= 0.47
    ensures Legal(c, s, steps) && Inv(c, After(c, s, steps))
    ensures var s' := After(c, s, steps);
            && LastSent(s'.history) == Some(AheadTwist(forward))
            && s'.workers == s.workers[id := Handling(0)]
            && s'.main == s.main && s'.running && s'.listener == s.listener
  {
    steps := LineIsHandled(c, s, id, forward);
    RunKeepsInv(c, s, steps);
    var middle := After(c, s, steps);
    var turn := LoopPublishes(c, middle);
    Joined(c, s, steps, turn);
    RunKeepsInv(c, s, steps + turn);
    hide Legal, After, Inv, Commanded;
    steps := steps + turn;
  }

  lemma LeavingSteps(c: Config, s: State, id: nat) returns (steps: seq<Step>)
    requires s.running && !s.main.Aborted? && id < |s.workers| && s.workers[id] == Handling(0)
    ensures Legal(c, s, steps)
    ensures var s' := After(c, s, steps);
            && s'.workers == s.workers[id := Finished]
            && s'.main == s.main && s'.running && s'.listener == s.listener
  {
    NoSteps(c, s);
    hide Legal, After;
    steps := On(c, s, [], WorkerStep(id, Fault));
    steps := On(c, s, steps, WorkerStep(id, Nothing));
    steps := On(c, s, steps, WorkerStep(id, Nothing));
  }

  lemma ClientLeaves(c: Config, s: State, id: nat) returns (steps: seq<Step>)
    requires Inv(c, s) && s.running && !s.main.Aborted? && id < |s.workers| && s.workers[id] == Handling(0)
    ensures Legal(c, s, steps) && Inv(c, After(c, s, steps))
    ensures var s' := After(c, s, steps);
            && s'.workers == s.workers[id := Finished]
            && s'.main == s.main && s'.running && s'.listener == s.listener
  {
    NoSteps(c, s);
    steps := LeavingSteps(c, s, id);
    RunKeepsInv(c, s, steps);
  }

  lemma FirstServed(c: Config) returns (run: seq<Step>)
    ensures Legal(c, INITIAL, run) && Inv(c, After(c, INITIAL, run))
    ensures var s := After(c, INITIAL, run);
            s.running && s.main.LoopTest? && s.listener.Polling? && s.workers == [Greeting]
  {
    NoSteps(c, INITIAL);
    run := On(c, INITIAL, [], MainStep(true));
    Reached(c, run);
    var steps := NewcomerIsServed(c, After(c, INITIAL, run));
    Joined(c, INITIAL, run, steps);
    run := run + steps;
    Reached(c, run);
  }

  lemma SecondArrives(c: Config, s: State) returns (steps: seq<Step>)
    requires Inv(c, s) && s.running && s.main.LoopTest? && s.listener.Polling? && s.workers == [Finished]
    ensures Legal(c, s, steps) && Inv(c, After(c, s, steps))
    ensures var s' := After(c, s, steps);
            s'.running && s'.main.LoopTest? && s'.listener.Polling? && s'.workers == [Finished, Greeting]
  {
    steps := NewcomerIsServed(c, s);
    RunKeepsInv(c, s, steps);
  }

  /** One client's command drives the robot; it leaves; a second client is served and its command
      drives the robot in turn. */
  lemma TwoClientsAreServed(c: Config, first: real, second: real) returns (a: seq<Step>, b: seq<Step>)
    requires c.maximum >= MILLISECOND && 0.0 < first <= 0.47 && 0.0 < second <= 0.47
    ensures Legal(c, INITIAL, a) && LastSent(After(c, INITIAL, a).history) == Some(AheadTwist(first))
    ensures Legal(c, INITIAL, b) && a <= b && LastSent(After(c, INITIAL, b).history) == Some(AheadTwist(second))
    ensures After(c, INITIAL, b).workers == [Finished, Handling(0)]
  {
    a := FirstServed(c);
    hide Legal, After, Inv, LastSent;
    var steps := CommandIsSent(c, After(c, INITIAL, a), 0, first);
    Joined(c, INITIAL, a, steps);
    a := a + steps;
    steps := ClientLeaves(c, After(c, INITIAL, a), 0);
    Joined(c, INITIAL, a, steps);
    b := a + steps;
    steps := SecondArrives(c, After(c, INITIAL, b));
    Joined(c, INITIAL, b, steps);
    b := b + steps;
    steps := CommandIsSent(c, After(c, INITIAL, b), 1, second);
    Joined(c, INITIAL, b, steps);
    b := b + steps;
  }
}
