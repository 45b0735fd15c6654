/** What the camera side of the bridge does for its clients (src/integration_bridge.rs): clients are
    admitted while there is room, and requests are answered. */
module CameraService {
  import opened Base
  import opened Camera

  lemma NoSteps(s: State)
    ensures Legal(s, []) && After(s, []) == s
  {
  }

  /** One step more from `s`. */
  lemma On(s: State, run: seq<Step>, step: Step) returns (longer: seq<Step>)
    requires Legal(s, run) && Enabled(After(s, run), step)
    ensures longer == run + [step] && Legal(s, longer)
    ensures After(s, longer) == Apply(After(s, run), step)
  {
    hide Apply, Enabled;
    assert [step][1..] == [];
    assert Legal(After(s, run), [step]) && After(After(s, run), [step]) == Apply(After(s, run), step);
    Joined(s, run, [step]);
    longer := run + [step];
  }

  /** A worker gives up its client exactly if it sees the running flag down or the connection fails. */
  lemma WorkerLeavesForAReason(s: State, id: nat, meets: Meets)
    requires Enabled(s, ClientStep(id, meets)) && !s.clients[id].phase.Gone?
    ensures var before, phase := s.clients[id].phase, Apply(s, ClientStep(id, meets)).clients[id].phase;
            && !phase.Released?
            && (phase.Gone? <==>
                  || ((before.Checking? || before.LoopLeft?) && !s.running)
                  || ((before.Reading? || before.Writing?) && meets.Fault?))
  {
  }

  /** The acceptor stops accepting exactly when it sees the running flag down. */
  lemma AcceptingEndsForAReason(s: State, ok: bool)
    requires Enabled(s, AcceptorStep(ok))
    ensures Apply(s, AcceptorStep(ok)).acceptor.Returned? <==> s.acceptor.Polling? && !s.running
  {
  }

  /** While there is room a client that comes is given a worker of its own. */
  lemma ClientIsAdmitted(s: State) returns (steps: seq<Step>)
    requires s.acceptor.Polling? && s.running && s.counter < MAX_CLIENTS
    ensures Legal(s, steps) && forall step | step in steps :: step == AcceptorStep(true)
    ensures After(s, steps) == s.(clients := s.clients + [NEW_CLIENT], counter := s.counter + 1)
  {
    NoSteps(s);
    hide Legal, After;
    steps := On(s, [], AcceptorStep(true));
    steps := On(s, steps, AcceptorStep(true));
    steps := On(s, steps, AcceptorStep(true));
    steps := On(s, steps, AcceptorStep(true));
  }

  /** Otherwise it is refused, and nothing has changed. */
  lemma ClientIsRefused(s: State) returns (steps: seq<Step>)
    requires s.acceptor.Polling? && s.running && s.counter >= MAX_CLIENTS
    ensures steps != [] && Legal(s, steps) && forall step | step in steps :: step == AcceptorStep(true)
    ensures After(s, steps) == s
  {
    NoSteps(s);
    hide Legal, After;
    steps := On(s, [], AcceptorStep(true));
    steps := On(s, steps, AcceptorStep(true));
    steps := On(s, steps, AcceptorStep(true));
    steps := On(s, steps, AcceptorStep(true));
  }

  /** The client's record after its request has been answered with the newest frame. */
  function Answered(s: State, c: Client): Client
    requires s.frames != []
  {
    c.(seen := s.generation, sent := c.sent + [s.frames[|s.frames| - 1]], positions := c.positions + [|s.frames|],
       requests := c.requests + 1, replies := c.replies + 1)
  }

  lemma ReadsRequest(s: State, id: nat) returns (steps: seq<Step>)
    requires s.running && id < |s.clients| && s.clients[id].phase.Checking? && s.holder.None?
    ensures Legal(s, steps)
    ensures var c := s.clients[id];
            After(s, steps) == s.(clients := s.clients[id := c.(phase := Acquiring, requests := c.requests + 1)])
  {
    NoSteps(s);
    hide Legal, After;
    steps := On(s, [], ClientStep(id, Nothing));
    steps := On(s, steps, ClientStep(id, Request));
  }

  lemma TakesFrame(s: State, id: nat) returns (steps: seq<Step>)
    requires s.running && id < |s.clients| && s.clients[id].phase.Acquiring? && s.holder.None?
    requires s.generation != s.clients[id].seen
    ensures Legal(s, steps)
    ensures var c := s.clients[id];
            After(s, steps) == s.(clients := s.clients[id := c.(phase := Copying)], holder := Some(id))
  {
    NoSteps(s);
    hide Legal, After;
    steps := On(s, [], ClientStep(id, Nothing));
    steps := On(s, steps, ClientStep(id, Nothing));
    steps := On(s, steps, ClientStep(id, Nothing));
  }

  lemma WritesFrame(s: State, id: nat) returns (steps: seq<Step>)
    requires id < |s.clients| && s.clients[id].phase.Copying? && s.holder == Some(id)
    requires s.clients[id].requests > 0
    requires s.frames != [] && s.jpeg == Some(s.frames[|s.frames| - 1])
    ensures Legal(s, steps)
    ensures var c := s.clients[id].(phase := Checking, requests := s.clients[id].requests - 1);
            After(s, steps) == s.(clients := s.clients[id := Answered(s, c)], holder := None)
  {
    NoSteps(s);
    hide Legal, After;
    steps := On(s, [], ClientStep(id, Nothing));
    steps := On(s, steps, ClientStep(id, Nothing));
  }

  /** While the bridge runs and nothing fails, a request for a frame that was not sent yet is answered
      with the newest one, and the worker is ready for the next request. */
  lemma RequestIsAnswered(s: State, id: nat) returns (steps: seq<Step>)
    requires Inv(s) && s.running && s.holder.None? && id < |s.clients| && s.clients[id].phase.Checking?
    requires s.generation != s.clients[id].seen
    ensures s.frames != [] && Legal(s, steps)
    ensures After(s, steps) == s.(clients := s.clients[id := Answered(s, s.clients[id])])
  {
    assert ClientInv(s, s.clients[id]);
    FrameIsThere(s, s.clients[id]);
    hide Legal, After, Inv, ClientInv;
    steps := ReadsRequest(s, id);
    var more := TakesFrame(After(s, steps), id);
    Joined(s, steps, more);
    steps := steps + more;
    more := WritesFrame(After(s, steps), id);
    Joined(s, steps, more);
    steps := steps + more;
  }

  lemma FirstAnswer(s: State, frame: Jpeg)
    requires s.frames == [frame]
    ensures Answered(s, NEW_CLIENT).sent == [frame]
    ensures Answered(s, NEW_CLIENT).requests == Answered(s, NEW_CLIENT).replies == 1
  {
  }

  lemma FramePublished(frame: Jpeg) returns (run: seq<Step>)
    ensures Legal(INITIAL, run)
    ensures After(INITIAL, run)
            == INITIAL.(counter := 1, clients := [NEW_CLIENT], frames := [frame], generation := 1, jpeg := Some(frame))
  {
    run := ClientArrives();
    hide Legal, After;
    run := Go(run, Publish(frame));
  }

  /** A run of one client, one frame, one request and one reply. */
  lemma OneRequestOneReply(frame: Jpeg) returns (run: seq<Step>)
    ensures Legal(INITIAL, run)
    ensures var s := After(INITIAL, run);
            && s.running && |s.clients| == 1
            && s.clients[0].sent == [frame] && s.clients[0].requests == s.clients[0].replies == 1
  {
    run := FramePublished(frame);
    InvFromStart(run);
    hide Legal, After, Inv, Wrapped, Apply, Answered;
    var s := After(INITIAL, run);
    var steps := RequestIsAnswered(s, 0);
    Joined(INITIAL, run, steps);
    FirstAnswer(s, frame);
    run := run + steps;
  }
}
