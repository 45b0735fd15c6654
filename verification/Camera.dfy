/** The camera side of the bridge as a system of concurrent steps (src/integration_bridge.rs): one
    publisher of frames, the acceptor with its counter of clients, and one worker for each camera
    connection. The mutex around the latest frame is held across steps. */
module Camera {
  import opened Base

  /** Frames are handed on without being looked at. */
  type Jpeg(==)

  const MAX_CLIENTS := 4

  /** Frame generations are 64-bit and wrap around. */
  const WRAP := 0x1_0000_0000_0000_0000

  function Wrapped(publications: nat): nat {
    publications % WRAP
  }

  lemma WrappedNext(publications: nat)
    ensures Wrapped(Wrapped(publications) + 1) == Wrapped(publications + 1)
    ensures Wrapped(0) == 0
  {
  }

  ghost predicate Latest(frames: seq<Jpeg>, generation: nat, jpeg: Option<Jpeg>) {
    && generation == Wrapped(|frames|)
    && jpeg == if frames == [] then None else Some(frames[|frames| - 1])
  }

  /** The latest frame and its generation, behind the mutex. */
  class LatestFrame {
    var generation: nat
    var jpeg: Option<Jpeg>

    /** The history of publications that these fields stand for. */
    ghost predicate Holds(frames: seq<Jpeg>)
      reads this
    {
      Latest(frames, generation, jpeg)
    }

    constructor ()
      ensures Holds([])
    {
      generation, jpeg := 0, None;
    }

    method Publish(frame: Jpeg, ghost frames: seq<Jpeg>)
      requires Holds(frames)
      modifies this
      ensures Holds(frames + [frame])
    {
      WrappedNext(|frames|);
      hide Wrapped;
      generation := Wrapped(generation + 1);
      jpeg := Some(frame);
    }
  }

  /** Where a worker is. It holds the mutex from `Testing` until it has copied a frame or gives up. */
  datatype Phase =
    | Checking | Reading | Acquiring | Testing | LoopLeft | Copying | Writing | Gone | Released

  /** One camera connection: the generation last seen, the frames sent or being sent with their
      positions in the publication history, and how many requests were read and replies written. */
  datatype Client = Client(
    phase: Phase, seen: nat, sent: seq<Jpeg>, positions: seq<nat>, requests: nat, replies: nat)

  const NEW_CLIENT := Client(Checking, 0, [], [], 0, 0)

  datatype Acceptor = Polling | Accepting | Accepted | Admitted | Refused | Returned

  datatype State = State(
    running: bool, frames: seq<Jpeg>, generation: nat, jpeg: Option<Jpeg>, holder: Option<nat>,
    counter: int, acceptor: Acceptor, clients: seq<Client>)

  const INITIAL := State(true, [], 0, None, None, 0, Polling, [])

  datatype Meets = Request | Nothing | Fault

  datatype Step =
    | Publish(frame: Jpeg)
    | Interrupt
    | AcceptorStep(ok: bool)
    | ClientStep(id: nat, meets: Meets)

  predicate Holding(p: Phase) {
    p.Testing? || p.LoopLeft? || p.Copying?
  }

  predicate Enabled(s: State, step: Step) {
    match step
    case Publish(_) => s.holder.None?
    case Interrupt => true
    case AcceptorStep(_) => !s.acceptor.Returned?
    case ClientStep(id, _) =>
      && id < |s.clients|
      && !s.clients[id].phase.Released?
      && (s.clients[id].phase.Acquiring? ==> s.holder.None?)
  }

  function ApplyAcceptor(s: State, ok: bool): State {
    match s.acceptor
    case Polling => s.(acceptor := if s.running then Accepting else Returned)
    case Accepting => s.(acceptor := if ok then Accepted else Polling)
    case Accepted =>
      s.(counter := s.counter + 1, acceptor := if s.counter >= MAX_CLIENTS then Refused else Admitted)
    case Refused => s.(counter := s.counter - 1, acceptor := Polling)
    case Admitted =>
      if ok then s.(clients := s.clients + [NEW_CLIENT], acceptor := Polling)
      else s.(counter := s.counter - 1, acceptor := Polling)
    case Returned => s
  }

  /** What one step does to the client that takes it. */
  function NextClient(s: State, c: Client, meets: Meets): Client {
    match c.phase
    case Checking => c.(phase := if s.running then Reading else Gone)
    case Reading =>
      if meets.Request? then c.(phase := Acquiring, requests := c.requests + 1)
      else c.(phase := if meets.Fault? then Gone else Checking)
    case Acquiring => c.(phase := Testing)
    case Testing =>
      c.(phase := if s.generation == c.seen && s.running then Acquiring else LoopLeft)
    case LoopLeft => c.(phase := if s.running then Copying else Gone)
    case Copying =>
      if s.jpeg.None? then c.(phase := Checking)
      else c.(phase := Writing, seen := s.generation, sent := c.sent + [s.jpeg.value],
              positions := c.positions + [|s.frames|])
    case Writing =>
      if meets.Fault? then c.(phase := Gone) else c.(phase := Checking, replies := c.replies + 1)
    case Gone => c.(phase := Released)
    case Released => c
  }

  function ApplyClient(s: State, id: nat, meets: Meets): State
    requires id < |s.clients|
  {
    var before := s.clients[id];
    var c := NextClient(s, before, meets);
    s.(clients := s.clients[id := c],
       holder := if Holding(c.phase) then Some(id) else if Holding(before.phase) then None else s.holder,
       counter := if before.phase.Gone? then s.counter - 1 else s.counter)
  }

  function Apply(s: State, step: Step): State
    requires Enabled(s, step)
  {
    match step
    case Publish(frame) =>
      s.(frames := s.frames + [frame], generation := Wrapped(s.generation + 1), jpeg := Some(frame))
    case Interrupt => s.(running := false)
    case AcceptorStep(ok) => ApplyAcceptor(s, ok)
    case ClientStep(id, meets) => ApplyClient(s, id, meets)
  }

  predicate Legal(s: State, run: seq<Step>)
    decreases |run|
  {
    run == [] || (Enabled(s, run[0]) && Legal(Apply(s, run[0]), run[1..]))
  }

  function After(s: State, run: seq<Step>): State
    requires Legal(s, run)
    decreases |run|
  {
    if run == [] then s else After(Apply(s, run[0]), run[1..])
  }

  lemma SameWrap(earlier: nat, later: nat)
    requires earlier <= later
    ensures Wrapped(earlier) == Wrapped(later) <==> (later - earlier) % WRAP == 0
    ensures later < WRAP && earlier < later ==> Wrapped(earlier) != Wrapped(later)
  {
    assert earlier == earlier / WRAP * WRAP + Wrapped(earlier);
    assert later == later / WRAP * WRAP + Wrapped(later);
  }

  // ----- The inductive invariant -----

  /** How many publications a client has been brought up to; positions count from one. */
  function Last(positions: seq<nat>): nat {
    if positions == [] then 0 else positions[|positions| - 1]
  }

  function Reached(c: Client): nat {
    Last(c.positions)
  }

  ghost predicate Increasing(positions: seq<nat>) {
    forall i, j | 0 <= i < j < |positions| :: positions[i] < positions[j]
  }

  /** What a client was sent are the frames published at its positions. */
  ghost predicate Delivered(frames: seq<Jpeg>, sent: seq<Jpeg>, positions: seq<nat>, seen: nat) {
    && Increasing(positions)
    && |sent| == |positions|
    && (forall i | 0 <= i < |positions| ::
          1 <= positions[i] <= |frames| && sent[i] == frames[positions[i] - 1])
    && seen == Wrapped(Last(positions))
  }

  /** A request is outstanding from when its byte is read until its reply is written. */
  function Outstanding(p: Phase): nat {
    if p.Acquiring? || Holding(p) || p.Writing? then 1 else 0
  }

  ghost predicate Balanced(c: Client) {
    && (if c.phase.Gone? || c.phase.Released? then c.replies <= c.requests <= c.replies + 1
        else c.requests == c.replies + Outstanding(c.phase))
    && |c.sent| <= c.replies + 1
    && (c.phase.Writing? ==> |c.sent| == c.replies + 1)
    && (c.phase.Gone? || c.phase.Released? || c.phase.Writing? || |c.sent| == c.replies)
  }

  /** A worker that left the waiting loop for a frame has found one it has not seen. */
  ghost predicate FreshFound(s: State, c: Client) {
    (c.phase.Copying? || (c.phase.LoopLeft? && s.running)) ==> s.generation != c.seen
  }

  function Live(clients: seq<Client>): nat {
    if clients == [] then 0
    else Live(clients[..|clients| - 1]) + (if clients[|clients| - 1].phase.Released? then 0 else 1)
  }

  /** The acceptor's own increment, before it becomes a worker's or is taken back. */
  function Transient(a: Acceptor): nat {
    if a.Admitted? || a.Refused? then 1 else 0
  }

  ghost predicate Slots(s: State) {
    && s.counter == Live(s.clients) + Transient(s.acceptor)
    && Live(s.clients) <= MAX_CLIENTS
    && (s.acceptor.Admitted? ==> Live(s.clients) < MAX_CLIENTS)
  }

  ghost predicate Locked(s: State) {
    && (s.holder.Some? ==> s.holder.value < |s.clients|)
    && forall i | 0 <= i < |s.clients| :: Holding(s.clients[i].phase) <==> s.holder == Some(i)
  }

  ghost predicate ClientInv(s: State, c: Client) {
    Delivered(s.frames, c.sent, c.positions, c.seen) && Balanced(c) && FreshFound(s, c)
  }

  ghost predicate Inv(s: State) {
    && Slots(s) && Locked(s) && Latest(s.frames, s.generation, s.jpeg)
    && forall i | 0 <= i < |s.clients| :: ClientInv(s, s.clients[i])
  }

  lemma {:induction false} LiveUpdate(clients: seq<Client>, id: nat, c: Client)
    requires id < |clients|
    ensures Live(clients[id := c]) + (if clients[id].phase.Released? then 0 else 1)
            == Live(clients) + (if c.phase.Released? then 0 else 1)
  {
    var longer := clients[id := c];
    if id == |clients| - 1 {
      assert longer[..|longer| - 1] == clients[..|clients| - 1];
    } else {
      LiveUpdate(clients[..|clients| - 1], id, c);
      assert longer[..|longer| - 1] == clients[..|clients| - 1][id := c];
    }
  }

  /** The branch for a missing frame is never taken: a worker that is about to copy finds one. */
  lemma FrameIsThere(s: State, c: Client)
    requires Latest(s.frames, s.generation, s.jpeg)
    requires Delivered(s.frames, c.sent, c.positions, c.seen) && s.generation != c.seen
    ensures s.jpeg.Some? && Reached(c) < |s.frames|
  {
    if c.positions != [] {
      assert c.positions[|c.positions| - 1] <= |s.frames|;
    }
  }

  lemma CopyKeepsClient(s: State, c: Client, meets: Meets)
    requires Latest(s.frames, s.generation, s.jpeg) && ClientInv(s, c) && c.phase.Copying?
    ensures ClientInv(s, NextClient(s, c, meets))
  {
    hide Wrapped;
    FrameIsThere(s, c);
    var c' := NextClient(s, c, meets);
    forall i, j | 0 <= i < j < |c'.positions| ensures c'.positions[i] < c'.positions[j] {
      if j == |c.positions| {
        assert c.positions[i] <= Reached(c);
      }
    }
  }

  lemma MoveKeepsClient(s: State, c: Client, meets: Meets)
    requires ClientInv(s, c) && !c.phase.Copying?
    ensures ClientInv(s, NextClient(s, c, meets))
  {
    hide Delivered;
  }

  lemma ClientStepKeepsClient(s: State, c: Client, meets: Meets)
    requires Latest(s.frames, s.generation, s.jpeg) && ClientInv(s, c)
    ensures ClientInv(s, NextClient(s, c, meets))
  {
    hide *;
    if c.phase.Copying? {
      CopyKeepsClient(s, c, meets);
    } else {
      MoveKeepsClient(s, c, meets);
    }
  }

  /** What is kept for a client does not depend on the parts of the state a client's step changes. */
  lemma ClientInvFrame(s: State, s': State, c: Client)
    requires ClientInv(s, c)
    requires s'.frames == s.frames && s'.generation == s.generation && (s'.running ==> s.running)
    ensures ClientInv(s', c)
  {
  }

  lemma ClientKeepsSlots(s: State, id: nat, meets: Meets)
    requires Slots(s) && Enabled(s, ClientStep(id, meets))
    ensures Slots(ApplyClient(s, id, meets))
  {
    LiveUpdate(s.clients, id, NextClient(s, s.clients[id], meets));
    hide Live;
  }

  lemma LockFollows(s: State, id: nat, meets: Meets)
    requires Locked(s) && Enabled(s, ClientStep(id, meets))
    ensures Locked(ApplyClient(s, id, meets))
    ensures NextClient(s, s.clients[id], meets).phase.Released? <==> s.clients[id].phase.Gone?
  {
  }

  lemma ClientKeepsInv(s: State, id: nat, meets: Meets)
    requires Inv(s) && Enabled(s, ClientStep(id, meets))
    ensures Inv(ApplyClient(s, id, meets))
  {
    var c := NextClient(s, s.clients[id], meets);
    ClientStepKeepsClient(s, s.clients[id], meets);
    ClientKeepsSlots(s, id, meets);
    LockFollows(s, id, meets);
    var s' := ApplyClient(s, id, meets);
    hide Wrapped, ClientInv, Slots, Locked, NextClient;
    forall i | 0 <= i < |s'.clients| ensures ClientInv(s', s'.clients[i]) {
      assert ClientInv(s, if i == id then c else s.clients[i]);
      ClientInvFrame(s, s', s'.clients[i]);
    }
  }

  lemma PublishKeepsClient(s: State, frame: Jpeg, c: Client)
    requires ClientInv(s, c) && !Holding(c.phase)
    ensures ClientInv(s.(frames := s.frames + [frame], generation := Wrapped(s.generation + 1),
                         jpeg := Some(frame)), c)
  {
  }

  lemma PublishKeepsInv(s: State, frame: Jpeg)
    requires Inv(s) && Enabled(s, Publish(frame))
    ensures Inv(Apply(s, Publish(frame)))
  {
    hide Wrapped, Live, ClientInv;
    WrappedNext(|s.frames|);
    forall i | 0 <= i < |s.clients| ensures ClientInv(Apply(s, Publish(frame)), s.clients[i]) {
      PublishKeepsClient(s, frame, s.clients[i]);
    }
  }

  lemma AcceptorKeepsSlots(s: State, ok: bool)
    requires Slots(s)
    ensures Slots(ApplyAcceptor(s, ok))
  {
    assert (s.clients + [NEW_CLIENT])[..|s.clients|] == s.clients;
  }

  lemma NewClientInv(s: State)
    ensures ClientInv(s, NEW_CLIENT)
  {
    WrappedNext(0);
    hide Wrapped;
  }

  lemma AcceptorKeepsLock(s: State, ok: bool)
    requires Locked(s)
    ensures Locked(ApplyAcceptor(s, ok))
  {
  }

  lemma AcceptorKeepsClients(s: State, ok: bool, i: nat)
    requires Inv(s) && i < |ApplyAcceptor(s, ok).clients|
    ensures ClientInv(ApplyAcceptor(s, ok), ApplyAcceptor(s, ok).clients[i])
  {
    NewClientInv(s);
    hide Slots, Locked, Latest, ClientInv;
    var s' := ApplyAcceptor(s, ok);
    assert i < |s.clients| ==> s'.clients[i] == s.clients[i];
    ClientInvFrame(s, s', s'.clients[i]);
  }

  lemma AcceptorKeepsFrames(s: State, ok: bool)
    ensures var s' := ApplyAcceptor(s, ok);
            s'.frames == s.frames && s'.generation == s.generation && s'.jpeg == s.jpeg
  {
  }

  lemma AcceptorKeepsInv(s: State, ok: bool)
    requires Inv(s)
    ensures Inv(ApplyAcceptor(s, ok))
  {
    AcceptorKeepsFrames(s, ok);
    hide Slots, Locked, ClientInv, Latest, ApplyAcceptor;
    AcceptorKeepsSlots(s, ok);
    AcceptorKeepsLock(s, ok);
    var s' := ApplyAcceptor(s, ok);
    forall i: nat | i < |s'.clients| ensures ClientInv(s', s'.clients[i]) {
      AcceptorKeepsClients(s, ok, i);
    }
  }

  lemma StepKeepsInv(s: State, step: Step)
    requires Inv(s) && Enabled(s, step)
    ensures Inv(Apply(s, step))
  {
    match step
    case Publish(frame) => PublishKeepsInv(s, frame);
    case AcceptorStep(ok) => AcceptorKeepsInv(s, ok);
    case ClientStep(id, meets) => ClientKeepsInv(s, id, meets);
    case Interrupt =>
      forall i | 0 <= i < |s.clients| ensures ClientInv(s.(running := false), s.clients[i]) {
        assert ClientInv(s, s.clients[i]);
      }
  }

  lemma {:induction false} RunKeepsInv(s: State, run: seq<Step>)
    requires Inv(s) && Legal(s, run)
    ensures Inv(After(s, run))
    decreases |run|
  {
    if run != [] {
      StepKeepsInv(s, run[0]);
      RunKeepsInv(Apply(s, run[0]), run[1..]);
    }
  }

  lemma StartInv()
    ensures Inv(INITIAL)
  {
    WrappedNext(0);
  }

  lemma InvFromStart(run: seq<Step>)
    requires Legal(INITIAL, run)
    ensures Inv(After(INITIAL, run))
  {
    StartInv();
    hide *;
    RunKeepsInv(INITIAL, run);
  }

  // ----- What holds in every interleaving -----

  /** Each connection is sent frames from the publication history in strictly increasing order, with
      none repeated, whatever the number of publications; every request read has its one reply
      written, unless it is being served or the worker has gone. */
  lemma FramesInOrder(run: seq<Step>, id: nat)
    requires Legal(INITIAL, run) && id < |After(INITIAL, run).clients|
    ensures var s := After(INITIAL, run);
            var c := s.clients[id];
            && Increasing(c.positions)
            && |c.sent| == |c.positions|
            && (forall i | 0 <= i < |c.sent| ::
                  1 <= c.positions[i] <= |s.frames| && c.sent[i] == s.frames[c.positions[i] - 1])
            && c.replies <= c.requests <= c.replies + 1
            && (c.phase.Checking? || c.phase.Reading? ==> c.requests == c.replies == |c.sent|)
  {
    InvFromStart(run);
    hide Legal, After, Wrapped, Live;
    assert ClientInv(After(INITIAL, run), After(INITIAL, run).clients[id]);
  }

  /** A copy takes the newest frame there is at that moment, which is newer than any sent before on
      the connection; no copy finds the frame missing. */
  lemma CopyTakesNewest(run: seq<Step>, id: nat, meets: Meets)
    requires Legal(INITIAL, run) && id < |After(INITIAL, run).clients|
    requires After(INITIAL, run).clients[id].phase.Copying?
    ensures var s := After(INITIAL, run);
            var c, c' := s.clients[id], Apply(s, ClientStep(id, meets)).clients[id];
            && s.frames != []
            && c'.phase.Writing?
            && c'.sent == c.sent + [s.frames[|s.frames| - 1]]
            && Reached(c) < |s.frames| == Reached(c')
  {
    InvFromStart(run);
    hide Legal, After, Wrapped, Live;
    var s := After(INITIAL, run);
    assert ClientInv(s, s.clients[id]);
    FrameIsThere(s, s.clients[id]);
  }

  /** A worker waits although there is a frame it has not sent exactly when the publications it has
      missed are a multiple of 2^64, so never in a run of fewer. */
  lemma WaitsInVain(run: seq<Step>, id: nat, meets: Meets)
    requires Legal(INITIAL, run) && id < |After(INITIAL, run).clients|
    requires After(INITIAL, run).clients[id].phase.Testing? && After(INITIAL, run).running
    ensures var s := After(INITIAL, run);
            var missed := |s.frames| - Reached(s.clients[id]);
            && missed >= 0
            && (Apply(s, ClientStep(id, meets)).clients[id].phase.Acquiring? <==> missed % WRAP == 0)
            && (|s.frames| < WRAP && missed > 0 ==>
                  Apply(s, ClientStep(id, meets)).clients[id].phase.LoopLeft?)
  {
    InvFromStart(run);
    hide Legal, After, Wrapped, Live;
    var s := After(INITIAL, run);
    assert ClientInv(s, s.clients[id]);
    var reached := Reached(s.clients[id]);
    if s.clients[id].positions != [] {
      assert reached <= |s.frames|;
    }
    SameWrap(reached, |s.frames|);
  }

  lemma {:induction false} Joined(s: State, a: seq<Step>, b: seq<Step>)
    requires Legal(s, a) && Legal(After(s, a), b)
    ensures Legal(s, a + b) && After(s, a + b) == After(After(s, a), b)
    decreases |a|
  {
    if a == [] {
      assert a + b == b;
    } else {
      Joined(Apply(s, a[0]), a[1..], b);
      hide Apply, Enabled;
      assert (a + b)[1..] == a[1..] + b;
    }
  }

  lemma Go(run: seq<Step>, step: Step) returns (longer: seq<Step>)
    requires Legal(INITIAL, run) && Enabled(After(INITIAL, run), step)
    ensures Legal(INITIAL, longer) && After(INITIAL, longer) == Apply(After(INITIAL, run), step)
  {
    hide Apply, Enabled;
    assert [step][1..] == [];
    assert Legal(After(INITIAL, run), [step]) && After(After(INITIAL, run), [step]) == Apply(After(INITIAL, run), step);
    Joined(INITIAL, run, [step]);
    longer := run + [step];
  }

  function Publishing(frame: Jpeg, n: nat): (steps: seq<Step>)
    ensures |steps| == n && forall i | 0 <= i < n :: steps[i] == Publish(frame)
  {
    seq(n, i => Publish(frame))
  }

  lemma WrappedTwice(generation: nat)
    ensures Wrapped(Wrapped(generation)) == Wrapped(generation)
  {
  }

  lemma WrappedSum(generation: nat, n: nat)
    ensures Wrapped(Wrapped(generation + 1) + n) == Wrapped(generation + 1 + n)
  {
  }

  /** Publishing `n` times while nobody holds the lock. */
  lemma {:induction false} PublishingRuns(s: State, frame: Jpeg, n: nat)
    requires s.holder.None? && s.generation == Wrapped(s.generation)
    ensures Legal(s, Publishing(frame, n))
    ensures var s' := After(s, Publishing(frame, n));
            && |s'.frames| == |s.frames| + n && s'.generation == Wrapped(s.generation + n)
            && s' == s.(frames := s'.frames, generation := s'.generation, jpeg := s'.jpeg)
    decreases n
  {
    hide Wrapped;
    if n > 0 {
      WrappedNext(s.generation);
      WrappedSum(s.generation, n - 1);
      assert Publishing(frame, n)[1..] == Publishing(frame, n - 1);
      WrappedTwice(s.generation + 1);
      PublishingRuns(Apply(s, Publish(frame)), frame, n - 1);
    }
  }

  /** One client is admitted. */
  lemma ClientArrives() returns (run: seq<Step>)
    ensures Legal(INITIAL, run)
    ensures After(INITIAL, run) == INITIAL.(counter := 1, clients := [NEW_CLIENT])
  {
    run := [];
    assert After(INITIAL, []) == INITIAL;
    hide Legal, After;
    run := Go(run, AcceptorStep(true));
    run := Go(run, AcceptorStep(true));
    run := Go(run, AcceptorStep(true));
    run := Go(run, AcceptorStep(true));
  }

  /** It sends a request and is about to take the lock. */
  lemma RequestArrives() returns (run: seq<Step>)
    ensures Legal(INITIAL, run)
    ensures After(INITIAL, run)
            == INITIAL.(counter := 1, clients := [NEW_CLIENT.(phase := Acquiring, requests := 1)])
  {
    run := ClientArrives();
    hide Legal, After;
    run := Go(run, ClientStep(0, Nothing));
    run := Go(run, ClientStep(0, Request));
  }

  lemma FullCircle()
    ensures Wrapped(0) == 0 && Wrapped(WRAP) == 0
  {
  }

  /** A run in which it happens: 2^64 frames are published between a worker's reading its first
      request and its taking the lock, and it waits on although it has sent none of them. */
  lemma CanWaitInVain(frame: Jpeg) returns (run: seq<Step>)
    ensures Legal(INITIAL, run)
    ensures var s := After(INITIAL, run);
            && s.running && |s.clients| == 1 && s.clients[0].phase.Testing?
            && |s.frames| == WRAP && Reached(s.clients[0]) == 0
            && Apply(s, ClientStep(0, Nothing)).clients[0].phase.Acquiring?
  {
    run := RequestArrives();
    FullCircle();
    var s := After(INITIAL, run);
    PublishingRuns(s, frame, WRAP);
    hide Legal, After, Wrapped;
    Joined(INITIAL, run, Publishing(frame, WRAP));
    run := run + Publishing(frame, WRAP);
    run := Go(run, ClientStep(0, Nothing));
  }

  /** At most four workers are ever unreleased; the counter is their number plus the acceptor's own
      increment, and a client is refused only when all four places are taken. */
  lemma SlotsAreCounted(run: seq<Step>, ok: bool)
    requires Legal(INITIAL, run)
    ensures var s := After(INITIAL, run);
            && Live(s.clients) <= MAX_CLIENTS
            && s.counter == Live(s.clients) + Transient(s.acceptor)
            && (s.acceptor.Accepted? ==>
                  (Apply(s, AcceptorStep(ok)).acceptor.Refused? <==> Live(s.clients) == MAX_CLIENTS))
  {
    InvFromStart(run);
    hide Legal, After, Wrapped, Live;
  }
}
