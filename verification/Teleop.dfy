/** Held movement keys (src/main.rs, `TeleopControl`). Expired holds are cleared only when velocity
    is asked for; this module shows that nobody can tell. Instants are seconds. */
module Teleop {
  import opened Base

  const INITIAL_REPEAT_GRACE := 1.1
  const REPEAT_DEADMAN := 0.35
  const KEY_RELEASE_DEADMAN := 3.0

  datatype Key = Forward | Reverse | StrafeLeft | StrafeRight | TurnLeft | TurnRight

  datatype Kind = Press | Repeat | Release

  datatype Code = Character(c: char) | Escape | UpArrow | DownArrow | OtherCode

  datatype KeyEvent = KeyEvent(code: Code, control: bool, kind: Kind)

  datatype Action = Stay | Capture | Faster | Slower | Exit

  datatype KeyHold = KeyHold(pressed: bool, deadline: Option<real>)

  const RELEASED := KeyHold(false, None)

  datatype Holds = Holds(
    forward: KeyHold, reverse: KeyHold, strafeLeft: KeyHold, strafeRight: KeyHold,
    turnLeft: KeyHold, turnRight: KeyHold)

  const NOTHING_HELD := Holds(RELEASED, RELEASED, RELEASED, RELEASED, RELEASED, RELEASED)

  function Get(h: Holds, k: Key): KeyHold {
    match k
    case Forward => h.forward case Reverse => h.reverse
    case StrafeLeft => h.strafeLeft case StrafeRight => h.strafeRight
    case TurnLeft => h.turnLeft case TurnRight => h.turnRight
  }

  function Put(h: Holds, k: Key, hold: KeyHold): Holds {
    match k
    case Forward => h.(forward := hold) case Reverse => h.(reverse := hold)
    case StrafeLeft => h.(strafeLeft := hold) case StrafeRight => h.(strafeRight := hold)
    case TurnLeft => h.(turnLeft := hold) case TurnRight => h.(turnRight := hold)
  }

  function KeyOf(c: char): Option<Key> {
    match c
    case 'w' => Some(Forward) case 'W' => Some(Forward)
    case 's' => Some(Reverse) case 'S' => Some(Reverse)
    case 'a' => Some(StrafeLeft) case 'A' => Some(StrafeLeft)
    case 'd' => Some(StrafeRight) case 'D' => Some(StrafeRight)
    case 'q' => Some(TurnLeft) case 'Q' => Some(TurnLeft)
    case 'e' => Some(TurnRight) case 'E' => Some(TurnRight)
    case _ => None
  }

  function Quits(e: KeyEvent): bool {
    (e.control && e.code.Character? && (e.code.c == 'c' || e.code.c == 'C'))
    || (!e.kind.Release? && e.code.Escape?)
  }

  /** What an event asks of the session. */
  function ActionOf(e: KeyEvent): Action {
    if Quits(e) then Exit
    else if !e.kind.Press? then Stay
    else match e.code
      case Character(c) => if c == ' ' then Capture else Stay
      case UpArrow => Faster
      case DownArrow => Slower
      case _ => Stay
  }

  /** The key an event presses or repeats ... */
  function Refreshes(e: KeyEvent): Option<Key> {
    if Quits(e) || e.kind.Release? || !e.code.Character? then None else KeyOf(e.code.c)
  }

  /** ... or releases. */
  function Releases(e: KeyEvent): Option<Key> {
    if Quits(e) || !e.kind.Release? || !e.code.Character? then None else KeyOf(e.code.c)
  }

  /** Whether a press or repeat at `now` counts as a repeat, given the deadline the key had. */
  function IsRepeat(kind: Kind, deadline: Option<real>, now: real): bool {
    kind.Repeat? || (deadline.Some? && deadline.value > now)
  }

  function HoldTime(reliable: bool, repeated: bool): real {
    if reliable then KEY_RELEASE_DEADMAN
    else if repeated then REPEAT_DEADMAN
    else INITIAL_REPEAT_GRACE
  }

  function Refreshed(hold: KeyHold, kind: Kind, now: real, reliable: bool): KeyHold {
    KeyHold(true, Some(now + HoldTime(reliable, IsRepeat(kind, hold.deadline, now))))
  }

  function Handled(h: Holds, e: KeyEvent, now: real, reliable: bool): Holds {
    if Refreshes(e).Some? then
      var k := Refreshes(e).value;
      Put(h, k, Refreshed(Get(h, k), e.kind, now, reliable))
    else if Releases(e).Some? then Put(h, Releases(e).value, RELEASED)
    else h
  }

  predicate Active(hold: KeyHold, now: real) {
    hold.pressed && (hold.deadline.None? || hold.deadline.value > now)
  }

  function Polled(hold: KeyHold, now: real): KeyHold {
    if Active(hold, now) then hold else RELEASED
  }

  function PolledAll(h: Holds, now: real): Holds {
    Holds(Polled(h.forward, now), Polled(h.reverse, now), Polled(h.strafeLeft, now),
          Polled(h.strafeRight, now), Polled(h.turnLeft, now), Polled(h.turnRight, now))
  }

  function Sign(positive: bool, negative: bool): int {
    (if positive then 1 else 0) - (if negative then 1 else 0)
  }

  /** The direction asked for on the three axes. */
  function Directions(active: Key -> bool): (int, int, int) {
    (Sign(active(Forward), active(Reverse)), Sign(active(StrafeLeft), active(StrafeRight)),
     Sign(active(TurnLeft), active(TurnRight)))
  }

  function Scaled(direction: int, speed: real, scale: real): real {
    direction as real * speed * scale
  }

  /** Velocities in metres and radians per second. */
  datatype Planar = Planar(forward: real, lateral: real, yaw: real)

  function Moving(directions: (int, int, int), speeds: Planar, scale: real): Planar {
    Planar(Scaled(directions.0, speeds.forward, scale),
           Scaled(directions.1, speeds.lateral, scale),
           Scaled(directions.2, speeds.yaw, scale))
  }

  class TeleopControl {
    var forward: KeyHold
    var reverse: KeyHold
    var strafeLeft: KeyHold
    var strafeRight: KeyHold
    var turnLeft: KeyHold
    var turnRight: KeyHold
    const reliable: bool

    function State(): Holds
      reads this
    {
      Holds(forward, reverse, strafeLeft, strafeRight, turnLeft, turnRight)
    }

    constructor (reliable: bool)
      ensures State() == NOTHING_HELD && this.reliable == reliable
    {
      forward, reverse, strafeLeft, strafeRight := RELEASED, RELEASED, RELEASED, RELEASED;
      turnLeft, turnRight := RELEASED, RELEASED;
      this.reliable := reliable;
    }

    method Store(k: Key, hold: KeyHold)
      modifies this
      ensures State() == Put(old(State()), k, hold)
    {
      match k {
        case Forward => forward := hold;
        case Reverse => reverse := hold;
        case StrafeLeft => strafeLeft := hold;
        case StrafeRight => strafeRight := hold;
        case TurnLeft => turnLeft := hold;
        case TurnRight => turnRight := hold;
      }
    }

    method Refresh(k: Key, kind: Kind, now: real)
      modifies this
      ensures State() == Put(old(State()), k, Refreshed(Get(old(State()), k), kind, now, reliable))
    {
      if reliable {
        Store(k, KeyHold(true, Some(now + KEY_RELEASE_DEADMAN)));
        return;
      }
      var current := Get(State(), k).deadline;
      var isRepeat := kind == Repeat || (current.Some? && current.value > now);
      var timeout := if isRepeat then REPEAT_DEADMAN else INITIAL_REPEAT_GRACE;
      Store(k, KeyHold(true, Some(now + timeout)));
    }

    method HandleKey(e: KeyEvent, now: real) returns (action: Action)
      modifies this
      ensures action == ActionOf(e)
      ensures action == Exit
              <==> (e.control && (e.code == Character('c') || e.code == Character('C')))
                   || (e.code == Escape && e.kind != Release)
      ensures action == Capture <==> e.code == Character(' ') && e.kind == Press
      ensures action == Faster <==> e.code == UpArrow && e.kind == Press
      ensures action == Slower <==> e.code == DownArrow && e.kind == Press
      ensures State() == Handled(old(State()), e, now, reliable)
    {
      if e.control && e.code.Character? && (e.code.c == 'c' || e.code.c == 'C') {
        return Exit;
      }
      if e.kind == Press || e.kind == Repeat {
        match e.code {
          case Escape => return Exit;
          case UpArrow =>
            if e.kind == Press { return Faster; }
          case DownArrow =>
            if e.kind == Press { return Slower; }
          case Character(c) =>
            if c == ' ' && e.kind == Press {
              return Capture;
            }
            if KeyOf(c).Some? {
              Refresh(KeyOf(c).value, e.kind, now);
            }
          case OtherCode =>
        }
      } else if e.code.Character? && KeyOf(e.code.c).Some? {
        Store(KeyOf(e.code.c).value, RELEASED);
      }
      action := Stay;
    }

    method IsActive(k: Key, now: real) returns (active: bool)
      modifies this
      ensures active == Active(Get(old(State()), k), now)
      ensures State() == Put(old(State()), k, Polled(Get(old(State()), k), now))
    {
      var hold := Get(State(), k);
      if hold.pressed && (hold.deadline.None? || hold.deadline.value > now) {
        return true;
      }
      Store(k, RELEASED);
      active := false;
    }

    method Velocity(now: real, speeds: Planar, scale: real) returns (v: Planar)
      modifies this
      ensures v == Moving(Directions(k => Active(Get(old(State()), k), now)), speeds, scale)
      ensures State() == PolledAll(old(State()), now)
    {
      ghost var h := State();
      var ahead := IsActive(Forward, now);
      var back := IsActive(Reverse, now);
      var left := IsActive(StrafeLeft, now);
      var right := IsActive(StrafeRight, now);
      var turningLeft := IsActive(TurnLeft, now);
      var turningRight := IsActive(TurnRight, now);
      v := Planar(Scaled(Sign(ahead, back), speeds.forward, scale),
                  Scaled(Sign(left, right), speeds.lateral, scale),
                  Scaled(Sign(turningLeft, turningRight), speeds.yaw, scale));
    }

    method Clear()
      modifies this
      ensures State() == NOTHING_HELD
    {
      forward, reverse, strafeLeft, strafeRight := RELEASED, RELEASED, RELEASED, RELEASED;
      turnLeft, turnRight := RELEASED, RELEASED;
    }
  }

  // ----- Runs of the control, and a specification that never clears anything lazily -----

  datatype Input =
    | KeyInput(event: KeyEvent, at: real)
    | Poll(at: real)
    | ClearAll(at: real)

  function Step(h: Holds, i: Input, reliable: bool): Holds {
    match i
    case KeyInput(event, at) => Handled(h, event, at, reliable)
    case Poll(at) => PolledAll(h, at)
    case ClearAll(_) => NOTHING_HELD
  }

  /** The holds after a run of inputs. */
  function After(inputs: seq<Input>, reliable: bool): Holds {
    if inputs == [] then NOTHING_HELD
    else Step(After(inputs[..|inputs| - 1], reliable), inputs[|inputs| - 1], reliable)
  }

  /** The specification keeps one deadline, if any, for each key. A poll does nothing to it. */
  function SpecStep(k: Key, deadline: Option<real>, i: Input, reliable: bool): Option<real> {
    match i
    case Poll(_) => deadline
    case ClearAll(_) => None
    case KeyInput(event, at) =>
      if Refreshes(event) == Some(k) then
        Some(at + HoldTime(reliable, IsRepeat(event.kind, deadline, at)))
      else if Releases(event) == Some(k) then None
      else deadline
  }

  function SpecAfter(k: Key, inputs: seq<Input>, reliable: bool): Option<real> {
    if inputs == [] then None
    else SpecStep(k, SpecAfter(k, inputs[..|inputs| - 1], reliable), inputs[|inputs| - 1], reliable)
  }

  predicate SpecActive(deadline: Option<real>, now: real) {
    deadline.Some? && deadline.value > now
  }

  /** Times never run backwards, and `now` is not before any of them. */
  predicate Ordered(inputs: seq<Input>, now: real) {
    inputs == []
    || (inputs[|inputs| - 1].at <= now && Ordered(inputs[..|inputs| - 1], inputs[|inputs| - 1].at))
  }

  /** A hold agrees with the specified deadline, or was cleared once that had passed. */
  predicate Agrees(hold: KeyHold, deadline: Option<real>, now: real) {
    if hold.pressed then hold.deadline.Some? && hold.deadline == deadline
    else hold == RELEASED && !SpecActive(deadline, now)
  }

  lemma HandledAt(k: Key, h: Holds, e: KeyEvent, now: real, reliable: bool)
    ensures Get(Handled(h, e, now, reliable), k)
            == if Refreshes(e) == Some(k) then Refreshed(Get(h, k), e.kind, now, reliable)
               else if Releases(e) == Some(k) then RELEASED
               else Get(h, k)
  {
    hide Refreshed;
    assert Refreshes(e).Some? ==> Releases(e).None?;
    hide Refreshes, Releases;
  }

  lemma PolledAt(k: Key, h: Holds, now: real)
    ensures Get(PolledAll(h, now), k) == Polled(Get(h, k), now)
  {
    hide Polled;
  }

  lemma StepAgrees(k: Key, h: Holds, deadline: Option<real>, i: Input, reliable: bool)
    requires Agrees(Get(h, k), deadline, i.at)
    ensures Agrees(Get(Step(h, i, reliable), k), SpecStep(k, deadline, i, reliable), i.at)
  {
    hide Handled, PolledAll, Refreshes, Releases;
    match i
    case KeyInput(event, at) => HandledAt(k, h, event, at, reliable);
    case Poll(at) => PolledAt(k, h, at);
    case ClearAll(_) =>
  }

  /** The implementation refines the specification: for every run of inputs in order of time each
      key agrees with its specified deadline, so a pressed key always has one. */
  lemma {:induction false} LazyRefinesSpec(k: Key, inputs: seq<Input>, reliable: bool, now: real)
    requires Ordered(inputs, now)
    ensures Agrees(Get(After(inputs, reliable), k), SpecAfter(k, inputs, reliable), now)
  {
    if inputs != [] {
      var i := inputs[|inputs| - 1];
      LazyRefinesSpec(k, inputs[..|inputs| - 1], reliable, i.at);
      StepAgrees(k, After(inputs[..|inputs| - 1], reliable),
                 SpecAfter(k, inputs[..|inputs| - 1], reliable), i, reliable);
    }
  }

  /** The inputs other than polls. */
  function WithoutPolls(inputs: seq<Input>): seq<Input> {
    if inputs == [] then []
    else
      var earlier, last := WithoutPolls(inputs[..|inputs| - 1]), inputs[|inputs| - 1];
      if last.Poll? then earlier else earlier + [last]
  }

  lemma {:induction false} SpecIgnoresPolls(k: Key, inputs: seq<Input>, reliable: bool)
    ensures SpecAfter(k, inputs, reliable) == SpecAfter(k, WithoutPolls(inputs), reliable)
  {
    if inputs != [] {
      var earlier, last := inputs[..|inputs| - 1], inputs[|inputs| - 1];
      SpecIgnoresPolls(k, earlier, reliable);
      if !last.Poll? {
        var rest := WithoutPolls(earlier) + [last];
        assert rest[..|rest| - 1] == WithoutPolls(earlier);
      }
    }
  }

  /** Inserting or deleting polls changes no later velocity and no later press/repeat decision. */
  lemma PollsAreInvisible(a: seq<Input>, b: seq<Input>, reliable: bool, now: real)
    requires Ordered(a, now) && Ordered(b, now) && WithoutPolls(a) == WithoutPolls(b)
    ensures forall k: Key ::
              Active(Get(After(a, reliable), k), now) == Active(Get(After(b, reliable), k), now)
    ensures forall k: Key, kind: Kind ::
              IsRepeat(kind, Get(After(a, reliable), k).deadline, now)
              == IsRepeat(kind, Get(After(b, reliable), k).deadline, now)
  {
    forall k: Key
      ensures Active(Get(After(a, reliable), k), now) == Active(Get(After(b, reliable), k), now)
      ensures forall kind: Kind ::
                IsRepeat(kind, Get(After(a, reliable), k).deadline, now)
                == IsRepeat(kind, Get(After(b, reliable), k).deadline, now)
    {
      LazyRefinesSpec(k, a, reliable, now);
      LazyRefinesSpec(k, b, reliable, now);
      SpecIgnoresPolls(k, a, reliable);
      SpecIgnoresPolls(k, b, reliable);
    }
  }

  // ----- What the keys mean -----

  /** The letters of a key. */
  function Letters(k: Key): string {
    match k
    case Forward => "wW" case Reverse => "sS"
    case StrafeLeft => "aA" case StrafeRight => "dD"
    case TurnLeft => "qQ" case TurnRight => "eE"
  }

  /** A key is pressed by its letters, and released by them, whatever else is going on. */
  lemma KeysByLetter(e: KeyEvent, k: Key)
    ensures Refreshes(e) == Some(k)
            <==> e.code.Character? && e.code.c in Letters(k) && e.kind != Release
    ensures Releases(e) == Some(k)
            <==> e.code.Character? && e.code.c in Letters(k) && e.kind == Release
  {
    if e.code.Character? {
      assert e.code.c in Letters(k) <==> e.code.c == Letters(k)[0] || e.code.c == Letters(k)[1];
    }
  }

  /** The velocity one letter asks for, given the speed on each axis: ahead, to the left and turning
      left are positive. */
  function Wanted(c: char, speeds: Planar): Planar {
    if c == 'w' || c == 'W' then Planar(speeds.forward, 0.0, 0.0)
    else if c == 's' || c == 'S' then Planar(-speeds.forward, 0.0, 0.0)
    else if c == 'a' || c == 'A' then Planar(0.0, speeds.lateral, 0.0)
    else if c == 'd' || c == 'D' then Planar(0.0, -speeds.lateral, 0.0)
    else if c == 'q' || c == 'Q' then Planar(0.0, 0.0, speeds.yaw)
    else if c == 'e' || c == 'E' then Planar(0.0, 0.0, -speeds.yaw)
    else Planar(0.0, 0.0, 0.0)
  }

  /** Pressed with nothing else held, each letter drives the robot its way for at least 1.1 s, and
      its release takes that away. */
  lemma LettersSteer(c: char, reliable: bool, at: real, now: real, speeds: Planar, scale: real)
    requires at <= now < at + 1.1
    ensures var held := Handled(NOTHING_HELD, KeyEvent(Character(c), false, Press), at, reliable);
            && Moving(Directions(k => Active(Get(held, k), now)), speeds, scale)
               == Wanted(c, Planar(speeds.forward * scale, speeds.lateral * scale, speeds.yaw * scale))
            && Handled(held, KeyEvent(Character(c), false, Release), now, reliable) == NOTHING_HELD
  {
  }

  /** A press or repeat counts as a repeat exactly when the terminal says so or the key is still in
      force. */
  lemma RepeatMeansStillHeld(k: Key, inputs: seq<Input>, kind: Kind, reliable: bool, now: real)
    requires Ordered(inputs, now)
    ensures var hold := Get(After(inputs, reliable), k);
            IsRepeat(kind, hold.deadline, now) <==> kind.Repeat? || Active(hold, now)
  {
    LazyRefinesSpec(k, inputs, reliable, now);
  }

  // ----- How long a key stays in force -----

  predicate IsRefresh(i: Input, k: Key) {
    i.KeyInput? && Refreshes(i.event) == Some(k)
  }

  predicate Ends(i: Input, k: Key) {
    i.ClearAll? || (i.KeyInput? && Releases(i.event) == Some(k))
  }

  lemma SpecAppend(k: Key, inputs: seq<Input>, i: Input, reliable: bool)
    ensures SpecAfter(k, inputs + [i], reliable) == SpecStep(k, SpecAfter(k, inputs, reliable), i, reliable)
  {
    assert (inputs + [i])[..|inputs|] == inputs;
    hide SpecStep;
  }

  lemma OneMoreInput(k: Key, inputs: seq<Input>, i: Input)
    ensures (exists j | j in inputs + [i] :: Ends(j, k)) <==> (exists j | j in inputs :: Ends(j, k)) || Ends(i, k)
    ensures (forall j | j in inputs + [i] :: !IsRefresh(j, k))
            <==> (forall j | j in inputs :: !IsRefresh(j, k)) && !IsRefresh(i, k)
  {
    hide Ends, IsRefresh;
    assert i in inputs + [i] && forall j | j in inputs :: j in inputs + [i];
  }

  lemma SpecUntouched(k: Key, deadline: Option<real>, i: Input, reliable: bool)
    requires !IsRefresh(i, k)
    ensures SpecStep(k, deadline, i, reliable) == if Ends(i, k) then None else deadline
  {
    hide Refreshes, Releases;
  }

  /** The specified deadline after the last refresh of a key: set by it, gone once ended. */
  lemma {:induction false} SpecAfterLastRefresh(
      k: Key, before: seq<Input>, last: Input, later: seq<Input>, reliable: bool)
    requires IsRefresh(last, k) && forall i | i in later :: !IsRefresh(i, k)
    ensures var deadline := last.at
              + HoldTime(reliable, IsRepeat(last.event.kind, SpecAfter(k, before, reliable), last.at));
            SpecAfter(k, before + [last] + later, reliable)
            == if exists i | i in later :: Ends(i, k) then None else Some(deadline)
    decreases |later|
  {
    if later == [] {
      SpecAppend(k, before, last, reliable);
      assert before + [last] + [] == before + [last];
    } else {
      var earlier, i := later[..|later| - 1], later[|later| - 1];
      assert later == earlier + [i];
      OneMoreInput(k, earlier, i);
      hide HoldTime, IsRepeat, Ends, IsRefresh;
      SpecAfterLastRefresh(k, before, last, earlier, reliable);
      SpecAppend(k, before + [last] + earlier, i, reliable);
      assert before + [last] + later == before + [last] + earlier + [i];
      SpecUntouched(k, SpecAfter(k, before + [last] + earlier, reliable), i, reliable);
      hide SpecAfter, SpecStep;
    }
  }

  lemma {:induction false} OrderedPrefix(before: seq<Input>, last: Input, later: seq<Input>, now: real)
    requires Ordered(before + [last] + later, now)
    ensures Ordered(before, last.at) && last.at <= now
  {
    var all := before + [last] + later;
    if later == [] {
      assert all[..|all| - 1] == before;
    } else {
      assert all[..|all| - 1] == before + [last] + later[..|later| - 1];
      OrderedPrefix(before, last, later[..|later| - 1], all[|all| - 1].at);
    }
  }

  /** After its last press or repeat at `last.at` a key contributes exactly until it is released or
      everything is cleared, or the hold time of that press has passed: 3 s with key-up events, and
      otherwise 0.35 s if it counted as a repeat and 1.1 s if not. */
  lemma HoldEndsOnTime(k: Key, before: seq<Input>, last: Input, later: seq<Input>, reliable: bool, now: real)
    requires IsRefresh(last, k) && forall i | i in later :: !IsRefresh(i, k)
    requires Ordered(before + [last] + later, now)
    ensures var repeated :=
              last.event.kind.Repeat? || Active(Get(After(before, reliable), k), last.at);
            Active(Get(After(before + [last] + later, reliable), k), now)
            <==> !(exists i | i in later :: Ends(i, k))
                 && now < last.at + (if reliable then 3.0 else if repeated then 0.35 else 1.1)
  {
    LazyRefinesSpec(k, before + [last] + later, reliable, now);
    SpecAfterLastRefresh(k, before, last, later, reliable);
    OrderedPrefix(before, last, later, now);
    LazyRefinesSpec(k, before, reliable, last.at);
  }

  /** No hold ever lasts longer than its mode allows. */
  lemma {:induction false} DeadlineBound(k: Key, inputs: seq<Input>, reliable: bool, now: real)
    requires Ordered(inputs, now) && SpecAfter(k, inputs, reliable).Some?
    ensures SpecAfter(k, inputs, reliable).value <= now + HoldTime(reliable, false)
  {
    var earlier, last := inputs[..|inputs| - 1], inputs[|inputs| - 1];
    if !IsRefresh(last, k) {
      DeadlineBound(k, earlier, reliable, last.at);
    }
  }

  /** Whether pressing or repeating a key at `now` brings its deadline forward. */
  predicate Shortens(hold: KeyHold, kind: Kind, now: real, reliable: bool) {
    hold.deadline.Some? && Refreshed(hold, kind, now, reliable).deadline.value < hold.deadline.value
  }

  /** Deadlines do not always grow: a press or repeat brings the deadline of its key forward exactly
      when key-up events are not to be had and more than the time of a repeat was left. */
  lemma {:induction false} RefreshShortensExactly(k: Key, inputs: seq<Input>, kind: Kind, reliable: bool, now: real)
    requires Ordered(inputs, now)
    ensures var hold := Get(After(inputs, reliable), k);
            Shortens(hold, kind, now, reliable)
            <==> !reliable && hold.deadline.Some? && hold.deadline.value > now + REPEAT_DEADMAN
  {
    LazyRefinesSpec(k, inputs, reliable, now);
    if SpecAfter(k, inputs, reliable).Some? {
      DeadlineBound(k, inputs, reliable, now);
    }
  }

  /** The same in terms of what was pressed: it happens exactly when the key's last press was an
      initial one, not since ended, less than 0.75 s ago. */
  lemma RefreshShortensAfterPress(
      k: Key, before: seq<Input>, last: Input, later: seq<Input>, kind: Kind, reliable: bool, now: real)
    requires IsRefresh(last, k) && forall i | i in later :: !IsRefresh(i, k)
    requires Ordered(before + [last] + later, now)
    ensures var repeated :=
              last.event.kind.Repeat? || Active(Get(After(before, reliable), k), last.at);
            Shortens(Get(After(before + [last] + later, reliable), k), kind, now, reliable)
            <==> !reliable && !repeated
                 && !(exists i | i in later :: Ends(i, k))
                 && now < last.at + 0.75
  {
    var all := before + [last] + later;
    RefreshShortensExactly(k, all, kind, reliable, now);
    LazyRefinesSpec(k, all, reliable, now);
    SpecAfterLastRefresh(k, before, last, later, reliable);
    OrderedPrefix(before, last, later, now);
    LazyRefinesSpec(k, before, reliable, last.at);
  }

  /** A run in which it happens. */
  lemma RepeatCanShorten(k: Key, press: KeyEvent)
    requires Refreshes(press) == Some(k) && press.kind == Press
    ensures var one := [KeyInput(press, 0.0)];
            var two := one + [KeyInput(press, 0.25)];
            Active(Get(After(one, false), k), 0.75) && !Active(Get(After(two, false), k), 0.75)
  {
    var one := [KeyInput(press, 0.0)];
    var two := one + [KeyInput(press, 0.25)];
    assert After(one[..0], false) == NOTHING_HELD && two[..1] == one;
    assert After(one, false) == Step(NOTHING_HELD, one[0], false);
    assert After(two, false) == Step(After(one, false), two[1], false);
  }
}
