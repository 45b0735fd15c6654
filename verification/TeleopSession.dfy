/** The keyboard session (src/main.rs, `run_teleop_session`): when velocity is published, how fast
    the robot may be driven, and how long a key can outlive its last press. Instants are seconds;
    polls return on time and everything but saving a picture is instantaneous. */
module TeleopSession {
  import opened Base
  import opened Motion
  import opened Teleop

  const MIN_SPEED_SCALE := 0.25
  const SPEED_SCALE_STEP := 0.25

  datatype Args = Args(speeds: Planar, rate: real)

  /** What the command line is checked for before a session starts. */
  predicate Validated(a: Args) {
    && 0.0 < a.speeds.forward <= DEFAULT_LIMITS.forward.r
    && 0.0 < a.speeds.lateral <= DEFAULT_LIMITS.lateral.r
    && 0.0 < a.speeds.yaw <= DEFAULT_LIMITS.yaw.r
    && 1.0 <= a.rate <= 100.0
  }

  function Least(a: real, b: real): real {
    if a <= b then a else b
  }

  function Most(a: real, b: real): real {
    if a <= b then b else a
  }

  function MaximumSpeedScale(a: Args): real
    requires Validated(a)
  {
    Most(MIN_SPEED_SCALE,
         Least(Least(DEFAULT_LIMITS.forward.r / a.speeds.forward, DEFAULT_LIMITS.lateral.r / a.speeds.lateral),
               Least(DEFAULT_LIMITS.yaw.r / a.speeds.yaw, 100.0 / a.rate)))
  }

  function AdjustedSpeedScale(current: real, increase: bool, maximum: real): real
    requires MIN_SPEED_SCALE <= maximum
  {
    Clamp(current + (if increase then SPEED_SCALE_STEP else -SPEED_SCALE_STEP), MIN_SPEED_SCALE, maximum)
  }

  predicate SafeScale(a: Args, scale: real)
    requires Validated(a)
  {
    MIN_SPEED_SCALE <= scale <= MaximumSpeedScale(a)
  }

  lemma RatioBounds(x: real, limit: real, scale: real)
    requires 0.0 < x <= limit
    ensures limit / x >= 1.0
    ensures 0.0 < scale <= limit / x ==> 0.0 < x * scale <= limit
  {
    assert limit / x * x == limit;
    if 0.0 < scale <= limit / x {
      assert x * scale <= x * (limit / x);
    }
  }

  lemma LeastRatio(p: real, q: real, r: real, s: real)
    requires p >= 1.0 && q >= 1.0 && r >= 1.0 && s >= 1.0
    ensures var m := Most(MIN_SPEED_SCALE, Least(Least(p, q), Least(r, s)));
            1.0 <= m && m <= p && m <= q && m <= r && m <= s
  {
  }

  /** Full speed is permitted, and no axis or rate permits less than the maximum scale. */
  lemma MaximumScaleBounds(a: Args)
    requires Validated(a)
    ensures var m := MaximumSpeedScale(a);
            && 1.0 <= m && m <= DEFAULT_LIMITS.forward.r / a.speeds.forward
            && m <= DEFAULT_LIMITS.lateral.r / a.speeds.lateral
            && m <= DEFAULT_LIMITS.yaw.r / a.speeds.yaw && m <= 100.0 / a.rate
  {
    RatioBounds(a.speeds.forward, DEFAULT_LIMITS.forward.r, 1.0);
    RatioBounds(a.speeds.lateral, DEFAULT_LIMITS.lateral.r, 1.0);
    RatioBounds(a.speeds.yaw, DEFAULT_LIMITS.yaw.r, 1.0);
    RatioBounds(a.rate, 100.0, 1.0);
    LeastRatio(DEFAULT_LIMITS.forward.r / a.speeds.forward, DEFAULT_LIMITS.lateral.r / a.speeds.lateral,
               DEFAULT_LIMITS.yaw.r / a.speeds.yaw, 100.0 / a.rate);
  }

  lemma RateBounds(rate: real, scale: real)
    requires 1.0 <= rate && MIN_SPEED_SCALE <= scale
    ensures 0.25 <= rate * scale
  {
    assert 1.0 * scale <= rate * scale;
  }

  /** Every permitted scale keeps each axis within its limit and the rate within 100 Hz. */
  lemma SafeScaleRespectsLimits(a: Args, scale: real)
    requires Validated(a) && SafeScale(a, scale)
    ensures 0.0 < a.speeds.forward * scale <= DEFAULT_LIMITS.forward.r
    ensures 0.0 < a.speeds.lateral * scale <= DEFAULT_LIMITS.lateral.r
    ensures 0.0 < a.speeds.yaw * scale <= DEFAULT_LIMITS.yaw.r
    ensures 0.25 <= a.rate * scale <= 100.0
  {
    hide MaximumSpeedScale;
    MaximumScaleBounds(a);
    RatioBounds(a.speeds.forward, DEFAULT_LIMITS.forward.r, scale);
    RatioBounds(a.speeds.lateral, DEFAULT_LIMITS.lateral.r, scale);
    RatioBounds(a.speeds.yaw, DEFAULT_LIMITS.yaw.r, scale);
    RatioBounds(a.rate, 100.0, scale);
    RateBounds(a.rate, scale);
  }

  lemma RatioReached(x: real, limit: real, scale: real)
    requires 0.0 < x && x * scale <= limit
    ensures scale <= limit / x
  {
    var most := limit / x;
    assert most * x == limit;
    assert scale > most ==> x * scale > x * most;
  }

  lemma WithinLeast(scale: real, p: real, q: real, r: real, s: real)
    requires scale <= p && scale <= q && scale <= r && scale <= s
    ensures scale <= Most(MIN_SPEED_SCALE, Least(Least(p, q), Least(r, s)))
  {
  }

  lemma ScaleWithinRatios(a: Args, scale: real)
    requires Validated(a) && scale >= MIN_SPEED_SCALE
    requires a.speeds.forward * scale <= DEFAULT_LIMITS.forward.r
    requires a.speeds.lateral * scale <= DEFAULT_LIMITS.lateral.r
    requires a.speeds.yaw * scale <= DEFAULT_LIMITS.yaw.r
    requires a.rate * scale <= 100.0
    ensures SafeScale(a, scale)
  {
    RatioReached(a.speeds.forward, DEFAULT_LIMITS.forward.r, scale);
    RatioReached(a.speeds.lateral, DEFAULT_LIMITS.lateral.r, scale);
    RatioReached(a.speeds.yaw, DEFAULT_LIMITS.yaw.r, scale);
    RatioReached(a.rate, 100.0, scale);
    WithinLeast(scale, DEFAULT_LIMITS.forward.r / a.speeds.forward, DEFAULT_LIMITS.lateral.r / a.speeds.lateral,
                DEFAULT_LIMITS.yaw.r / a.speeds.yaw, 100.0 / a.rate);
  }

  /** The permitted scales are exactly those from 0.25 on that keep every axis and the rate within
      their limits. */
  lemma SafeScaleExactly(a: Args, scale: real)
    requires Validated(a)
    ensures SafeScale(a, scale)
            <==> && scale >= 0.25
                 && a.speeds.forward * scale <= 0.47
                 && a.speeds.lateral * scale <= 0.2
                 && a.speeds.yaw * scale <= 2.9
                 && a.rate * scale <= 100.0
  {
    var forward, lateral, yaw, rate :=
      a.speeds.forward * scale, a.speeds.lateral * scale, a.speeds.yaw * scale, a.rate * scale;
    if SafeScale(a, scale) {
      SafeScaleRespectsLimits(a, scale);
    } else if scale >= 0.25 && forward <= 0.47 && lateral <= 0.2 && yaw <= 2.9 && rate <= 100.0 {
      ScaleWithinRatios(a, scale);
    }
  }

  /** The keys among the inputs. */
  function Keys(inputs: seq<Input>): seq<KeyEvent> {
    if inputs == [] then []
    else
      var last := inputs[|inputs| - 1];
      Keys(inputs[..|inputs| - 1]) + (if last.KeyInput? then [last.event] else [])
  }

  lemma KeysAppend(inputs: seq<Input>, i: Input)
    ensures Keys(inputs + [i]) == Keys(inputs) + (if i.KeyInput? then [i.event] else [])
  {
    assert (inputs + [i])[..|inputs|] == inputs;
  }

  function NextScale(a: Args, scale: real, key: KeyEvent): real
    requires Validated(a)
  {
    if ActionOf(key) == Faster || ActionOf(key) == Slower
    then AdjustedSpeedScale(scale, ActionOf(key) == Faster, MaximumSpeedScale(a))
    else scale
  }

  /** The scale after any sequence of keys is within its bounds. */
  function ScaleAfter(a: Args, keys: seq<KeyEvent>): (scale: real)
    requires Validated(a)
    ensures SafeScale(a, scale)
  {
    if keys == [] then MaximumScaleBounds(a); Least(1.0, MaximumSpeedScale(a))
    else NextScale(a, ScaleAfter(a, keys[..|keys| - 1]), keys[|keys| - 1])
  }

  /** A session starts at full speed; pressing Up raises the scale by 0.25 as far as the maximum,
      pressing Down lowers it by 0.25 as far as 0.25, and nothing else changes it. */
  lemma ArrowsMoveScale(a: Args, scale: real, key: KeyEvent)
    requires Validated(a) && SafeScale(a, scale)
    ensures ScaleAfter(a, []) == 1.0
    ensures key.code == UpArrow && key.kind == Press ==>
              && NextScale(a, scale, key) == Least(scale + 0.25, MaximumSpeedScale(a))
              && (scale < MaximumSpeedScale(a) ==> scale < NextScale(a, scale, key))
    ensures key.code == DownArrow && key.kind == Press ==>
              && NextScale(a, scale, key) == Most(scale - 0.25, 0.25)
              && (0.25 < scale ==> NextScale(a, scale, key) < scale)
    ensures key.kind != Press || (key.code != UpArrow && key.code != DownArrow) ==>
              NextScale(a, scale, key) == scale
  {
    MaximumScaleBounds(a);
  }

  lemma ScaleAppend(a: Args, keys: seq<KeyEvent>, key: KeyEvent)
    requires Validated(a)
    ensures ScaleAfter(a, keys + [key]) == NextScale(a, ScaleAfter(a, keys), key)
  {
    assert (keys + [key])[..|keys|] == keys;
  }

  function Period(rate: real, scale: real): real
    requires rate * scale > 0.0
  {
    1.0 / (rate * scale)
  }

  lemma InverseBounds(frequency: real)
    requires 0.25 <= frequency <= 100.0
    ensures 0.01 <= 1.0 / frequency <= 4.0 && 1.0 / frequency * frequency == 1.0
  {
    assert 1.0 / frequency * frequency == 1.0;
  }

  lemma PeriodBounds(a: Args, scale: real)
    requires Validated(a) && SafeScale(a, scale)
    ensures a.rate * scale > 0.0 && 0.01 <= Period(a.rate, scale) <= 4.0
    ensures Period(a.rate, scale) * (a.rate * scale) == 1.0
  {
    hide SafeScale;
    SafeScaleRespectsLimits(a, scale);
    InverseBounds(a.rate * scale);
  }

  /** A twist sent at `at`, with the scale in force and the inputs handled until then; `stop` marks
      the ones sent to stop the robot whatever the keys say. */
  datatype Publication = Publication(at: real, twist: Twist, scale: real, inputs: seq<Input>, stop: bool)

  /** The velocity the keys ask for at an instant, by the specification that clears nothing lazily. */
  function Asked(a: Args, inputs: seq<Input>, reliable: bool, at: real, scale: real): Planar {
    Moving(Directions(k => SpecActive(SpecAfter(k, inputs, reliable), at)), a.speeds, scale)
  }

  /** What is published is a stop, or moves the robot exactly as the keys ask, unclamped. */
  ghost predicate Honest(a: Args, reliable: bool, p: Publication)
    requires Validated(a)
  {
    && SafeScale(a, p.scale)
    && Ordered(p.inputs, p.at)
    && if p.stop then p.twist == ZERO
       else var asked := Asked(a, p.inputs, reliable, p.at, p.scale);
            Applied(p.twist) == (asked.forward, asked.lateral, asked.yaw)
  }

  function Until(published: seq<Publication>, i: nat, now: real): real
    requires i < |published|
  {
    if i + 1 < |published| then published[i + 1].at else now
  }

  function PeriodOf(a: Args, scale: real): real
    requires Validated(a) && SafeScale(a, scale)
  {
    PeriodBounds(a, scale);
    Period(a.rate, scale)
  }

  /** Every twist that is not a stop is replaced within one period. */
  ghost predicate Paced(a: Args, published: seq<Publication>, now: real)
    requires Validated(a)
  {
    && (forall p | p in published :: SafeScale(a, p.scale))
    && forall i | 0 <= i < |published| && !published[i].stop ::
         published[i].at <= Until(published, i, now) <= published[i].at + PeriodOf(a, published[i].scale)
  }

  /** A period is what the scaled rate makes it. */
  lemma PeriodOfRate(a: Args, scale: real)
    requires Validated(a) && SafeScale(a, scale)
    ensures PeriodOf(a, scale) * (a.rate * scale) == 1.0
  {
    PeriodBounds(a, scale);
  }

  /** Whether Up or Down was pressed between two points of a run. */
  ghost predicate Rescaled(earlier: seq<Input>, later: seq<Input>) {
    exists i | |earlier| <= i < |later| ::
      later[i].KeyInput? && (ActionOf(later[i].event) == Faster || ActionOf(later[i].event) == Slower)
  }

  /** A full period has passed since the last twist by `next`, except after the stop that opens a
      session and after Up and Down, which publish at once. */
  ghost predicate Patient(a: Args, published: seq<Publication>, inputs: seq<Input>, next: real)
    requires Validated(a)
  {
    && published != []
    && var last := published[|published| - 1];
       && SafeScale(a, last.scale)
       && |last.inputs| <= |inputs|
       && (|published| == 1 || Rescaled(last.inputs, inputs) || last.at + PeriodOf(a, last.scale) <= next)
  }

  /** No twist but a stop comes early. */
  ghost predicate Unhurried(a: Args, published: seq<Publication>)
    requires Validated(a)
  {
    forall i | 0 < i < |published| && !published[i].stop ::
      Patient(a, published[..i], published[i].inputs, published[i].at)
  }

  lemma PatientLater(a: Args, published: seq<Publication>, inputs: seq<Input>, i: Input, next: real, later: real)
    requires Validated(a) && Patient(a, published, inputs, next) && next <= later
    ensures Patient(a, published, inputs + [i], later)
  {
    var last := published[|published| - 1];
    if Rescaled(last.inputs, inputs) {
      var j :| |last.inputs| <= j < |inputs| && inputs[j].KeyInput?
               && (ActionOf(inputs[j].event) == Faster || ActionOf(inputs[j].event) == Slower);
      assert (inputs + [i])[j] == inputs[j];
    }
  }

  lemma PatientRescaled(
      a: Args, published: seq<Publication>, inputs: seq<Input>, key: KeyEvent, at: real, next: real, sooner: real)
    requires Validated(a) && Patient(a, published, inputs, next)
    requires ActionOf(key) == Faster || ActionOf(key) == Slower
    ensures Patient(a, published, inputs + [KeyInput(key, at)], sooner)
  {
    assert (inputs + [KeyInput(key, at)])[|inputs|] == KeyInput(key, at);
  }

  lemma PatientSent(a: Args, published: seq<Publication>, p: Publication, next: real)
    requires Validated(a) && SafeScale(a, p.scale) && p.at + PeriodOf(a, p.scale) <= next
    ensures Patient(a, published + [p], p.inputs, next)
  {
  }

  lemma UnhurriedSend(a: Args, published: seq<Publication>, p: Publication)
    requires Validated(a) && Unhurried(a, published)
    requires p.stop || Patient(a, published, p.inputs, p.at)
    ensures Unhurried(a, published + [p])
  {
    hide Patient;
    var longer := published + [p];
    forall i | 0 < i < |longer| && !longer[i].stop
      ensures Patient(a, longer[..i], longer[i].inputs, longer[i].at)
    {
      assert longer[..i] == published[..i];
      assert longer[..|published|] == published;
    }
  }

  lemma PeriodOfPositive(a: Args, scale: real)
    requires Validated(a) && SafeScale(a, scale)
    ensures PeriodOf(a, scale) >= 0.0
  {
    PeriodBounds(a, scale);
  }

  lemma ScaledBounds(direction: int, speed: real, scale: real, limit: real)
    requires -1 <= direction <= 1 && 0.0 < speed * scale <= limit
    ensures -limit <= Scaled(direction, speed, scale) <= limit
  {
    if direction == 1 {
      assert Scaled(direction, speed, scale) == speed * scale;
    } else if direction == 0 {
      assert Scaled(direction, speed, scale) == 0.0;
    } else {
      assert Scaled(direction, speed, scale) == -(speed * scale);
    }
  }

  /** No clamp ever changes what the keys ask for. */
  lemma AskedIsSafe(a: Args, inputs: seq<Input>, reliable: bool, at: real, scale: real)
    requires Validated(a) && SafeScale(a, scale)
    ensures var asked := Asked(a, inputs, reliable, at, scale);
            WithinLimits((asked.forward, asked.lateral, asked.yaw), DEFAULT_LIMITS)
  {
    hide SafeScale, Scaled;
    SafeScaleRespectsLimits(a, scale);
    var directions := Directions(k => SpecActive(SpecAfter(k, inputs, reliable), at));
    ScaledBounds(directions.0, a.speeds.forward, scale, DEFAULT_LIMITS.forward.r);
    ScaledBounds(directions.1, a.speeds.lateral, scale, DEFAULT_LIMITS.lateral.r);
    ScaledBounds(directions.2, a.speeds.yaw, scale, DEFAULT_LIMITS.yaw.r);
  }

  /** The twist for what the keys ask. */
  function TwistOf(
      a: Args, ghost inputs: seq<Input>, reliable: bool, at: real, scale: real, v: Planar): (t: Twist)
    requires Validated(a) && SafeScale(a, scale) && Ordered(inputs, at)
    requires v == Asked(a, inputs, reliable, at, scale)
    ensures Honest(a, reliable, Publication(at, t, scale, inputs, false))
  {
    AskedIsSafe(a, inputs, reliable, at, scale);
    ToScoutTwistKeepsSafeVelocity(v.forward, v.lateral, v.yaw);
    ToScoutTwist(Velocity(Finite(v.forward), Finite(v.lateral), Finite(v.yaw)), DEFAULT_LIMITS).value
  }

  /** What can go wrong in a turn: polling or reading the keyboard, publishing, or the work on a
      picture or the display. */
  datatype Fault = NoFault | PollFails | SendFails | WorkFails

  /** One turn of the loop: the poll returns after `elapsed` or when it must, perhaps with a key;
      saving a picture takes a while. */
  datatype Turn = Turn(elapsed: real, key: Option<KeyEvent>, saving: real, fault: Fault)

  /** The key a turn meets, unless reading it fails. */
  function Heard(t: Turn): seq<KeyEvent> {
    if t.key.Some? && !t.fault.PollFails? then [t.key.value] else []
  }

  /** Whether handling a key ends the session. */
  predicate KeyEnds(key: KeyEvent, fault: Fault) {
    match ActionOf(key)
    case Exit => true
    case Capture => fault.SendFails? || fault.WorkFails?
    case Stay => false
    case _ => fault.WorkFails?
  }

  predicate MustEnd(t: Turn) {
    t.fault.PollFails? || (t.key.Some? && KeyEnds(t.key.value, t.fault))
  }

  /** What ends a session: the keyboard failing, Escape or Ctrl-C, a picture that cannot be preceded
      by a stop or saved, or the display failing at a change of scale. */
  lemma MustEndExactly(t: Turn)
    ensures MustEnd(t) <==>
              || t.fault == PollFails
              || (t.key.Some?
                  && var key := t.key.value;
                     || (key.control && (key.code == Character('c') || key.code == Character('C')))
                     || (key.code == Escape && key.kind != Release)
                     || (key.code == Character(' ') && key.kind == Press && t.fault in {SendFails, WorkFails})
                     || ((key.code == UpArrow || key.code == DownArrow) && key.kind == Press && t.fault == WorkFails))
  {
  }

  /** None of the first `n` turns has to end the session. */
  ghost predicate GoesOn(turns: seq<Turn>, n: int)
    requires n <= |turns|
  {
    forall i | 0 <= i < n :: !MustEnd(turns[i])
  }

  /** The session takes `n` turns: none of them but the last has to end it, and if there are more the
      last ended it, by a key or a failure. */
  ghost predicate Takes(turns: seq<Turn>, n: nat) {
    && n <= |turns|
    && GoesOn(turns, n - 1)
    && (n < |turns| ==> n > 0 && (MustEnd(turns[n - 1]) || turns[n - 1].fault.SendFails?))
  }

  /** The keys of all the turns. */
  function AllHeard(turns: seq<Turn>): seq<KeyEvent> {
    if turns == [] then [] else AllHeard(turns[..|turns| - 1]) + Heard(turns[|turns| - 1])
  }

  lemma HeardSoFar(turns: seq<Turn>, i: nat, keys: seq<KeyEvent>)
    requires i < |turns|
    ensures keys + AllHeard(turns[..i + 1]) == keys + AllHeard(turns[..i]) + Heard(turns[i])
  {
    hide Heard;
    assert turns[..i + 1][..i] == turns[..i];
  }

  ghost predicate Extends(earlier: seq<Publication>, later: seq<Publication>) {
    earlier <= later
  }

  lemma ExtendsOn(a: seq<Publication>, b: seq<Publication>, c: seq<Publication>)
    requires Extends(a, b) && b <= c
    ensures Extends(a, c)
  {
  }

  lemma TakesTurn(turns: seq<Turn>, n: nat, over: bool)
    requires n < |turns| && GoesOn(turns, n)
    requires MustEnd(turns[n]) ==> over
    requires over ==> MustEnd(turns[n]) || turns[n].fault.SendFails?
    ensures over ==> Takes(turns, n + 1)
    ensures !over ==> GoesOn(turns, n + 1)
  {
    hide MustEnd;
  }

  lemma TakesAll(turns: seq<Turn>)
    ensures GoesOn(turns, 0)
    ensures GoesOn(turns, |turns|) ==> Takes(turns, |turns|)
  {
    hide MustEnd;
  }

  lemma AfterAppend(inputs: seq<Input>, i: Input, reliable: bool)
    ensures After(inputs + [i], reliable) == Step(After(inputs, reliable), i, reliable)
    ensures forall now :: Ordered(inputs + [i], now) <==> i.at <= now && Ordered(inputs, i.at)
  {
    assert (inputs + [i])[..|inputs|] == inputs;
  }

  lemma OrderedLater(inputs: seq<Input>, before: real, now: real)
    requires Ordered(inputs, before) && before <= now
    ensures Ordered(inputs, now)
  {
  }

  lemma PacedLater(a: Args, published: seq<Publication>, before: real, now: real)
    requires Validated(a) && Paced(a, published, before) && published != [] && before <= now
    requires var last := published[|published| - 1];
             last.stop || now <= last.at + PeriodOf(a, last.scale)
    ensures Paced(a, published, now)
  {
  }

  lemma PacedSend(a: Args, published: seq<Publication>, p: Publication)
    requires Validated(a) && Paced(a, published, p.at) && SafeScale(a, p.scale)
    ensures Paced(a, published + [p], p.at)
  {
    PeriodBounds(a, p.scale);
    var longer := published + [p];
    forall i | 0 <= i < |published| && !published[i].stop
      ensures Until(longer, i, p.at) == Until(published, i, p.at)
    {
    }
  }

  /** What the control computes is what the specification asks for. */
  lemma AskedByKeys(a: Args, h: Holds, inputs: seq<Input>, reliable: bool, now: real, scale: real)
    requires h == After(inputs, reliable) && Ordered(inputs, now)
    ensures Moving(Directions(k => Active(Get(h, k), now)), a.speeds, scale)
            == Asked(a, inputs, reliable, now, scale)
  {
    forall k: Key ensures Active(Get(h, k), now) == SpecActive(SpecAfter(k, inputs, reliable), now) {
      LazyRefinesSpec(k, inputs, reliable, now);
    }
  }

  lemma SpecIgnoresLastPoll(a: Args, inputs: seq<Input>, now: real, reliable: bool, scale: real)
    ensures Asked(a, inputs + [Poll(now)], reliable, now, scale) == Asked(a, inputs, reliable, now, scale)
  {
    forall k: Key
      ensures SpecAfter(k, inputs + [Poll(now)], reliable) == SpecAfter(k, inputs, reliable)
    {
      assert (inputs + [Poll(now)])[..|inputs|] == inputs;
    }
  }

  class Session {
    const args: Args
    const control: TeleopControl
    var now: real
    var nextPublish: real
    var scale: real
    ghost var inputs: seq<Input>
    ghost var published: seq<Publication>

    /** What holds throughout: the history of what was published is honest and on time. */
    ghost predicate Sound()
      reads this, control
    {
      && Validated(args)
      && SafeScale(args, scale)
      && Ordered(inputs, now)
      && control.State() == After(inputs, control.reliable)
      && (forall p | p in published :: Honest(args, control.reliable, p))
      && Paced(args, published, now) && Unhurried(args, published)
      && published != []
      && published[|published| - 1].at <= now
    }

    /** The next publication comes within a period of the last, unless the robot is stopped. */
    ghost predicate OnSchedule()
      requires Sound()
      reads this, control
    {
      var last := published[|published| - 1];
      last.stop || (last.scale == scale && nextPublish <= last.at + PeriodOf(args, scale))
    }

    /** The scale is the one the keys so far ask for. */
    ghost predicate InScale()
      requires Validated(args)
      reads this
    {
      scale == ScaleAfter(args, Keys(inputs))
    }

    ghost predicate Valid()
      reads this, control
    {
      && Sound() && InScale() && now <= nextPublish && OnSchedule()
      && Patient(args, published, inputs, nextPublish)
    }

    constructor (args: Args, reliable: bool, start: real)
      requires Validated(args)
      ensures Valid() && fresh(control) && control.reliable == reliable
      ensures this.args == args && now == start && inputs == []
      ensures published == [Publication(start, ZERO, scale, [], true)]
    {
      this.args := args;
      control := new TeleopControl(reliable);
      now, nextPublish := start, start;
      scale := Least(1.0, MaximumSpeedScale(args));
      inputs := [];
      published := [Publication(start, ZERO, Least(1.0, MaximumSpeedScale(args)), [], true)];
      MaximumScaleBounds(args);
    }

    /** When the poll returns that might return after `elapsed`: never past the next publication. */
    function PollEnd(elapsed: real): (end: real)
      requires Valid()
      reads this, control
      ensures now <= end <= nextPublish
      ensures 0.0 <= elapsed && now + elapsed <= nextPublish && elapsed <= PeriodOf(args, scale) ==>
                end == now + elapsed
      ensures elapsed >= PeriodOf(args, scale) ==> end == Least(nextPublish, now + PeriodOf(args, scale))
    {
      PeriodOfPositive(args, scale);
      now + Least(Least(nextPublish - now, PeriodOf(args, scale)), Most(0.0, elapsed))
    }

    /** Time passes while the poll waits. */
    method Wait(elapsed: real)
      requires Valid()
      modifies this`now
      ensures Valid() && now == old(PollEnd(elapsed))
    {
      hide Honest, Asked, Paced, After, Ordered, SafeScale, Keys, ScaleAfter, PeriodOf, PollEnd;
      ghost var before := now;
      now := PollEnd(elapsed);
      OrderedLater(inputs, before, now);
      PacedLater(args, published, before, now);
    }

    method Send(twist: Twist, ghost stop: bool)
      requires Sound() && Honest(args, control.reliable, Publication(now, twist, scale, inputs, stop))
      requires stop || Patient(args, published, inputs, now)
      modifies this`published
      ensures Sound()
      ensures published == old(published) + [Publication(now, twist, scale, inputs, stop)]
    {
      hide Asked, Unhurried, Paced, Patient, After, Ordered;
      PacedSend(args, published, Publication(now, twist, scale, inputs, stop));
      UnhurriedSend(args, published, Publication(now, twist, scale, inputs, stop));
      published := published + [Publication(now, twist, scale, inputs, stop)];
    }

    method Stop()
      requires Sound()
      modifies this`published
      ensures Sound()
      ensures published == old(published) + [Publication(now, ZERO, scale, inputs, true)]
    {
      Send(ZERO, true);
    }

    method ClearKeys()
      requires Sound()
      modifies this`inputs, control
      ensures Sound() && inputs == old(inputs) + [ClearAll(now)]
      ensures Keys(inputs) == old(Keys(inputs))
    {
      KeysAppend(inputs, ClearAll(now));
      hide SafeScale, Honest, Paced, Keys;
      control.Clear();
      AfterAppend(inputs, ClearAll(now), control.reliable);
      inputs := inputs + [ClearAll(now)];
    }

    /** The robot is stopped before the slow work of saving a picture. */
    method TakePicture(saving: real, period: real, fault: Fault) returns (over: bool)
      requires Sound() && period == PeriodOf(args, scale)
      modifies this, control
      ensures Sound() && now >= old(now) && scale == old(scale)
      ensures over <==> fault.SendFails? || fault.WorkFails?
      ensures !over ==> OnSchedule() && nextPublish == now + period
      ensures !over ==> Patient(args, published, inputs, nextPublish)
      ensures inputs == old(inputs) + [ClearAll(old(now))] && Keys(inputs) == old(Keys(inputs))
      ensures published == old(published) + [Publication(old(now), ZERO, scale, inputs, true)]
    {
      hide SafeScale, Paced, After, Ordered, Keys, Asked;
      ClearKeys();
      Stop();
      hide Honest;
      if fault.SendFails? {
        return true;
      }
      ghost var before := now;
      now := now + Most(0.0, saving);
      OrderedLater(inputs, before, now);
      PacedLater(args, published, before, now);
      if fault.WorkFails? {
        return true;
      }
      nextPublish := now + period;
      over := false;
    }

    method Rescale(increase: bool)
      requires Sound()
      modifies this`scale, this`nextPublish
      ensures Sound() && nextPublish == now
      ensures scale == AdjustedSpeedScale(old(scale), increase, MaximumSpeedScale(args))
    {
      hide MaximumSpeedScale, Asked, PeriodOf;
      scale := AdjustedSpeedScale(scale, increase, MaximumSpeedScale(args));
      nextPublish := now;
    }

    /** The control takes note of a key. */
    method Note(key: KeyEvent) returns (action: Action)
      requires Sound() && InScale() && Patient(args, published, inputs, nextPublish)
      modifies this`inputs, control
      ensures Sound() && action == ActionOf(key)
      ensures Patient(args, published, inputs, nextPublish)
      ensures action == Faster || action == Slower ==> Patient(args, published, inputs, now)
      ensures inputs == old(inputs) + [KeyInput(key, now)]
      ensures Keys(inputs) == old(Keys(inputs)) + [key]
      ensures ScaleAfter(args, Keys(inputs)) == NextScale(args, scale, key)
      ensures old(OnSchedule()) ==> OnSchedule()
    {
      hide SafeScale, MaximumSpeedScale, ActionOf, Handled, Keys, ScaleAfter, NextScale, Honest, Paced, After, Ordered;
      KeysAppend(inputs, KeyInput(key, now));
      ScaleAppend(args, Keys(inputs), key);
      PatientLater(args, published, inputs, KeyInput(key, now), nextPublish, nextPublish);
      if ActionOf(key) == Faster || ActionOf(key) == Slower {
        PatientRescaled(args, published, inputs, key, now, nextPublish, now);
      }
      hide Patient, Unhurried;
      action := control.HandleKey(key, now);
      AfterAppend(inputs, KeyInput(key, now), control.reliable);
      inputs := inputs + [KeyInput(key, now)];
    }

    /** A key is handled; the result tells whether the session ends. */
    method Handle(key: KeyEvent, saving: real, fault: Fault) returns (over: bool)
      requires Valid()
      modifies this, control
      ensures Sound() && InScale() && (over || now >= nextPublish || OnSchedule()) && old(now) <= now
      ensures over || Patient(args, published, inputs, nextPublish)
      ensures over <==> KeyEnds(key, fault)
      ensures Keys(inputs) == old(Keys(inputs)) + [key]
      ensures inputs == old(inputs) + [KeyInput(key, old(now))]
                        + (if ActionOf(key) == Capture then [ClearAll(old(now))] else [])
      ensures published == old(published)
                           + (if ActionOf(key) == Capture
                              then [Publication(old(now), ZERO, scale, inputs, true)] else [])
    {
      var period := PeriodOf(args, scale);
      PeriodOfPositive(args, scale);
      hide MaximumSpeedScale, AdjustedSpeedScale, ActionOf, Keys, ScaleAfter, PeriodOf, SafeScale;
      assert Validated(args);
      hide Sound, OnSchedule;
      var action := Note(key);
      over := false;
      match action {
        case Stay =>
        case Exit => over := true;
        case Capture => over := TakePicture(saving, period, fault);
        case Faster =>
          Rescale(true);
          over := fault.WorkFails?;
        case Slower =>
          Rescale(false);
          over := fault.WorkFails?;
      }
    }

    /** The velocity the held keys ask for; asking clears what has expired. */
    method AskKeys() returns (v: Planar)
      requires Sound()
      modifies this`inputs, control
      ensures Sound() && inputs == old(inputs) + [Poll(now)] && Keys(inputs) == old(Keys(inputs))
      ensures v == Asked(args, inputs, control.reliable, now, scale)
    {
      KeysAppend(inputs, Poll(now));
      hide SafeScale, Honest, Paced, Asked, Moving, Keys;
      AskedByKeys(args, control.State(), inputs, control.reliable, now, scale);
      v := control.Velocity(now, args.speeds, scale);
      SpecIgnoresLastPoll(args, inputs, now, control.reliable, scale);
      AfterAppend(inputs, Poll(now), control.reliable);
      inputs := inputs + [Poll(now)];
    }

    /** What the keys ask for is sent, a period or more after the last twist. */
    method SendAsked()
      requires Sound() && Patient(args, published, inputs + [Poll(now)], now)
      modifies this`inputs, this`published, control
      ensures Sound() && inputs == old(inputs) + [Poll(now)] && Keys(inputs) == old(Keys(inputs))
      ensures exists twist :: published == old(published) + [Publication(now, twist, scale, inputs, false)]
    {
      hide SafeScale, Honest, Paced, Asked, After, Ordered, ToScoutTwist, Keys, Patient, Unhurried;
      var v := AskKeys();
      var twist := TwistOf(args, inputs, control.reliable, now, scale, v);
      Send(twist, false);
    }

    /** Velocity is published when it is due; the session ends if that fails. */
    method PublishIfDue(fault: Fault) returns (over: bool)
      requires Sound() && InScale() && (now >= nextPublish || OnSchedule())
      requires Patient(args, published, inputs, nextPublish)
      modifies this, control
      ensures Sound() && InScale() && Keys(inputs) == old(Keys(inputs)) && now == old(now) && scale == old(scale)
      ensures over <==> old(now >= nextPublish) && fault.SendFails?
      ensures !over ==> Valid()
      ensures if old(now >= nextPublish)
              then inputs == old(inputs) + [Poll(now)]
                   && exists twist ::
                        published == old(published) + [Publication(now, twist, scale, inputs, false)]
              else inputs == old(inputs) && published == old(published)
    {
      hide SafeScale, Honest, Paced, After, Ordered, Keys, ScaleAfter, Patient, Unhurried;
      if now >= nextPublish {
        PatientLater(args, published, inputs, Poll(now), nextPublish, now);
        ghost var before := published;
        SendAsked();
        if fault.SendFails? {
          return true;
        }
        PeriodBounds(args, scale);
        nextPublish := now + Period(args.rate, scale);
        PatientSent(args, before, published[|published| - 1], nextPublish);
      }
      over := false;
    }

    /** One turn of the loop. */
    method TakeTurn(t: Turn) returns (over: bool)
      requires Valid()
      modifies this, control
      ensures Sound() && InScale() && old(now) <= now && old(published) <= published
      ensures MustEnd(t) ==> over
      ensures over ==> MustEnd(t) || t.fault.SendFails?
      ensures Keys(inputs) == old(Keys(inputs)) + Heard(t)
      ensures !over ==> Valid()
    {
      hide Keys, ScaleAfter, KeyEnds;
      Wait(t.elapsed);
      if t.fault.PollFails? {
        return true;
      }
      if t.key.Some? {
        over := Handle(t.key.value, t.saving, t.fault);
        if over {
          return;
        }
      }
      over := PublishIfDue(t.fault);
    }

    /** The loop, until an exit key, a failure or the running flag ends it after `n` turns. */
    method Loop(turns: seq<Turn>) returns (ghost n: nat)
      requires Valid()
      modifies this, control
      ensures Sound() && InScale() && old(now) <= now && Extends(old(published), published)
      ensures Takes(turns, n) && n <= |turns| && Keys(inputs) == old(Keys(inputs)) + AllHeard(turns[..n])
    {
      assert Validated(args) && Sound() && InScale() && Extends(published, published) && AllHeard(turns[..0]) == [];
      TakesAll(turns);
      hide Keys, MustEnd, Heard, GoesOn, Takes, Valid, Sound, InScale, AllHeard, Extends;
      n := 0;
      for i := 0 to |turns|
        invariant n == i && Valid() && Sound() && InScale() && old(now) <= now && Extends(old(published), published)
        invariant Keys(inputs) == old(Keys(inputs)) + AllHeard(turns[..i])
        invariant GoesOn(turns, i)
      {
        ghost var before := published;
        var over := TakeTurn(turns[i]);
        ExtendsOn(old(published), before, published);
        HeardSoFar(turns, i, old(Keys(inputs)));
        TakesTurn(turns, i, over);
        n := n + 1;
        if over {
          return;
        }
      }
    }

    /** A session: the loop, and the stop sent when it is over, whatever ended it. */
    method Run(turns: seq<Turn>) returns (ghost n: nat)
      requires Valid()
      modifies this, control
      ensures Sound() && InScale() && old(now) <= now && old(published) <= published
      ensures Takes(turns, n) && n <= |turns| && Keys(inputs) == old(Keys(inputs)) + AllHeard(turns[..n])
      ensures published[|published| - 1] == Publication(now, ZERO, scale, inputs, true)
    {
      n := Loop(turns);
      assert Validated(args);
      hide Keys, ScaleAfter, Takes, Sound;
      Stop();
    }
  }

  /** A sound session holds its rate: between two twists that are not stops, unless Up or Down was
      pressed in between, lies exactly one period of the scaled rate. */
  lemma SessionHoldsItsRate(session: Session, i: nat)
    requires session.Sound()
    requires 0 < i < |session.published| - 1
    requires !session.published[i].stop && !session.published[i + 1].stop
    requires !Rescaled(session.published[i].inputs, session.published[i + 1].inputs)
    ensures SafeScale(session.args, session.published[i].scale)
    ensures session.published[i + 1].at
            == session.published[i].at + PeriodOf(session.args, session.published[i].scale)
  {
    hide Honest, SafeScale, After, Ordered, Rescaled, PeriodOf;
    var earlier, next := session.published[..i + 1], session.published[i + 1];
    assert earlier[i] == session.published[i];
    assert Patient(session.args, earlier, next.inputs, next.at);
    assert Until(session.published, i, session.now) == next.at;
  }

  /** While a twist to which a key contributes is in force, the key's last press or repeat is less
      than its hold time plus one publish period old, and no period is over 4 s. */
  lemma KeysLeaveInTime(
      a: Args, reliable: bool, published: seq<Publication>, now: real, i: nat, instant: real,
      k: Key, before: seq<Input>, last: Input, later: seq<Input>)
    requires Validated(a) && Paced(a, published, now)
    requires i < |published| && Honest(a, reliable, published[i]) && !published[i].stop
    requires published[i].at <= instant <= Until(published, i, now)
    requires published[i].inputs == before + [last] + later
    requires IsRefresh(last, k) && forall input | input in later :: !IsRefresh(input, k)
    requires SpecActive(SpecAfter(k, published[i].inputs, reliable), published[i].at)
    ensures var repeated := last.event.kind.Repeat? || SpecActive(SpecAfter(k, before, reliable), last.at);
            && instant < last.at + (if reliable then 3.0 else if repeated then 0.35 else 1.1)
                         + PeriodOf(a, published[i].scale)
            && PeriodOf(a, published[i].scale) <= 4.0
            && forall input | input in later :: !Ends(input, k)
  {
    PeriodBounds(a, published[i].scale);
    hide SafeScale, Asked;
    SpecAfterLastRefresh(k, before, last, later, reliable);
  }

  /** So it is with everything a session publishes. */
  lemma SessionKeysLeaveInTime(
      session: Session, i: nat, instant: real, k: Key, before: seq<Input>, last: Input, later: seq<Input>)
    requires session.Sound()
    requires i < |session.published| && !session.published[i].stop
    requires session.published[i].at <= instant <= Until(session.published, i, session.now)
    requires session.published[i].inputs == before + [last] + later
    requires IsRefresh(last, k) && forall input | input in later :: !IsRefresh(input, k)
    requires var p := session.published[i]; SpecActive(SpecAfter(k, p.inputs, session.control.reliable), p.at)
    ensures var reliable := session.control.reliable;
            var repeated := last.event.kind.Repeat? || SpecActive(SpecAfter(k, before, reliable), last.at);
            var period := PeriodOf(session.args, session.published[i].scale);
            && instant < last.at + (if reliable then 3.0 else if repeated then 0.35 else 1.1) + period
            && period <= 4.0
    ensures forall input | input in later :: !Ends(input, k)
  {
    hide Honest, Paced, SafeScale, After, Ordered, SpecAfter;
    assert session.published[i] in session.published;
    KeysLeaveInTime(session.args, session.control.reliable, session.published, session.now, i, instant,
                    k, before, last, later);
  }
}
