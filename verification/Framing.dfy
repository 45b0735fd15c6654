/** Newline framing of the control connection (src/integration_bridge.rs): the server reads chunks
    of at most 1024 bytes and must handle the same lines however the stream is cut. */
module Framing {
  import opened Base

  const NEWLINE: Byte := 10
  const MAX_LINE := 4096
  const READ_BUFFER := 1024

  ghost predicate NoNewline(s: Bytes) {
    forall i | 0 <= i < |s| :: s[i] != NEWLINE
  }

  function Position(s: Bytes): (r: Option<nat>)
    ensures r.Some? ==> r.value < |s| && s[r.value] == NEWLINE
    ensures r.Some? ==> forall i | 0 <= i < r.value :: s[i] != NEWLINE
    ensures r.None? ==> NoNewline(s)
  {
    Index(s, NEWLINE)
  }

  /** One complete line: its only newline ends it, and it is within the limit. */
  ghost predicate IsLine(line: Bytes) {
    && 0 < |line| <= MAX_LINE
    && line[|line| - 1] == NEWLINE
    && forall i | 0 <= i < |line| - 1 :: line[i] != NEWLINE
  }

  /** The whole stream cut at its newlines: the lines before the first one over the limit, what is
      left after them, and whether such a line was met. */
  datatype Split = Split(lines: seq<Bytes>, rest: Bytes, tooLong: bool)

  function Prepend(lines: seq<Bytes>, s: Split): Split {
    s.(lines := lines + s.lines)
  }

  function SplitStream(s: Bytes): Split
    decreases |s|
  {
    match Position(s)
    case None => Split([], s, |s| > MAX_LINE)
    case Some(n) =>
      if n + 1 > MAX_LINE then Split([], s, true)
      else Prepend([s[..n + 1]], SplitStream(s[n + 1..]))
  }

  lemma PositionAt(s: Bytes, n: nat)
    requires n < |s| && s[n] == NEWLINE && forall i | 0 <= i < n :: s[i] != NEWLINE
    ensures Position(s) == Some(n)
  {
    IndexAt(s, NEWLINE, n);
  }

  /** A line at the front is the first line found. */
  lemma LineComesFirst(line: Bytes, rest: Bytes)
    requires IsLine(line)
    ensures SplitStream(line + rest) == Prepend([line], SplitStream(rest))
  {
    PositionAt(line + rest, |line| - 1);
    assert (line + rest)[..|line|] == line && (line + rest)[|line|..] == rest;
  }

  /** Nothing is found where no line ends within the limit. */
  lemma NoLineFirst(s: Bytes)
    requires |s| > MAX_LINE && forall i | 0 <= i < MAX_LINE :: s[i] != NEWLINE
    ensures SplitStream(s) == Split([], s, true)
  {
    var p := Position(s);
    assert p.Some? ==> p.value >= MAX_LINE;
  }

  /** What a stream that starts with neither a line nor too long a line looks like. */
  lemma Cases(s: Bytes)
    ensures match Position(s)
            case None => NoNewline(s)
            case Some(n) =>
              if n + 1 > MAX_LINE then |s| > MAX_LINE && forall i | 0 <= i < MAX_LINE :: s[i] != NEWLINE
              else IsLine(s[..n + 1]) && s == s[..n + 1] + s[n + 1..]
  {
  }

  /** What is left by a cutting: an unfinished line within the limit, or too long a line. */
  ghost predicate Leftover(r: Split) {
    if r.tooLong then |r.rest| > MAX_LINE && forall i | 0 <= i < MAX_LINE :: r.rest[i] != NEWLINE
    else |r.rest| <= MAX_LINE && NoNewline(r.rest)
  }

  lemma LosesNothingAfter(line: Bytes, tail: Split, rest: Bytes)
    requires Concat(tail.lines) + tail.rest == rest
    ensures Concat(Prepend([line], tail).lines) + Prepend([line], tail).rest == line + rest
  {
    ConcatFirst(line, tail.lines);
    assert line + Concat(tail.lines) + tail.rest == line + (Concat(tail.lines) + tail.rest);
  }

  /** Cutting loses nothing ... */
  lemma {:induction false} SplitLosesNothing(s: Bytes)
    ensures Concat(SplitStream(s).lines) + SplitStream(s).rest == s
    decreases |s|
  {
    Cases(s);
    if Position(s).Some? && Position(s).value < MAX_LINE {
      var line, rest := s[..Position(s).value + 1], s[Position(s).value + 1..];
      SplitLosesNothing(rest);
      LosesNothingAfter(line, SplitStream(rest), rest);
    }
  }

  /** ... and every piece is a line. */
  lemma {:induction false} SplitYieldsLines(s: Bytes)
    ensures forall line | line in SplitStream(s).lines :: IsLine(line)
    ensures Leftover(SplitStream(s))
    decreases |s|
  {
    Cases(s);
    if Position(s).Some? && Position(s).value < MAX_LINE {
      SplitYieldsLines(s[Position(s).value + 1..]);
    }
  }

  lemma PrependTwice(a: seq<Bytes>, b: seq<Bytes>, s: Split)
    ensures Prepend(a, Prepend(b, s)) == Prepend(a + b, s)
  {
  }

  /** It is the only such cutting: lines laid end to end are found again, whatever follows. */
  lemma {:induction false} SplitInvertsConcat(lines: seq<Bytes>, rest: Bytes)
    requires forall line | line in lines :: IsLine(line)
    ensures SplitStream(Concat(lines) + rest) == Prepend(lines, SplitStream(rest))
  {
    hide SplitStream, IsLine;
    if lines == [] {
      assert Concat(lines) + rest == rest;
      assert Prepend(lines, SplitStream(rest)) == SplitStream(rest);
    } else {
      var first, others := lines[0], lines[1..];
      var s := Concat(others) + rest;
      calc {
        SplitStream(Concat(lines) + rest);
        { assert Concat(lines) + rest == first + s; }
        SplitStream(first + s);
        { LineComesFirst(first, s); }
        Prepend([first], SplitStream(s));
        { SplitInvertsConcat(others, rest); }
        Prepend([first], Prepend(others, SplitStream(rest)));
        { PrependTwice([first], others, SplitStream(rest)); assert [first] + others == lines; }
        Prepend(lines, SplitStream(rest));
      }
    }
  }

  lemma SplitResumes(a: Bytes, b: Bytes)
    ensures SplitStream(a + b) == Prepend(SplitStream(a).lines, SplitStream(SplitStream(a).rest + b))
  {
    var lines, rest := SplitStream(a).lines, SplitStream(a).rest;
    SplitLosesNothing(a);
    SplitYieldsLines(a);
    assert a + b == Concat(lines) + (rest + b);
    SplitInvertsConcat(lines, rest + b);
  }

  /** The chunk law: reading `b` after `a` continues from what `a` left, and nothing follows a line
      that is too long. */
  lemma SplitContinues(a: Bytes, b: Bytes)
    ensures var r, whole := SplitStream(a), SplitStream(a + b);
            if r.tooLong then whole.tooLong && whole.lines == r.lines
            else whole == Prepend(r.lines, SplitStream(r.rest + b))
  {
    SplitResumes(a, b);
    SplitYieldsLines(a);
    if SplitStream(a).tooLong {
      NoLineFirst(SplitStream(a).rest + b);
    }
  }

  // ----- The server's side of one control connection -----

  /** One turn of the read loop: the running flag seen down, a read that timed out or failed, or a
      chunk, empty at the end of the stream. */
  datatype Turn = FlagDown | Quiet | Broken | Chunk(bytes: Bytes)

  datatype Ending =
    | FlagSeenDown | ReadFailed | EndOfStream | WriteFailed
    | NoNewlineInLimit | LineOverLimit | RemainderOverLimit | StillOpen

  /** The bytes handed over before the loop has a reason of its own to end. */
  function Received(turns: seq<Turn>): Bytes {
    if turns == [] then []
    else match turns[0]
      case Quiet => Received(turns[1..])
      case Chunk(bytes) => if bytes == [] then [] else bytes + Received(turns[1..])
      case _ => []
  }

  /** Why the loop ends if no line is over the limit and every message is taken. */
  function Stops(turns: seq<Turn>): Ending {
    if turns == [] then StillOpen
    else match turns[0]
      case FlagDown => FlagSeenDown
      case Broken => ReadFailed
      case Quiet => Stops(turns[1..])
      case Chunk(bytes) => if bytes == [] then EndOfStream else Stops(turns[1..])
  }

  function Replies<R>(lines: seq<Bytes>, reply: Bytes -> R): (r: seq<R>)
    ensures |r| == |lines| && forall i | 0 <= i < |lines| :: r[i] == reply(lines[i])
  {
    seq(|lines|, i requires 0 <= i < |lines| => reply(lines[i]))
  }

  /** Every message the server owes for a stream: one reply for each line in order, then one
      complaint if a line was over the limit. */
  function Owed<R>(s: Split, reply: Bytes -> R, complaint: R): seq<R> {
    Replies(s.lines, reply) + (if s.tooLong then [complaint] else [])
  }

  /** The peer stops accepting messages after `capacity` of them. */
  function Taken<R>(messages: seq<R>, capacity: nat): seq<R> {
    messages[..Min(|messages|, capacity)]
  }

  lemma OwedFirst<R>(lines: seq<Bytes>, s: Split, reply: Bytes -> R, complaint: R)
    ensures Owed(Prepend(lines, s), reply, complaint) == Replies(lines, reply) + Owed(s, reply, complaint)
  {
  }

  /** What is left between reads: no newline, and not too much. */
  ghost predicate Ready(pending: Bytes) {
    NoNewline(pending) && |pending| <= MAX_LINE
  }

  lemma ReadyOwesNothing<R>(pending: Bytes, reply: Bytes -> R, complaint: R)
    requires Ready(pending)
    ensures SplitStream(pending + []) == Split([], pending, false)
    ensures Owed(SplitStream(pending + []), reply, complaint) == []
  {
    assert pending + [] == pending;
  }

  /** The drain loop: complete lines leave the front of `input` and are answered in order. It stops
      early when a message cannot be written or a line is over the limit. Only the part of `input`
      from `kept` on is new. */
  method Drain<R>(input: Bytes, ghost kept: nat, reply: Bytes -> R, complaint: R, capacity: nat)
    returns (pending: Bytes, written: seq<R>, ending: Ending)
    requires kept <= |input| <= kept + READ_BUFFER && forall i | 0 <= i < kept :: input[i] != NEWLINE
    requires NoNewline(input) ==> |input| <= MAX_LINE
    ensures var s := SplitStream(input);
            match ending
            case WriteFailed =>
              |Owed(s, reply, complaint)| > capacity && written == Taken(Owed(s, reply, complaint), capacity)
            case LineOverLimit =>
              s.tooLong && written == Owed(s, reply, complaint) && |written| <= capacity
            case StillOpen =>
              && pending == s.rest && Ready(pending) && !s.tooLong
              && written == Owed(s, reply, complaint) && |written| <= capacity
            case _ => false
  {
    hide SplitStream;
    pending, written := input, [];
    ghost var lines: seq<Bytes> := [];
    assert Prepend([], SplitStream(input)) == SplitStream(input);
    var newline := Position(pending);
    while newline.Some?
      invariant newline == Position(pending)
      invariant pending == input || |pending| < READ_BUFFER
      invariant SplitStream(input) == Prepend(lines, SplitStream(pending))
      invariant written == Replies(lines, reply) && |written| <= capacity
      decreases |pending|
    {
      var line := pending[..newline.value + 1];
      OwedFirst(lines, SplitStream(pending), reply, complaint);
      if |line| > MAX_LINE {
        NoLineFirst(pending);
        if |written| == capacity {
          return pending, written, WriteFailed;
        }
        return pending, written + [complaint], LineOverLimit;
      }
      LineComesFirst(line, pending[newline.value + 1..]);
      assert pending == line + pending[newline.value + 1..];
      var rest := pending[newline.value + 1..];
      PrependTwice(lines, [line], SplitStream(rest));
      if |written| == capacity {
        return pending, written, WriteFailed;
      }
      pending, written, lines := rest, written + [reply(line)], lines + [line];
      newline := Position(pending);
    }
    ReadyOwesNothing(pending, reply, complaint);
    OwedFirst(lines, SplitStream(pending + []), reply, complaint);
    assert pending + [] == pending;
    ending := StillOpen;
  }

  /** What is owed for a stream read as `a` and then `b`. */
  lemma OwedContinues<R>(a: Bytes, b: Bytes, reply: Bytes -> R, complaint: R)
    ensures var r, whole := SplitStream(a), SplitStream(a + b);
            if r.tooLong then
              whole.tooLong && Owed(whole, reply, complaint) == Owed(r, reply, complaint)
            else
              var tail := SplitStream(r.rest + b);
              && whole.tooLong == tail.tooLong
              && Owed(whole, reply, complaint) == Owed(r, reply, complaint) + Owed(tail, reply, complaint)
  {
    SplitContinues(a, b);
    hide SplitStream;
    var r := SplitStream(a);
    if !r.tooLong {
      OwedFirst(r.lines, SplitStream(r.rest + b), reply, complaint);
      assert Owed(r, reply, complaint) == Replies(r.lines, reply);
    }
  }

  /** What is owed for the start of a stream is owed first for the whole of it. */
  lemma OwedGrows<R>(a: Bytes, b: Bytes, reply: Bytes -> R, complaint: R)
    ensures Owed(SplitStream(a), reply, complaint) <= Owed(SplitStream(a + b), reply, complaint)
  {
    OwedContinues(a, b, reply, complaint);
  }

  /** What one chunk brings about, with `capacity` messages more to be accepted: the messages owed
      for what was kept and what came are written, and `pending` is what is left. A line over the
      limit draws one of two complaints: that there is no newline, if the chunk brings none, and
      otherwise that the line is too long. */
  ghost predicate ChunkHandled<R>(kept: Bytes, bytes: Bytes, reply: Bytes -> R, missing: R, long: R,
      capacity: nat, pending: Bytes, written: seq<R>, ending: Ending)
  {
    var s := SplitStream(kept + bytes);
    var owed := Owed(s, reply, if NoNewline(bytes) then missing else long);
    match ending
    case WriteFailed => |owed| > capacity && written == Taken(owed, capacity)
    case NoNewlineInLimit => s.tooLong && NoNewline(bytes) && written == owed && |written| <= capacity
    case LineOverLimit => s.tooLong && !NoNewline(bytes) && written == owed && |written| <= capacity
    case StillOpen =>
      && pending == s.rest && Ready(pending) && !s.tooLong
      && written == owed && |written| <= capacity
    case _ => false
  }

  /** One chunk: the two length checks around the drain loop. The one after it never fires. */
  method HandleChunk<R>(kept: Bytes, bytes: Bytes, reply: Bytes -> R, missing: R, long: R, capacity: nat)
    returns (pending: Bytes, written: seq<R>, ending: Ending)
    requires Ready(kept) && |bytes| <= READ_BUFFER
    ensures ChunkHandled(kept, bytes, reply, missing, long, capacity, pending, written, ending)
    ensures ending.StillOpen? ==> Ready(pending) && |written| <= capacity
  {
    pending := kept + bytes;
    assert NoNewline(pending) <==> NoNewline(bytes) by {
      assert forall i | 0 <= i < |bytes| :: bytes[i] == pending[|kept| + i];
    }
    if |pending| > MAX_LINE && Position(pending).None? {
      NoLineFirst(pending);
      if capacity == 0 {
        return pending, [], WriteFailed;
      }
      return pending, [missing], NoNewlineInLimit;
    }
    ghost var whole := pending;
    pending, written, ending := Drain(pending, |kept|, reply, long, capacity);
    if NoNewline(whole) {
      ReadyOwesNothing(whole, reply, long);
      assert whole + [] == whole;
    }
    if ending.StillOpen? && |pending| > MAX_LINE {
      return pending, written, RemainderOverLimit;
    }
  }

  /** A turn after which the loop goes on reading. */
  predicate Flows(turn: Turn) {
    turn.Quiet? || (turn.Chunk? && turn.bytes != [])
  }

  predicate AllFlow(turns: seq<Turn>) {
    forall turn | turn in turns :: Flows(turn)
  }

  lemma {:induction false} ReceivedAfter(a: seq<Turn>, b: seq<Turn>)
    ensures Received(a) <= Received(a + b)
    ensures AllFlow(a) ==> Received(a + b) == Received(a) + Received(b)
  {
    if a == [] {
      assert a + b == b;
    } else {
      assert (a + b)[1..] == a[1..] + b;
      ReceivedAfter(a[1..], b);
      if AllFlow(a) {
        assert a[0] in a && forall turn | turn in a[1..] :: turn in a;
      }
    }
  }

  /** It is the first turn that does not flow that ends the loop. */
  lemma {:induction false} StopsAt(turns: seq<Turn>, i: nat)
    requires i <= |turns| && AllFlow(turns[..i]) && (i < |turns| ==> !Flows(turns[i]))
    ensures Stops(turns) == if i == |turns| then StillOpen else Stops([turns[i]])
    decreases i
  {
    if i > 0 {
      assert turns[0] in turns[..i] && turns[1..][..i - 1] == turns[..i][1..];
      assert forall turn | turn in turns[..i][1..] :: turn in turns[..i];
      StopsAt(turns[1..], i - 1);
    }
  }

  lemma CutAt<T>(s: seq<T>, i: nat)
    requires i < |s|
    ensures s[..i + 1] == s[..i] + [s[i]] && s == s[..i] + ([s[i]] + s[i + 1..])
  {
  }

  lemma OneTurn(turn: Turn)
    ensures Received([turn]) == if turn.Chunk? then turn.bytes else []
    ensures AllFlow([turn]) <==> Flows(turn)
  {
    assert turn in [turn] && [turn][1..] == [] && Received([]) == [];
  }

  lemma NotFlowing(turn: Turn, later: seq<Turn>)
    requires !Flows(turn)
    ensures Received([turn] + later) == []
  {
  }

  lemma FlowsOn(a: seq<Turn>, turn: Turn)
    requires AllFlow(a) && Flows(turn)
    ensures AllFlow(a + [turn])
  {
    hide Flows;
  }

  lemma ReceivedUpTo(turns: seq<Turn>, i: nat)
    requires i < |turns| && AllFlow(turns[..i])
    ensures Received(turns[..i + 1])
            == if turns[i].Chunk? then Received(turns[..i]) + turns[i].bytes else Received(turns[..i])
    ensures !Flows(turns[i]) ==> Received(turns) == Received(turns[..i])
    ensures Flows(turns[i]) ==> AllFlow(turns[..i + 1])
  {
    hide Received, AllFlow, Flows;
    var a, turn, b := turns[..i], turns[i], turns[i + 1..];
    CutAt(turns, i);
    ReceivedAfter(a, [turn]);
    ReceivedAfter(a, [turn] + b);
    OneTurn(turn);
    if Flows(turn) {
      FlowsOn(a, turn);
    } else {
      NotFlowing(turn, b);
    }
    assert Received(a) + [] == Received(a);
  }

  lemma TooLongStays(a: Bytes, b: Bytes)
    requires a <= b && SplitStream(a).tooLong
    ensures SplitStream(b).tooLong && SplitStream(b).lines == SplitStream(a).lines
  {
    SplitContinues(a, b[|a|..]);
    assert a + b[|a|..] == b;
  }

  /** The turn `i` brings the first line over the limit: the stream so far had none. */
  ghost predicate Overflows(turns: seq<Turn>, i: nat)
    requires i < |turns|
  {
    && !SplitStream(Received(turns[..i])).tooLong
    && SplitStream(Received(turns[..i + 1])).tooLong
  }

  /** The read that brings a line over the limit, and with it more than 4096 bytes into the buffer,
      brings no newline. */
  ghost predicate OverflowsSilently(turns: seq<Turn>) {
    exists i: nat :: i < |turns| && Overflows(turns, i) && turns[i].Chunk? && NoNewline(turns[i].bytes)
  }

  lemma OverflowsNoLater(turns: seq<Turn>, i: nat, j: nat)
    requires i < j < |turns| && Overflows(turns, i)
    ensures !Overflows(turns, j)
  {
    hide SplitStream;
    ReceivedAfter(turns[..i + 1], turns[i + 1..j]);
    assert turns[..j] == turns[..i + 1] + turns[i + 1..j];
    TooLongStays(Received(turns[..i + 1]), Received(turns[..j]));
  }

  lemma OverflowsOnce(turns: seq<Turn>, i: nat, j: nat)
    requires i < |turns| && j < |turns| && Overflows(turns, i) && Overflows(turns, j)
    ensures i == j
  {
    hide SplitStream;
    if i < j {
      OverflowsNoLater(turns, i, j);
    } else if j < i {
      OverflowsNoLater(turns, j, i);
    }
  }

  /** The complaint a line over the limit draws. */
  ghost function Complaint<R>(turns: seq<Turn>, missing: R, long: R): R {
    if OverflowsSilently(turns) then missing else long
  }

  lemma ComplaintAt<R>(turns: seq<Turn>, i: nat, missing: R, long: R)
    requires i < |turns| && Overflows(turns, i) && turns[i].Chunk?
    ensures OverflowsSilently(turns) <==> NoNewline(turns[i].bytes)
    ensures Complaint(turns, missing, long) == if NoNewline(turns[i].bytes) then missing else long
  {
    hide Overflows;
    forall j: nat | j < |turns| && Overflows(turns, j) ensures j == i {
      OverflowsOnce(turns, i, j);
    }
  }

  /** After a chunk the whole stream is cut as the part before it, then what was kept with the chunk. */
  lemma ChunkContinues<R>(turns: seq<Turn>, i: nat, pending: Bytes, reply: Bytes -> R, complaint: R)
    requires i < |turns| && AllFlow(turns[..i]) && turns[i].Chunk? && turns[i].bytes != []
    requires var s := SplitStream(Received(turns[..i])); !s.tooLong && s.rest == pending
    ensures var s := SplitStream(Received(turns[..i]));
            var now := SplitStream(Received(turns[..i + 1]));
            var tail := SplitStream(pending + turns[i].bytes);
            && now.tooLong == tail.tooLong && now.rest == tail.rest && now.lines == s.lines + tail.lines
            && (tail.tooLong ==> Overflows(turns, i))
            && Owed(now, reply, complaint) == Replies(s.lines, reply) + Owed(tail, reply, complaint)
            && (!tail.tooLong ==> Owed(now, reply, complaint) == Replies(now.lines, reply))
  {
    ReceivedUpTo(turns, i);
    SplitContinues(Received(turns[..i]), turns[i].bytes);
    hide SplitStream;
    OwedFirst(SplitStream(Received(turns[..i])).lines, SplitStream(pending + turns[i].bytes), reply, complaint);
  }

  lemma RepliesGrow<R>(a: seq<Bytes>, b: seq<Bytes>, reply: Bytes -> R)
    requires a <= b
    ensures Replies(a, reply) <= Replies(b, reply)
  {
  }

  lemma LinesGrow(a: Bytes, b: Bytes)
    requires a <= b
    ensures SplitStream(a).lines <= SplitStream(b).lines
  {
    SplitContinues(a, b[|a|..]);
    hide SplitStream;
    assert a + b[|a|..] == b;
  }

  // ----- The whole connection -----

  /** What the peer is owed in all: the greeting, the replies, and perhaps a complaint. */
  ghost function Messages<R>(turns: seq<Turn>, hello: R, reply: Bytes -> R, missing: R, long: R): seq<R> {
    [hello] + Owed(SplitStream(Received(turns)), reply, Complaint(turns, missing, long))
  }

  /** Two ways of reading the same stream owe as many messages, and the same ones but for the
      complaint that closes the connection. */
  lemma RepliesAreIndependentOfReads<R>(
      a: seq<Turn>, b: seq<Turn>, hello: R, reply: Bytes -> R, missing: R, long: R)
    requires Received(a) == Received(b)
    ensures var x, y := Messages(a, hello, reply, missing, long), Messages(b, hello, reply, missing, long);
            && |x| == |y|
            && forall i | 0 <= i < |x| ::
                 x[i] == y[i] || (i == |x| - 1 && SplitStream(Received(a)).tooLong)
  {
    hide SplitStream, Received, OverflowsSilently;
  }

  /** How a connection ends, for whatever reads the stream came in. */
  ghost predicate Served<R>(turns: seq<Turn>, messages: seq<R>, capacity: nat, written: seq<R>, ending: Ending) {
    var tooLong := SplitStream(Received(turns)).tooLong;
    && written == Taken(messages, capacity)
    && (ending.WriteFailed? <==> |messages| > capacity)
    && (ending.NoNewlineInLimit? <==> |messages| <= capacity && tooLong && OverflowsSilently(turns))
    && (ending.LineOverLimit? <==> |messages| <= capacity && tooLong && !OverflowsSilently(turns))
    && (|messages| <= capacity && !tooLong ==> ending == Stops(turns))
    && !ending.RemainderOverLimit?
  }

  /** Where the loop stands before turn `i`. */
  ghost predicate UpTo<R>(turns: seq<Turn>, i: nat, pending: Bytes, written: seq<R>, hello: R, reply: Bytes -> R)
    requires i <= |turns|
  {
    && AllFlow(turns[..i])
    && Ready(pending)
    && var s := SplitStream(Received(turns[..i]));
       !s.tooLong && s.rest == pending && written == [hello] + Replies(s.lines, reply)
  }

  lemma UpToStart<R>(turns: seq<Turn>, hello: R, reply: Bytes -> R)
    ensures UpTo(turns, 0, [], [hello], hello, reply)
  {
    assert turns[..0] == [];
  }

  lemma UpToQuiet<R>(turns: seq<Turn>, i: nat, pending: Bytes, written: seq<R>, hello: R, reply: Bytes -> R)
    requires i < |turns| && UpTo(turns, i, pending, written, hello, reply) && turns[i].Quiet?
    ensures UpTo(turns, i + 1, pending, written, hello, reply)
  {
    hide SplitStream, Received, AllFlow, Ready;
    ReceivedUpTo(turns, i);
  }

  lemma NothingMore<R>(written: seq<R>, hello: R, s: Split, reply: Bytes -> R, complaint: R)
    requires !s.tooLong && written == [hello] + Replies(s.lines, reply)
    ensures written == [hello] + Owed(s, reply, complaint)
  {
    hide Replies;
  }

  lemma UpToStop<R>(turns: seq<Turn>, i: nat, pending: Bytes, written: seq<R>, hello: R, reply: Bytes -> R,
      missing: R, long: R, capacity: nat, ending: Ending)
    requires i <= |turns| && UpTo(turns, i, pending, written, hello, reply) && |written| <= capacity
    requires i < |turns| ==> !Flows(turns[i])
    requires ending == if i < |turns| then Stops([turns[i]]) else StillOpen
    ensures Served(turns, Messages(turns, hello, reply, missing, long), capacity, written, ending)
  {
    StopsAt(turns, i);
    assert i < |turns| ==> Stops([turns[i]]) in {FlagSeenDown, ReadFailed, EndOfStream};
    hide SplitStream, Received, AllFlow, Ready, Complaint, OverflowsSilently, Flows, Replies, Stops;
    if i < |turns| {
      ReceivedUpTo(turns, i);
    } else {
      assert turns[..i] == turns;
    }
    NothingMore(written, hello, SplitStream(Received(turns)), reply, Complaint(turns, missing, long));
  }

  lemma UpToChunk<R>(turns: seq<Turn>, i: nat, pending: Bytes, written: seq<R>, hello: R, reply: Bytes -> R,
      missing: R, long: R, capacity: nat, rest: Bytes, answers: seq<R>)
    requires i < |turns| && UpTo(turns, i, pending, written, hello, reply)
    requires turns[i].Chunk? && turns[i].bytes != []
    requires ChunkHandled(pending, turns[i].bytes, reply, missing, long, capacity, rest, answers, StillOpen)
    ensures UpTo(turns, i + 1, rest, written + answers, hello, reply)
  {
    hide SplitStream, Received, AllFlow, Ready, NoNewline, Overflows, Replies, Owed;
    ReceivedUpTo(turns, i);
    var draws := if NoNewline(turns[i].bytes) then missing else long;
    ChunkContinues(turns, i, pending, reply, draws);
    assert [hello] + (Replies(SplitStream(Received(turns[..i])).lines, reply) + answers) == written + answers;
  }

  lemma TakenFromLonger<R>(x: seq<R>, owed: seq<R>, messages: seq<R>, capacity: nat)
    requires |x| <= capacity < |x| + |owed| && x + owed <= messages
    ensures |messages| > capacity && Taken(messages, capacity) == x + Taken(owed, capacity - |x|)
  {
  }

  lemma StartsAfter<R>(x: seq<R>, hello: R, replies: seq<R>, owed: seq<R>)
    requires x == [hello] + replies
    ensures x + owed == [hello] + (replies + owed)
  {
  }

  lemma PrefixUnder<R>(hello: R, a: seq<R>, b: seq<R>, c: seq<R>)
    requires a <= b <= c
    ensures [hello] + a <= [hello] + c
  {
  }

  lemma OwedAlike<R>(a: Split, b: Split, reply: Bytes -> R, complaint: R)
    requires a.lines == b.lines && a.tooLong == b.tooLong
    ensures Owed(a, reply, complaint) == Owed(b, reply, complaint)
  {
  }

  lemma RepliesFirst<R>(s: Split, reply: Bytes -> R, complaint: R)
    ensures Replies(s.lines, reply) <= Owed(s, reply, complaint)
  {
  }

  lemma WholeIsLonger(turns: seq<Turn>, i: nat)
    requires i <= |turns|
    ensures Received(turns[..i]) <= Received(turns)
  {
    hide Received;
    ReceivedAfter(turns[..i], turns[i..]);
    assert turns == turns[..i] + turns[i..];
  }

  /** The messages go on with what the chunk of turn `i` owes; if it is too long, that is all. */
  lemma MessagesAfter<R>(turns: seq<Turn>, i: nat, pending: Bytes, x: seq<R>, hello: R, reply: Bytes -> R,
      missing: R, long: R)
    requires i < |turns| && UpTo(turns, i, pending, x, hello, reply)
    requires turns[i].Chunk? && turns[i].bytes != []
    ensures var tail := SplitStream(pending + turns[i].bytes);
            var owed := Owed(tail, reply, if NoNewline(turns[i].bytes) then missing else long);
            var messages := Messages(turns, hello, reply, missing, long);
            && x + owed <= messages
            && (tail.tooLong ==>
                  && messages == x + owed && SplitStream(Received(turns)).tooLong
                  && (OverflowsSilently(turns) <==> NoNewline(turns[i].bytes)))
  {
    hide SplitStream, Received, Overflows, OverflowsSilently, NoNewline, Complaint, AllFlow, Ready, Replies, Owed;
    var draws := if NoNewline(turns[i].bytes) then missing else long;
    var tail := SplitStream(pending + turns[i].bytes);
    ChunkContinues(turns, i, pending, reply, draws);
    StartsAfter(x, hello, Replies(SplitStream(Received(turns[..i])).lines, reply), Owed(tail, reply, draws));
    WholeIsLonger(turns, i + 1);
    var now, whole := Received(turns[..i + 1]), Received(turns);
    if tail.tooLong {
      TooLongStays(now, whole);
      ComplaintAt(turns, i, missing, long);
      OwedAlike(SplitStream(now), SplitStream(whole), reply, draws);
    } else {
      LinesGrow(now, whole);
      RepliesGrow(SplitStream(now).lines, SplitStream(whole).lines, reply);
      RepliesFirst(SplitStream(whole), reply, Complaint(turns, missing, long));
      PrefixUnder(hello, Owed(SplitStream(now), reply, draws), Replies(SplitStream(whole).lines, reply),
                  Owed(SplitStream(whole), reply, Complaint(turns, missing, long)));
    }
  }

  lemma UpToEnd<R>(turns: seq<Turn>, i: nat, pending: Bytes, written: seq<R>, hello: R, reply: Bytes -> R,
      missing: R, long: R, capacity: nat, rest: Bytes, answers: seq<R>, ending: Ending)
    requires i < |turns| && UpTo(turns, i, pending, written, hello, reply) && |written| <= capacity
    requires turns[i].Chunk? && turns[i].bytes != []
    requires ChunkHandled(pending, turns[i].bytes, reply, missing, long, capacity - |written|, rest, answers, ending)
    requires !ending.StillOpen?
    ensures Served(turns, Messages(turns, hello, reply, missing, long), capacity, written + answers, ending)
  {
    hide SplitStream, Received, OverflowsSilently, NoNewline, Complaint, Ready, Owed, Messages, UpTo;
    MessagesAfter(turns, i, pending, written, hello, reply, missing, long);
    var tail := SplitStream(pending + turns[i].bytes);
    var owed := Owed(tail, reply, if NoNewline(turns[i].bytes) then missing else long);
    var messages := Messages(turns, hello, reply, missing, long);
    if ending.WriteFailed? {
      TakenFromLonger(written, owed, messages, capacity);
    }
  }

  lemma GreetingFails<R>(turns: seq<Turn>, hello: R, reply: Bytes -> R, missing: R, long: R)
    ensures Served(turns, Messages(turns, hello, reply, missing, long), 0, [], WriteFailed)
  {
  }

  /** The whole connection. However the stream is cut into reads of at most 1024 bytes, the messages
      written are the greeting, then the replies owed for the stream as a whole, as far as the peer
      takes them; the loop ends over a long line exactly when the whole stream has one. Only which of
      two complaints that line draws depends on the reads. The buffer never holds more than 5120
      bytes. */
  method ServeControlClient<R>(turns: seq<Turn>, hello: R, reply: Bytes -> R, missing: R, long: R, capacity: nat)
    returns (written: seq<R>, ending: Ending, ghost peak: nat)
    requires forall turn | turn in turns :: turn.Chunk? ==> |turn.bytes| <= READ_BUFFER
    ensures Served(turns, Messages(turns, hello, reply, missing, long), capacity, written, ending)
    ensures peak <= MAX_LINE + READ_BUFFER
  {
    hide UpTo, Served, Messages, ChunkHandled;
    peak := 0;
    if capacity == 0 {
      GreetingFails(turns, hello, reply, missing, long);
      return [], WriteFailed, peak;
    }
    written := [hello];
    var pending: Bytes := [];
    UpToStart(turns, hello, reply);
    for i := 0 to |turns|
      invariant Ready(pending) && peak <= MAX_LINE + READ_BUFFER && |written| <= capacity
      invariant UpTo(turns, i, pending, written, hello, reply)
    {
      match turns[i] {
        case FlagDown =>
          UpToStop(turns, i, pending, written, hello, reply, missing, long, capacity, FlagSeenDown);
          return written, FlagSeenDown, peak;
        case Broken =>
          UpToStop(turns, i, pending, written, hello, reply, missing, long, capacity, ReadFailed);
          return written, ReadFailed, peak;
        case Quiet =>
          UpToQuiet(turns, i, pending, written, hello, reply);
        case Chunk(bytes) =>
          if bytes == [] {
            UpToStop(turns, i, pending, written, hello, reply, missing, long, capacity, EndOfStream);
            return written, EndOfStream, peak;
          }
          assert turns[i] in turns;
          peak := Max(peak, |pending + bytes|);
          var room := capacity - |written|;
          var rest, answers, outcome := HandleChunk(pending, bytes, reply, missing, long, room);
          if !outcome.StillOpen? {
            UpToEnd(turns, i, pending, written, hello, reply, missing, long, capacity, rest, answers, outcome);
            return written + answers, outcome, peak;
          }
          UpToChunk(turns, i, pending, written, hello, reply, missing, long, room, rest, answers);
          pending, written := rest, written + answers;
      }
    }
    UpToStop(turns, |turns|, pending, written, hello, reply, missing, long, capacity, StillOpen);
    ending := StillOpen;
  }

  lemma FourReads(four: seq<Turn>, a: Bytes)
    requires |a| == 1024 && forall i | 0 <= i < 1024 :: a[i] == 97
    requires four == [Chunk(a), Chunk(a), Chunk(a), Chunk(a)]
    ensures AllFlow(four) && |Received(four)| == MAX_LINE
    ensures forall i | 0 <= i < MAX_LINE :: Received(four)[i] == 97
  {
    var one, two, three := [Chunk(a)], [Chunk(a), Chunk(a)], [Chunk(a), Chunk(a), Chunk(a)];
    assert one[1..] == [] && two[1..] == one && three[1..] == two && four[1..] == three;
    assert Received(one) == a + [] && Received(two) == a + Received(one);
    assert Received(three) == a + Received(two) && Received(four) == a + Received(three);
  }

  lemma LastReads()
    ensures Received([Chunk([97])]) == [97]
    ensures Received([Chunk([97]), Chunk([NEWLINE])]) == Received([Chunk([97, NEWLINE])]) == [97, NEWLINE]
  {
    assert [Chunk([97]), Chunk([NEWLINE])][1..] == [Chunk([NEWLINE])];
    assert [Chunk([NEWLINE])][1..] == [] && [Chunk([97])][1..] == [] && [Chunk([97, NEWLINE])][1..] == [];
    assert Received([]) == [];
  }

  lemma NotYetTooLong(s: Bytes)
    requires NoNewline(s) && |s| <= MAX_LINE
    ensures !SplitStream(s).tooLong
  {
  }

  /** Which complaint it is does depend on the reads: 4097 bytes and then a newline draw one or the
      other, according to whether the newline comes with the last of those bytes. */
  lemma ComplaintDependsOnReads(four: seq<Turn>, a: Bytes)
    requires |a| == 1024 && forall i | 0 <= i < 1024 :: a[i] == 97
    requires four == [Chunk(a), Chunk(a), Chunk(a), Chunk(a)]
    ensures var apart, together := four + [Chunk([97]), Chunk([NEWLINE])], four + [Chunk([97, NEWLINE])];
            && Received(apart) == Received(together)
            && SplitStream(Received(apart)).tooLong
            && OverflowsSilently(apart) && !OverflowsSilently(together)
  {
    var apart, together := four + [Chunk([97]), Chunk([NEWLINE])], four + [Chunk([97, NEWLINE])];
    FourReads(four, a);
    var full := Received(four);
    assert apart == four + [Chunk([97]), Chunk([NEWLINE])];
    ReceivedAfter(four, [Chunk([97]), Chunk([NEWLINE])]);
    ReceivedAfter(four, [Chunk([97])]);
    ReceivedAfter(four, [Chunk([97, NEWLINE])]);
    LastReads();
    hide SplitStream, Received;
    assert apart[..4] == four && apart[..5] == four + [Chunk([97])];
    assert together[..4] == four && together[..5] == together;
    NotYetTooLong(full);
    NoLineFirst(full + [97]);
    NoLineFirst(full + [97, NEWLINE]);
    assert Overflows(apart, 4) && Overflows(together, 4);
    ComplaintAt(apart, 4, 0, 1);
    ComplaintAt(together, 4, 0, 1);
    assert [97, NEWLINE][1] == NEWLINE;
  }
}
