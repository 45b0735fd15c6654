/** The MATLAB client's end of the control connection (integrations/matlab/MoorebotScout.m), and the
    two ends together: each call returns the answer to its own request. */
module ControlClient {
  import opened Base
  import opened Framing

  datatype ClientError = ProtocolError | ConnectionError | BusyError | BridgeRefusal | ClosedError

  /** What the JSON of a response line says. */
  datatype Decoded = Malformed | Accepted | Refused(busy: bool)

  const MAXIMUM := 4096

  function Sum(counts: seq<nat>): nat {
    if counts == [] then 0 else Sum(counts[..|counts| - 1]) + counts[|counts| - 1]
  }

  /** A stream starts with this line, within the limit and in the first `seen` bytes. */
  ghost predicate Starts(stream: Bytes, line: Bytes, seen: nat) {
    IsLine(line + [NEWLINE]) && line + [NEWLINE] <= stream && |line| + 1 <= seen
  }

  lemma StartIsFound(stream: Bytes, line: Bytes, seen: nat, buffer: Bytes)
    requires Starts(stream, line, seen) && buffer <= stream && (|buffer| >= seen || buffer == stream)
    ensures Position(buffer) == Some(|line|) && buffer[..|line|] == line
  {
    var start := line + [NEWLINE];
    assert start == stream[..|start|] == buffer[..|start|];
    assert forall i | 0 <= i < |line| :: buffer[i] == start[i];
    PositionAt(buffer, |line|);
  }

  /** How a decoded response ends a call. */
  function Outcome(d: Decoded, line: Bytes): Result<Bytes, ClientError> {
    match d
    case Malformed => Failure(ProtocolError)
    case Accepted => Success(line)
    case Refused(busy) => Failure(if busy then BusyError else BridgeRefusal)
  }

  lemma FirstLineIsUnique(stream: Bytes, line: Bytes, seen: nat, buffer: Bytes, newline: nat)
    requires Starts(stream, line, seen) && buffer <= stream && Position(buffer) == Some(newline)
    ensures buffer[..newline] == line
  {
    StartIsFound(stream, line, seen, stream);
    assert forall i | 0 <= i <= newline :: stream[i] == buffer[i];
    PositionAt(stream, newline);
  }

  lemma KeepOneLine(answers: seq<Bytes>, buffer: Bytes, newline: nat)
    requires Position(buffer) == Some(newline) && newline < MAXIMUM
    ensures var line := buffer[..newline] + [NEWLINE];
            && IsLine(line)
            && Concat(answers + [line]) + buffer[newline + 1..] == Concat(answers) + buffer
  {
    var line := buffer[..newline] + [NEWLINE];
    ConcatAppend(answers, [line]);
    ConcatFirst(line, []);
    assert [line] + [] == [line] && Concat<Byte>([]) == [];
    assert line + buffer[newline + 1..] == buffer;
  }

  class ScoutClient {
    /** Everything that will ever arrive from the bridge, and how much of it has been taken. */
    const incoming: Bytes
    var taken: nat
    var buffer: Bytes
    var closed: bool
    var handshakeComplete: bool
    ghost var requests: seq<Bytes>
    ghost var answers: seq<Bytes>

    /** Nothing read is ever lost: the lines returned and the bytes kept are what was taken. */
    ghost predicate Valid()
      reads this
    {
      && taken <= |incoming|
      && (closed ==> buffer == [] && !handshakeComplete)
      && (!closed ==> Concat(answers) + buffer == incoming[..taken])
      && |buffer| <= MAXIMUM
      && (forall line | line in answers :: IsLine(line))
    }

    /** Every request sent has had its answer: none is outstanding between calls. */
    ghost predicate InStep()
      reads this
    {
      Valid() && (!closed ==> handshakeComplete && |answers| == |requests| + 1)
    }

    method CloseSockets()
      requires taken <= |incoming| && forall line | line in answers :: IsLine(line)
      modifies this`closed, this`handshakeComplete, this`buffer
      ensures Valid() && closed
    {
      closed := true;
      handshakeComplete := false;
      buffer := [];
    }

    /** What the client has yet to look at. */
    ghost function Ahead(): Bytes
      requires taken <= |incoming|
      reads this
    {
      buffer + incoming[taken..]
    }

    /** Adds to the buffer what the socket reports to be there, as far as there is room. */
    method ReadAvailable(available: nat)
      requires Valid() && !closed
      modifies this`taken, this`buffer
      ensures Valid() && old(taken) <= taken && Ahead() == old(Ahead())
      ensures |buffer| == MAXIMUM || taken == |incoming| || |buffer| == old(|buffer|) + available
    {
      hide IsLine, Concat;
      var count := Min(available, Min(|incoming| - taken, MAXIMUM - |buffer|));
      var chunk := incoming[taken..taken + count];
      assert incoming[..taken + count] == incoming[..taken] + chunk;
      assert Concat(answers) + (buffer + chunk) == Concat(answers) + buffer + chunk;
      assert buffer + chunk + incoming[taken + count..] == buffer + incoming[taken..];
      buffer := buffer + chunk;
      taken := taken + count;
    }

    /** Reads one line. Each entry of `available` is how many bytes the socket reports on one turn of
        the loop; the deadline passes when there are no more. Bytes after the line stay in the
        buffer. `next` stands for any line that may come. */
    method ReadControlLine(available: seq<nat>, ghost next: Bytes) returns (r: Result<Bytes, ClientError>)
      requires Valid() && !closed
      modifies this`taken, this`buffer, this`answers
      ensures Valid() && old(taken) <= taken
      ensures r.Success? ==> answers == old(answers) + [r.value + [NEWLINE]]
      ensures r.Failure? ==>
                && answers == old(answers)
                && NoNewline(buffer)
                && r.error == (if |buffer| == MAXIMUM then ProtocolError else ConnectionError)
      ensures old(Starts(Ahead(), next, Min(MAXIMUM, |buffer| + Sum(available)))) ==> r == Success(next)
    {
      hide IsLine, Concat, Starts, Position;
      ghost var stream := Ahead();
      ghost var seen := Min(MAXIMUM, |buffer| + Sum(available));
      ghost var expected := Starts(stream, next, seen);
      ghost var had := |buffer|;
      var turn := 0;
      while true
        invariant Valid() && old(taken) <= taken && answers == old(answers)
        invariant turn <= |available|
        invariant stream == Ahead()
        invariant |buffer| == MAXIMUM || taken == |incoming| || |buffer| >= had + Sum(available[..turn])
        decreases |available| - turn
      {
        var newline := Position(buffer);
        if newline.Some? {
          var line := buffer[..newline.value];
          KeepOneLine(answers, buffer, newline.value);
          if expected {
            FirstLineIsUnique(stream, next, seen, buffer, newline.value);
          }
          answers := answers + [line + [NEWLINE]];
          buffer := buffer[newline.value + 1..];
          return Success(line);
        }
        if |buffer| >= MAXIMUM {
          if expected {
            StartIsFound(stream, next, seen, buffer);
          }
          return Failure(ProtocolError);
        }
        if turn == |available| {
          assert available[..turn] == available;
          if expected {
            StartIsFound(stream, next, seen, buffer);
          }
          return Failure(ConnectionError);
        }
        ReadAvailable(available[turn]);
        assert available[..turn + 1][..turn] == available[..turn];
        turn := turn + 1;
      }
    }

    /** A response is decoded; one that is not `ok` is an error. */
    method ReadResponse(available: seq<nat>, decode: Bytes -> Decoded, ghost next: Bytes)
      returns (r: Result<Bytes, ClientError>)
      requires Valid() && !closed
      modifies this`taken, this`buffer, this`answers
      ensures Valid()
      ensures r.Success? || r == Failure(BridgeRefusal) ==>
                |answers| == |old(answers)| + 1 && old(answers) <= answers
      ensures r.Success? ==> answers == old(answers) + [r.value + [NEWLINE]]
      ensures r.Failure? ==> r.error != ClosedError
      ensures old(Starts(Ahead(), next, Min(MAXIMUM, |buffer| + Sum(available)))) ==> r == Outcome(decode(next), next)
    {
      var line := ReadControlLine(available, next);
      if line.Failure? {
        return line;
      }
      match decode(line.value) {
        case Malformed => r := Failure(ProtocolError);
        case Accepted => r := line;
        case Refused(busy) => r := Failure(if busy then BusyError else BridgeRefusal);
      }
    }

    /** One call: the request is written and its answer read. Anything but a plain refusal by the
        bridge closes the client, so that no later call can pick up this answer. An answer that
        comes in time is the one returned. */
    method Request(request: Bytes, writable: bool, available: seq<nat>, decode: Bytes -> Decoded, ghost next: Bytes)
      returns (r: Result<Bytes, ClientError>)
      requires InStep()
      modifies this
      ensures InStep()
      ensures old(closed) ==> closed && r == Failure(ClosedError) && requests == old(requests)
      ensures !closed ==>
                && requests == old(requests) + [request]
                && old(answers) <= answers
                && (r.Success? ==> answers[|requests|] == r.value + [NEWLINE])
                && (r.Failure? ==> r.error == BridgeRefusal)
      ensures r.Success? || r == Failure(BridgeRefusal) ==> !closed
      ensures old(!closed && Starts(Ahead(), next, Min(MAXIMUM, |buffer| + Sum(available)))) && writable ==>
                && r == Outcome(decode(next), next)
                && (decode(next) == Accepted ==> r == Success(next) && !closed)
                && (decode(next) == Refused(false) ==> r == Failure(BridgeRefusal) && !closed)
                && (decode(next) == Refused(true) ==> r == Failure(BusyError) && closed)
                && (decode(next) == Malformed ==> r == Failure(ProtocolError) && closed)
    {
      if closed {
        return Failure(ClosedError);
      }
      if !writable {
        CloseSockets();
        return Failure(ConnectionError);
      }
      requests := requests + [request];
      r := ReadResponse(available, decode, next);
      if r.Failure? && r.error != BridgeRefusal {
        CloseSockets();
      }
    }

    /** Connects: the greeting is the first answer. */
    constructor (incoming: Bytes)
      ensures Valid() && !closed && !handshakeComplete
      ensures this.incoming == incoming && answers == [] && requests == []
    {
      this.incoming, taken, buffer := incoming, 0, [];
      closed, handshakeComplete := false, false;
      requests, answers := [], [];
    }

    /** The client is usable only after an acceptable greeting. */
    method Greet(available: seq<nat>, decode: Bytes -> Decoded, greets: Bytes -> bool, ghost next: Bytes)
      returns (r: Result<Bytes, ClientError>)
      requires Valid() && !closed && answers == [] && requests == []
      modifies this
      ensures InStep() && requests == []
      ensures r.Success? <==> !closed
      ensures r.Success? ==> answers == [r.value + [NEWLINE]] && greets(r.value)
      ensures old(Starts(Ahead(), next, Min(MAXIMUM, |buffer| + Sum(available))))
              && decode(next).Accepted? && greets(next) ==>
                r == Success(next)
    {
      r := ReadResponse(available, decode, next);
      if r.Success? && greets(r.value) {
        handshakeComplete := true;
      } else {
        CloseSockets();
        r := Failure(if r.Success? then ProtocolError else r.error);
      }
    }
  }

  // ----- Both ends -----

  lemma LinesAreDistinct(a: Bytes, b: Bytes)
    requires IsLine(a) && IsLine(b) && Comparable(a, b)
    ensures a == b
  {
  }

  /** Lines at the start of a stream of lines are its first lines. */
  lemma FirstLines(a: seq<Bytes>, b: seq<Bytes>)
    requires Concat(a) <= Concat(b)
    requires (forall line | line in a :: IsLine(line)) && (forall line | line in b :: IsLine(line))
    ensures a <= b
  {
    forall i, j | 0 <= i < |a| && 0 <= j < |b| && Comparable(a[i], b[j]) ensures a[i] == b[j] {
      assert a[i] in a && b[j] in b;
      LinesAreDistinct(a[i], b[j]);
    }
    FirstWords(a, b);
  }

  /** What the bridge owes for requests that are lines is one reply each, in order. */
  lemma OwedForLines(requests: seq<Bytes>, reply: Bytes -> Bytes, complaint: Bytes)
    requires forall q | q in requests :: IsLine(q)
    ensures Owed(SplitStream(Concat(requests)), reply, complaint) == Framing.Replies(requests, reply)
  {
    SplitInvertsConcat(requests, []);
    assert Concat(requests) + [] == Concat(requests);
    assert SplitStream([]) == Split([], [], false);
  }

  /** Whatever part of the requests has arrived, the bridge writes the greeting and the replies to
      the first of them. */
  lemma WrittenInOrder(
      requests: seq<Bytes>, received: Bytes, reply: Bytes -> Bytes, hello: Bytes, complaint: Bytes,
      capacity: nat)
    requires (forall q | q in requests :: IsLine(q)) && received <= Concat(requests)
    ensures Taken([hello] + Owed(SplitStream(received), reply, complaint), capacity)
            <= [hello] + Framing.Replies(requests, reply)
  {
    var rest := Concat(requests)[|received|..];
    assert received + rest == Concat(requests);
    OwedGrows(received, rest, reply, complaint);
    OwedForLines(requests, reply, complaint);
  }

  lemma RepliesAreLines(requests: seq<Bytes>, reply: Bytes -> Bytes, hello: Bytes, written: seq<Bytes>)
    requires IsLine(hello) && forall q | q in requests :: IsLine(reply(q))
    requires written <= [hello] + Framing.Replies(requests, reply)
    ensures forall line | line in written :: IsLine(line)
  {
    hide IsLine;
    forall i | 0 <= i < |written| ensures IsLine(written[i]) {
      assert i > 0 ==> requests[i - 1] in requests;
    }
  }

  lemma TakenFromFront(x: Bytes, buffer: Bytes, incoming: Bytes, taken: nat, y: Bytes)
    requires taken <= |incoming| && x + buffer == incoming[..taken] && incoming <= y
    ensures x <= y
  {
    assert x == incoming[..taken][..|x|];
  }

  lemma FirstOfAll(answers: seq<Bytes>, written: seq<Bytes>, requests: seq<Bytes>, reply: Bytes -> Bytes, hello: Bytes)
    requires answers <= written <= [hello] + Framing.Replies(requests, reply)
    ensures |answers| <= |requests| + 1
    ensures answers != [] ==> answers[0] == hello
    ensures forall i | 0 <= i < |answers| - 1 :: answers[i + 1] == reply(requests[i])
  {
  }

  /** Over a whole session. The client has sent `requests`, of which the bridge has received some
      part in whatever chunks, `received` in all; the bridge has written what it owes for that, as
      far as the client's side took it; the client has taken some part of that in whatever chunks.
      Then its first answer is the greeting and every later one is the reply to the request of the
      same call. */
  lemma EachCallGetsItsAnswer(
      requests: seq<Bytes>, received: Bytes, reply: Bytes -> Bytes, hello: Bytes, complaint: Bytes,
      capacity: nat, written: seq<Bytes>, incoming: Bytes, taken: nat, answers: seq<Bytes>, buffer: Bytes)
    requires (forall q | q in requests :: IsLine(q)) && received <= Concat(requests)
    requires IsLine(hello) && forall q | q in requests :: IsLine(reply(q))
    requires written == Taken([hello] + Owed(SplitStream(received), reply, complaint), capacity)
    requires incoming <= Concat(written)
    requires taken <= |incoming| && Concat(answers) + buffer == incoming[..taken]
    requires forall line | line in answers :: IsLine(line)
    ensures |answers| <= |requests| + 1
    ensures answers != [] ==> answers[0] == hello
    ensures forall i | 0 <= i < |answers| - 1 :: answers[i + 1] == reply(requests[i])
  {
    WrittenInOrder(requests, received, reply, hello, complaint, capacity);
    hide *;
    RepliesAreLines(requests, reply, hello, written);
    TakenFromFront(Concat(answers), buffer, incoming, taken, Concat(written));
    FirstLines(answers, written);
    FirstOfAll(answers, written, requests, reply, hello);
  }

  /** The requests as they go out, each with its newline. */
  function OnTheWire(requests: seq<Bytes>): (lines: seq<Bytes>)
    ensures |lines| == |requests| && forall i | 0 <= i < |requests| :: lines[i] == requests[i] + [NEWLINE]
  {
    seq(|requests|, i requires 0 <= i < |requests| => requests[i] + [NEWLINE])
  }

  /** Between calls, an open client of a bridge that serves its connection has exactly one answer for
      each request it sent, the bridge's reply to that request, after the greeting. Here `turns` are
      the reads in which the bridge took some part of the requests, and `capacity` how many of its
      messages went out. */
  lemma EveryRequestHasItsAnswer(
      client: ScoutClient, turns: seq<Turn>, reply: Bytes -> Bytes, hello: Bytes, missing: Bytes, long: Bytes,
      capacity: nat, written: seq<Bytes>)
    requires client.InStep() && !client.closed
    requires forall q | q in OnTheWire(client.requests) :: IsLine(q) && IsLine(reply(q))
    requires IsLine(hello)
    requires Received(turns) <= Concat(OnTheWire(client.requests))
    requires written == Taken(Messages(turns, hello, reply, missing, long), capacity)
    requires client.incoming <= Concat(written)
    ensures |client.answers| == |client.requests| + 1
    ensures client.answers[0] == hello
    ensures forall i | 0 <= i < |client.requests| :: client.answers[i + 1] == reply(OnTheWire(client.requests)[i])
  {
    hide SplitStream, IsLine, Complaint, Concat, Taken, Received;
    EachCallGetsItsAnswer(
      OnTheWire(client.requests), Received(turns), reply, hello, Complaint(turns, missing, long), capacity,
      written, client.incoming, client.taken, client.answers, client.buffer);
  }
}
