/** What the Wi-Fi setup does on sockets (src/ros1/wifi.rs): every operation is bounded by the one
    deadline, and the peer sends whatever it likes, in whatever pieces. */
module WifiNetwork {
  import opened Base
  import opened Wire
  import opened Messages
  import opened WifiHeader

  /** How a socket or the resolver itself can fail, as opposed to what the peer said. */
  predicate Faulted(e: WifiError) {
    e == Timeout || e == Transport
  }

  datatype Ip = V4(octets: Bytes) | V6(octets: Bytes)

  datatype Address = Address(ip: Ip, port: nat)

  /** One operation: when the deadline was checked for it, when it then started, and when it ended. */
  datatype Operation = Operation(checked: Time, started: Time, ended: Time)

  /** The clock, and the operations so far. There is `trouble` once the deadline is found to have
      passed, an operation has failed, or one has made no progress although it could have. */
  class Clock {
    var now: Time
    ghost var operations: seq<Operation>
    ghost var trouble: bool

    constructor (now: Time)
      ensures this.now == now && operations == [] && !trouble
    {
      this.now, operations, trouble := now, [], false;
    }

    /** Every operation had its deadline checked in time, and ended by the deadline but for the delay
        between that check and its start. */
    ghost predicate KeepsTo(deadline: Time)
      reads this
    {
      forall o | o in operations ::
        o.checked < deadline && o.checked <= o.started && o.ended <= deadline + (o.started - o.checked)
    }

    /** What is left before the deadline. The program may have been busy for any time since its last
        operation. */
    method Remaining(deadline: Time) returns (left: Result<Time, WifiError>)
      modifies this`now, this`trouble
      ensures old(now) <= now
      ensures left == if now < deadline then Success(deadline - now) else Failure(Timeout)
      ensures trouble == (old(trouble) || left.Failure?)
    {
      var busy: int := *;
      now := now + Max(0, busy);
      left := if now < deadline then Success(deadline - now) else Failure(Timeout);
      trouble := trouble || left.Failure?;
    }

    /** One operation that respects its own timeout, begun any time after the deadline was checked. */
    method Operate(timeout: Time)
      modifies this`now, this`operations
      ensures old(now) <= now
      ensures exists started: Time ::
                && old(now) <= started <= now <= started + timeout
                && operations == old(operations) + [Operation(old(now), started, now)]
    {
      var delay: int, elapsed: int := *, *;
      var checked := now;
      var started: Time := now + Max(0, delay);
      now := started + Min(Max(0, elapsed), timeout);
      operations := operations + [Operation(checked, started, now)];
    }

    /** Does this operation fail? */
    method Fault() returns (fault: Option<WifiError>)
      modifies this`trouble
      ensures fault.Some? ==> Faulted(fault.value)
      ensures trouble == (old(trouble) || fault.Some?)
    {
      var faulty: bool, late: bool := *, *;
      fault := if !faulty then None else Some(if late then Timeout else Transport);
      trouble := trouble || fault.Some?;
    }
  }

  /** A connection with a peer that will send `incoming`, all told; `taken` of it has been read. */
  class Connection {
    const clock: Clock
    const deadline: Time
    const peer: Address
    const incoming: Bytes
    var taken: nat
    var outgoing: Bytes

    ghost predicate Valid()
      reads this, clock
    {
      taken <= |incoming| && clock.KeepsTo(deadline)
    }

    constructor (clock: Clock, deadline: Time, peer: Address, incoming: Bytes)
      ensures this.clock == clock && this.deadline == deadline
      ensures this.peer == peer && this.incoming == incoming && taken == 0 && outgoing == []
    {
      this.clock, this.deadline, this.peer, this.incoming := clock, deadline, peer, incoming;
      taken, outgoing := 0, [];
    }

    /** Some of what comes next; nothing once the peer has closed. */
    method Read(room: nat) returns (r: Result<Bytes, WifiError>)
      requires Valid() && room > 0
      modifies this`taken, clock
      ensures Valid() && old(taken) <= taken
      ensures r.Success? ==> r.value == incoming[old(taken)..taken] && |r.value| <= room
      ensures r.Failure? ==> taken == old(taken) && Faulted(r.error)
      ensures clock.trouble
              == (old(clock.trouble) || r.Failure? || (r.value == [] && old(taken) < |incoming|))
    {
      var left := clock.Remaining(deadline);
      if left.Failure? {
        return Failure(left.error);
      }
      clock.Operate(left.value);
      var fault := clock.Fault();
      if fault.Some? {
        return Failure(fault.value);
      }
      var count: int := *;
      count := Min(Max(0, count), Min(room, |incoming| - taken));
      r := Success(incoming[taken..taken + count]);
      clock.trouble := clock.trouble || (count == 0 && taken < |incoming|);
      taken := taken + count;
    }

    method ReadExact(length: nat) returns (r: Result<Bytes, WifiError>)
      requires Valid()
      modifies this`taken, clock
      ensures Valid() && old(taken) <= taken <= old(taken) + length
      ensures r.Success? ==> |r.value| == length && r.value == incoming[old(taken)..taken]
      ensures r.Failure? ==> taken < old(taken) + length && Faulted(r.error)
      ensures old(clock.trouble) ==> clock.trouble
      ensures r.Success? ==> clock.trouble == old(clock.trouble)
      ensures !clock.trouble ==>
                if old(taken) + length <= |incoming| then r.Success?
                else r == Failure(Transport) && taken == |incoming|
    {
      var output: Bytes := [];
      while |output| < length
        invariant Valid() && old(taken) <= taken
        invariant output == incoming[old(taken)..taken] && |output| <= length
        invariant clock.trouble == old(clock.trouble)
        decreases length - |output|
      {
        var chunk := Read(length - |output|);
        if chunk.Failure? {
          return chunk;
        }
        if chunk.value == [] {
          return Failure(Transport);
        }
        output := output + chunk.value;
      }
      r := Success(output);
    }

    /** Hands over some of `bytes`. */
    method Write(bytes: Bytes) returns (r: Result<nat, WifiError>)
      requires Valid() && bytes != []
      modifies this`outgoing, clock
      ensures Valid()
      ensures r.Success? ==> r.value <= |bytes| && outgoing == old(outgoing) + bytes[..r.value]
      ensures r.Failure? ==> outgoing == old(outgoing) && Faulted(r.error)
      ensures clock.trouble == (old(clock.trouble) || r.Failure? || r.value == 0)
    {
      var left := clock.Remaining(deadline);
      if left.Failure? {
        return Failure(left.error);
      }
      clock.Operate(left.value);
      var fault := clock.Fault();
      if fault.Some? {
        return Failure(fault.value);
      }
      var count: int := *;
      count := Min(Max(0, count), |bytes|);
      clock.trouble := clock.trouble || count == 0;
      outgoing := outgoing + bytes[..count];
      r := Success(count);
    }

    method WriteAll(bytes: Bytes) returns (r: Result<(), WifiError>)
      requires Valid()
      modifies this`outgoing, clock
      ensures Valid() && old(outgoing) <= outgoing <= old(outgoing) + bytes
      ensures r.Success? <==> outgoing == old(outgoing) + bytes
      ensures r.Failure? ==> Faulted(r.error)
      ensures clock.trouble == (old(clock.trouble) || r.Failure?)
    {
      var sent := 0;
      while sent < |bytes|
        invariant Valid() && sent <= |bytes| && outgoing == old(outgoing) + bytes[..sent]
        invariant clock.trouble == old(clock.trouble)
      {
        var written := Write(bytes[sent..]);
        if written.Failure? {
          return Failure(written.error);
        }
        if written.value == 0 {
          return Failure(Transport);
        }
        assert bytes[..sent] + bytes[sent..][..written.value] == bytes[..sent + written.value];
        sent := sent + written.value;
      }
      r := Success(());
    }

    /** Sends a length and what it counts. */
    method WriteFrame(body: Bytes) returns (r: Result<(), WifiError>)
      requires Valid()
      modifies this`outgoing, clock
      ensures Valid() && old(outgoing) <= outgoing <= old(outgoing) + Counted(body)
      ensures r.Success? <==> outgoing == old(outgoing) + Counted(body)
      ensures r.Failure? ==> Faulted(r.error)
      ensures clock.trouble == (old(clock.trouble) || r.Failure?)
    {
      hide LeBytes;
      ghost var start := outgoing;
      assert start + Counted(body) == start + LeBytes(|body|, 4) + body;
      r := WriteAll(LeBytes(|body|, 4));
      if r.Success? {
        r := WriteAll(body);
      }
    }

    /** Reads a length, checks it, and reads that many bytes. Unless the connection fails, the result
        is what `TakeFrame` finds in the bytes read, which are those of the frame and no more. */
    method ReadFrame(limit: nat) returns (r: Result<Bytes, WifiError>)
      requires Valid()
      modifies this`taken, clock
      ensures Valid() && old(taken) <= taken
      ensures r.Success? ==> TakeFrame(incoming[old(taken)..taken], limit) == Success((r.value, []))
      ensures r.Failure? ==> Faulted(r.error) || TakeFrame(incoming[old(taken)..taken], limit) == Failure(r.error)
      ensures r.Failure? ==>
                TakeFrame(incoming[old(taken)..taken], limit) in {Failure(Transport), Failure(Protocol(FrameOverLimit))}
      ensures old(clock.trouble) ==> clock.trouble
      ensures clock.trouble ==> old(clock.trouble) || (r.Failure? && Faulted(r.error))
      ensures !clock.trouble ==>
                match TakeFrame(incoming[old(taken)..], limit)
                case Success((body, rest)) => r == Success(body) && incoming[taken..] == rest
                case Failure(e) => r == Failure(e)
    {
      hide LeValue, LeBytes, Power256;
      ghost var start := taken;
      var header := ReadExact(4);
      ghost var all := incoming[start..];
      if header.Failure? {
        return header;
      }
      assert header.value == all[..4] == incoming[start..taken][..4];
      var length := LeValue(header.value);
      if length > limit {
        return Failure(Protocol(FrameOverLimit));
      }
      r := ReadExact(length);
      assert incoming[start..taken][..4] == header.value;
      if r.Success? {
        assert r.value == all[4..4 + length] == incoming[start..taken][4..4 + length];
        assert incoming[taken..] == all[4 + length..];
      }
    }
  }
}
