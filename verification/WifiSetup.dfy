/** Wi-Fi setup as a whole (src/ros1/wifi.rs): find the service, connect, shake hands, send the
    credentials once, all within one deadline. */
module WifiSetup {
  import opened Base
  import opened Messages
  import opened WifiHeader
  import opened WifiNetwork
  import opened WifiHttp
  import opened Wifi
  import opened WifiEndpoint
  import opened WifiLookup
  import Utf8

  const SECOND: Time := 1000 * MILLISECOND
  const MAX_ADDRESSES := 8
  const INTERNAL_HOSTNAME: Bytes := Text("linaro-alip")

  const MASTER_SCHEME: Bytes := Text("http://")
  const SERVICE_SCHEME: Bytes := Text("rosrpc://")

  /** The two conversations of a setup. */
  datatype Talk = ToMaster | ToService

  datatype Lookup = Found(uri: Bytes) | NoService | Unreadable

  /** What lies outside: the readers of IP addresses, the resolver, what comes of the n-th attempt to
      reach an address (the bytes that the peer will send, if one listens), and the reader of the XML
      of a lookup. */
  datatype World = World(
    ipv6: Bytes -> bool,
    numeric: Bytes -> Option<Ip>,
    names: Bytes -> Option<seq<Ip>>,
    peers: (Talk, nat, Address) -> Option<Bytes>,
    lookupResult: Bytes -> Lookup)

  function MasterEndpoint(world: World, uri: Bytes): Option<Endpoint> {
    Parse(uri, MASTER_SCHEME, true, world.ipv6)
  }

  function ServiceEndpoint(world: World, uri: Bytes): Option<Endpoint> {
    Parse(uri, SERVICE_SCHEME, false, world.ipv6)
  }

  function OfVersion(ips: seq<Ip>, four: bool): seq<Ip> {
    if ips == [] then []
    else (if ips[0].V4? == four then [ips[0]] else []) + OfVersion(ips[1..], four)
  }

  /** The stable order that puts IPv4 first. */
  function PreferV4(ips: seq<Ip>): seq<Ip> {
    OfVersion(ips, true) + OfVersion(ips, false)
  }

  lemma {:induction false} PreferenceKeepsAddresses(ips: seq<Ip>)
    ensures multiset(PreferV4(ips)) == multiset(ips)
  {
    if ips != [] {
      PreferenceKeepsAddresses(ips[1..]);
      assert ips == [ips[0]] + ips[1..];
    }
  }

  lemma {:induction false} OneVersion(ips: seq<Ip>, four: bool)
    ensures forall ip | ip in OfVersion(ips, four) :: ip.V4? == four
    ensures OfVersion(OfVersion(ips, four), four) == OfVersion(ips, four)
    ensures OfVersion(OfVersion(ips, four), !four) == []
  {
    if ips != [] {
      OneVersion(ips[1..], four);
      var others := OfVersion(ips[1..], four);
      if ips[0].V4? == four {
        assert ([ips[0]] + others)[1..] == others;
      } else {
        assert OfVersion(ips, four) == others;
      }
    }
  }

  lemma {:induction false} OfVersionAppend(a: seq<Ip>, b: seq<Ip>, four: bool)
    ensures OfVersion(a + b, four) == OfVersion(a, four) + OfVersion(b, four)
  {
    if a == [] {
      assert a + b == b;
    } else {
      assert (a + b)[1..] == a[1..] + b;
      OfVersionAppend(a[1..], b, four);
      var first := if a[0].V4? == four then [a[0]] else [];
      assert OfVersion(a + b, four) == first + OfVersion(a[1..] + b, four);
      assert OfVersion(a, four) == first + OfVersion(a[1..], four);
      hide OfVersion;
    }
  }

  lemma OneKindFirst(first: seq<Ip>, second: seq<Ip>)
    requires (forall ip | ip in first :: ip.V4?) && (forall ip | ip in second :: !ip.V4?)
    ensures forall i, j | 0 <= i < j < |first + second| :: (first + second)[j].V4? ==> (first + second)[i].V4?
  {
    var both := first + second;
    forall j | |first| <= j < |both| ensures !both[j].V4? {
      assert both[j] == second[j - |first|] && second[j - |first|] in second;
    }
    forall i | 0 <= i < |first| ensures both[i].V4? {
      assert both[i] == first[i] && first[i] in first;
    }
  }

  /** IPv4 addresses come first, and those of one version keep their order. */
  lemma PreferenceIsStable(ips: seq<Ip>)
    ensures forall i, j | 0 <= i < j < |PreferV4(ips)| :: PreferV4(ips)[j].V4? ==> PreferV4(ips)[i].V4?
    ensures forall four :: OfVersion(PreferV4(ips), four) == OfVersion(ips, four)
  {
    OneVersion(ips, true);
    OneVersion(ips, false);
    OfVersionAppend(OfVersion(ips, true), OfVersion(ips, false), true);
    OfVersionAppend(OfVersion(ips, true), OfVersion(ips, false), false);
    hide OfVersion;
    OneKindFirst(OfVersion(ips, true), OfVersion(ips, false));
  }

  function AtPort(ips: seq<Ip>, port: nat): (addresses: seq<Address>) {
    seq(|ips|, i requires 0 <= i < |ips| => Address(ips[i], port))
  }

  function FirstFew<T>(s: seq<T>): seq<T> {
    s[..Min(MAX_ADDRESSES, |s|)]
  }

  function Resolved(world: World, endpoint: Endpoint): (r: Result<seq<Address>, WifiError>)
    ensures r.Failure? ==> r.error == Transport
  {
    match world.numeric(endpoint.host)
    case Some(ip) => Success([Address(ip, endpoint.port)])
    case None =>
      match world.names(endpoint.host)
      case None => Failure(Transport)
      case Some(ips) =>
        if ips == [] then Failure(Transport)
        else Success(AtPort(PreferV4(FirstFew(ips)), endpoint.port))
  }

  /** The first of the addresses, from `n` on, where something listens, and what it will send. */
  function FirstPeer(world: World, talk: Talk, addresses: seq<Address>, n: nat)
    : (r: Result<(Address, Bytes), WifiError>)
    requires n <= |addresses|
    ensures r.Success? ==> r.value.0 in addresses
    ensures r.Failure? ==> r.error == Transport
    decreases |addresses| - n
  {
    if n == |addresses| then Failure(Transport)
    else match world.peers(talk, n, addresses[n])
      case Some(stream) => Success((addresses[n], stream))
      case None => FirstPeer(world, talk, addresses, n + 1)
  }

  /** The `n`-th address is the first, from `start` on, where something listens. */
  ghost predicate Answers(world: World, talk: Talk, addresses: seq<Address>, start: nat, n: nat, stream: Bytes) {
    && start <= n < |addresses|
    && world.peers(talk, n, addresses[n]) == Some(stream)
    && forall m: nat | start <= m < n :: world.peers(talk, m, addresses[m]).None?
  }

  /** The peer is the first that answers, and there is one if any address answers. */
  lemma {:induction false} FirstPeerIsFirst(world: World, talk: Talk, addresses: seq<Address>, start: nat)
    requires start <= |addresses|
    ensures match FirstPeer(world, talk, addresses, start)
            case Success((peer, stream)) =>
              exists n: nat :: Answers(world, talk, addresses, start, n, stream) && addresses[n] == peer
            case Failure(_) =>
              forall n: nat | start <= n < |addresses| :: world.peers(talk, n, addresses[n]).None?
    decreases |addresses| - start
  {
    if start < |addresses| {
      match world.peers(talk, start, addresses[start])
      case Some(stream) => assert Answers(world, talk, addresses, start, start, stream);
      case None =>
        FirstPeerIsFirst(world, talk, addresses, start + 1);
        if FirstPeer(world, talk, addresses, start + 1).Success? {
          var (peer, stream) := FirstPeer(world, talk, addresses, start + 1).value;
          var n: nat :| Answers(world, talk, addresses, start + 1, n, stream) && addresses[n] == peer;
          assert Answers(world, talk, addresses, start, n, stream);
        }
    }
  }

  /** The addresses of an endpoint; only a name takes the resolver. */
  method Resolve(clock: Clock, deadline: Time, world: World, endpoint: Endpoint)
    returns (r: Result<seq<Address>, WifiError>)
    requires clock.KeepsTo(deadline)
    modifies clock
    ensures clock.KeepsTo(deadline)
    ensures r == Resolved(world, endpoint) || (r.Failure? && Faulted(r.error))
    ensures old(clock.trouble) ==> clock.trouble
    ensures clock.trouble ==> old(clock.trouble) || (r.Failure? && Faulted(r.error))
    ensures !clock.trouble ==> r == Resolved(world, endpoint)
  {
    var ip := world.numeric(endpoint.host);
    if ip.Some? {
      return Success([Address(ip.value, endpoint.port)]);
    }
    var left := clock.Remaining(deadline);
    if left.Failure? {
      return Failure(left.error);
    }
    clock.Operate(left.value);
    var fault := clock.Fault();
    if fault.Some? {
      return Failure(fault.value);
    }
    var ips := world.names(endpoint.host);
    if ips.None? || ips.value == [] {
      return Failure(Transport);
    }
    r := Success(AtPort(PreferV4(FirstFew(ips.value)), endpoint.port));
  }

  /** Tries at most eight addresses in turn, each for at most two seconds. */
  method Connect(clock: Clock, deadline: Time, world: World, talk: Talk, addresses: seq<Address>)
    returns (r: Result<Connection, WifiError>)
    requires clock.KeepsTo(deadline)
    modifies clock
    ensures clock.KeepsTo(deadline)
    ensures old(clock.operations) <= clock.operations
    ensures |clock.operations| <= |old(clock.operations)| + MAX_ADDRESSES
    ensures forall i | |old(clock.operations)| <= i < |clock.operations| ::
              clock.operations[i].ended <= clock.operations[i].started + 2 * SECOND
    ensures r.Success? ==>
              && fresh(r.value) && r.value.Valid()
              && r.value.clock == clock && r.value.deadline == deadline
              && r.value.taken == 0 && r.value.outgoing == []
              && exists n: nat | n < |FirstFew(addresses)| ::
                   && r.value.peer == FirstFew(addresses)[n]
                   && world.peers(talk, n, r.value.peer) == Some(r.value.incoming)
    ensures r.Failure? ==> Faulted(r.error)
    ensures old(clock.trouble) ==> clock.trouble
    ensures !clock.trouble ==>
              match FirstPeer(world, talk, FirstFew(addresses), 0)
              case Success(peer) => r.Success? && (r.value.peer, r.value.incoming) == peer
              case Failure(e) => r == Failure(e)
  {
    var few := FirstFew(addresses);
    var last := Transport;
    for i := 0 to |few|
      invariant clock.KeepsTo(deadline) && Faulted(last)
      invariant old(clock.operations) <= clock.operations
      invariant |clock.operations| <= |old(clock.operations)| + i
      invariant forall i | |old(clock.operations)| <= i < |clock.operations| ::
                  clock.operations[i].ended <= clock.operations[i].started + 2 * SECOND
      invariant old(clock.trouble) ==> clock.trouble
      invariant !clock.trouble ==>
                  && last == Transport
                  && FirstPeer(world, talk, few, 0) == FirstPeer(world, talk, few, i)
    {
      var left := clock.Remaining(deadline);
      if left.Failure? {
        return Failure(left.error);
      }
      clock.Operate(Min(left.value, 2 * SECOND));
      var fault := clock.Fault();
      var stream := world.peers(talk, i, few[i]);
      if fault.None? && stream.Some? {
        var connection := new Connection(clock, deadline, few[i], stream.value);
        return Success(connection);
      }
      last := if fault.Some? then fault.value else Transport;
    }
    r := Failure(last);
  }

  // ----- The lookup -----

  /** What a lookup yields when nothing goes wrong: the service's URI and the master's address. */
  function LookedUp(world: World, master: Endpoint): (r: Result<(Bytes, Address), WifiError>)
    ensures r.Failure? ==> PeerError(r.error) || r.error == ServiceUnavailable
  {
    var addresses :- Resolved(world, master);
    var (peer, stream) :- FirstPeer(world, ToMaster, FirstFew(addresses), 0);
    var (body, rest) :- TakeReply(stream);
    if !Utf8.Valid(body) then Failure(Protocol(BadLookupReply))
    else match world.lookupResult(body)
      case Found(uri) => Success((uri, peer))
      case NoService => Failure(ServiceUnavailable)
      case Unreadable => Failure(Protocol(BadLookupReply))
  }

  /** The ghost result is the connection to the master, if there was one. */
  method LookupService(clock: Clock, deadline: Time, world: World, master: Endpoint, caller: Bytes)
    returns (r: Result<(Bytes, Address), WifiError>, ghost connection: Connection?)
    requires clock.KeepsTo(deadline)
    modifies clock
    ensures clock.KeepsTo(deadline)
    ensures connection != null ==>
              fresh(connection) && connection.outgoing <= LookupRequest(master.path, master.authority, caller)
    ensures r.Success? ==>
              && connection != null && connection.taken <= |connection.incoming|
              && connection.outgoing == LookupRequest(master.path, master.authority, caller)
              && r.value.1 == connection.peer
              && match TakeReply(connection.incoming[..connection.taken])
                 case Success((body, rest)) =>
                   rest == [] && Utf8.Valid(body) && world.lookupResult(body) == Found(r.value.0)
                 case Failure(_) => false
    ensures r.Failure? ==> PeerError(r.error) || r.error in {Timeout, ServiceUnavailable}
    ensures old(clock.trouble) ==> clock.trouble
    ensures !clock.trouble ==> r == LookedUp(world, master)
  {
    hide TakeReply, Utf8.Valid, Resolved, FirstPeer, LookupRequest;
    connection := null;
    var addresses := Resolve(clock, deadline, world, master);
    if addresses.Failure? {
      return Failure(addresses.error), connection;
    }
    var connected := Connect(clock, deadline, world, ToMaster, addresses.value);
    if connected.Failure? {
      return Failure(connected.error), connection;
    }
    var stream := connected.value;
    connection := stream;
    var written := stream.WriteAll(LookupRequest(master.path, master.authority, caller));
    if written.Failure? {
      return Failure(written.error), connection;
    }
    assert stream.incoming[0..] == stream.incoming;
    var body := ReadHttpBody(stream);
    assert stream.incoming[0..stream.taken] == stream.incoming[..stream.taken];
    if body.Failure? {
      return Failure(body.error), connection;
    }
    if !Utf8.Valid(body.value) {
      return Failure(Protocol(BadLookupReply)), connection;
    }
    match world.lookupResult(body.value) {
      case Found(uri) => r := Success((uri, stream.peer));
      case NoService => r := Failure(ServiceUnavailable);
      case Unreadable => r := Failure(Protocol(BadLookupReply));
    }
  }

  /** Every lookup request announces exactly the length of its own body: what a configuration may
      hold guarantees it. */
  lemma EveryRequestAnnouncesItsBody(world: World, masterUri: Bytes, name: Bytes)
    requires MasterEndpoint(world, masterUri).Some? && CallerId(name).Success?
    ensures var e, caller := MasterEndpoint(world, masterUri).value, CallerId(name).value;
            var body := LookupBody(caller);
            var header := LookupHeader(e.path, e.authority, |body|);
            && LookupRequest(e.path, e.authority, caller) == header + body
            && AnnouncesOnly(Lines(header, 0)[1..], |body|)
  {
    ParsedEndpoint(masterUri, MASTER_SCHEME, true, world.ipv6);
    var e, caller := MasterEndpoint(world, masterUri).value, CallerId(name).value;
    hide *;
    RequestAnnouncesItsBody(e.path, e.authority, caller);
  }

  // ----- The whole run -----

  /** Where the service is: the robot's own name for itself stands for the master's address. */
  function ServiceAddresses(world: World, service: Endpoint, master: Address): (r: Result<seq<Address>, WifiError>)
    ensures r.Failure? ==> r.error == Transport
  {
    if service.host == INTERNAL_HOSTNAME then Success([Address(master.ip, service.port)])
    else Resolved(world, service)
  }

  /** The peer that the run ends up talking to, and what it will send. */
  function ServicePeer(world: World, masterUri: Bytes): Result<(Address, Bytes), WifiError> {
    match MasterEndpoint(world, masterUri)
    case None => Failure(InvalidConfiguration)
    case Some(master) =>
      var (uri, at) :- LookedUp(world, master);
      match ServiceEndpoint(world, uri)
      case None => Failure(InvalidConfiguration)
      case Some(service) =>
        var addresses :- ServiceAddresses(world, service, at);
        FirstPeer(world, ToService, FirstFew(addresses), 0)
  }

  predicate ValidTimeout(timeout: Time) {
    SECOND <= timeout <= 60 * SECOND
  }

  /** The outcome when nothing goes wrong on the way. */
  function Expected(world: World, masterUri: Bytes, name: Bytes, timeout: Time): Result<Outcome, WifiError> {
    if !ValidTimeout(timeout) || MasterEndpoint(world, masterUri).None? then Failure(InvalidConfiguration)
    else
      var _ :- CallerId(name);
      var (peer, stream) :- ServicePeer(world, masterUri);
      var answer :- TakeHandshake(stream);
      Verdict(answer)
  }

  /** Once a handshake is done, after `agreed` bytes of the service's, the request has been sent at
      most once and the result is the verdict, or uncertain if not all of the request went out. */
  ghost predicate Decided(service: Connection, agreed: nat, hello: Bytes, request: Bytes, r: Result<Outcome, WifiError>)
    reads service
  {
    && agreed <= service.taken <= |service.incoming|
    && IsHandshake(service.incoming[..agreed], [])
    && hello <= service.outgoing <= hello + request
    && r == if service.outgoing == hello + request
            then Verdict(service.incoming[agreed..service.taken])
            else Success(DeliveryUncertain)
  }

  /** Connects to the service that a lookup found. */
  method ReachService(clock: Clock, deadline: Time, world: World, service: Endpoint, master: Address)
    returns (r: Result<Connection, WifiError>)
    requires clock.KeepsTo(deadline)
    modifies clock
    ensures clock.KeepsTo(deadline)
    ensures r.Success? ==>
              && fresh(r.value) && r.value.Valid()
              && r.value.clock == clock && r.value.deadline == deadline
              && r.value.taken == 0 && r.value.outgoing == []
    ensures r.Failure? ==> Faulted(r.error)
    ensures old(clock.trouble) ==> clock.trouble
    ensures !clock.trouble ==>
              match ServiceAddresses(world, service, master)
              case Failure(e) => r == Failure(e)
              case Success(addresses) =>
                match FirstPeer(world, ToService, FirstFew(addresses), 0)
                case Success(peer) => r.Success? && (r.value.peer, r.value.incoming) == peer
                case Failure(e) => r == Failure(e)
  {
    hide Resolved, FirstPeer, FirstFew;
    var addresses := Success([Address(master.ip, service.port)]);
    if service.host != INTERNAL_HOSTNAME {
      addresses := Resolve(clock, deadline, world, service);
      if addresses.Failure? {
        return Failure(addresses.error);
      }
    }
    r := Connect(clock, deadline, world, ToService, addresses.value);
  }

  method FindService(clock: Clock, deadline: Time, world: World, masterUri: Bytes, name: Bytes)
    returns (r: Result<Connection, WifiError>, caller: Bytes)
    requires clock.KeepsTo(deadline)
    modifies clock
    ensures clock.KeepsTo(deadline)
    ensures r.Success? ==>
              && CallerId(name) == Success(caller)
              && fresh(r.value) && r.value.Valid()
              && r.value.clock == clock && r.value.deadline == deadline
              && r.value.taken == 0 && r.value.outgoing == []
    ensures r.Failure? ==> !r.error.Rejected? && r.error != ServiceFailed
    ensures old(clock.trouble) ==> clock.trouble
    ensures !clock.trouble ==>
              if MasterEndpoint(world, masterUri).None? then r == Failure(InvalidConfiguration)
              else match CallerId(name)
                   case Failure(e) => r == Failure(e)
                   case Success(_) =>
                     match ServicePeer(world, masterUri)
                     case Success(peer) => r.Success? && (r.value.peer, r.value.incoming) == peer
                     case Failure(e) => r == Failure(e)
  {
    hide Resolved, FirstPeer, LookedUp, ServiceAddresses, MasterEndpoint, ServiceEndpoint;
    caller := [];
    var master := MasterEndpoint(world, masterUri);
    if master.None? {
      return Failure(InvalidConfiguration), caller;
    }
    var id := CallerId(name);
    if id.Failure? {
      return Failure(id.error), caller;
    }
    caller := id.value;
    var found, _ := LookupService(clock, deadline, world, master.value, caller);
    if found.Failure? {
      return Failure(found.error), caller;
    }
    var (uri, at) := found.value;
    var service := ServiceEndpoint(world, uri);
    if service.None? {
      return Failure(InvalidConfiguration), caller;
    }
    r := ReachService(clock, deadline, world, service.value, at);
  }

  /** The conversation with the service on a fresh connection. The ghost result is how much of what
      the service sent was its half of the handshake, if that was accepted. */
  method Converse(connection: Connection, caller: Bytes, credentials: WifiCredentials)
    returns (r: Result<Outcome, WifiError>, ghost agreed: Option<nat>)
    requires connection.Valid() && connection.taken == 0 && connection.outgoing == []
    modifies connection`taken, connection`outgoing, connection.clock
    ensures connection.Valid()
    ensures match agreed
            case Some(n) =>
              Decided(connection, n, Counted(Hello(caller)), Counted(EncodeRequest(credentials)), r)
            case None =>
              connection.outgoing <= Counted(Hello(caller)) && r.Failure? && !r.error.Rejected?
    ensures old(connection.clock.trouble) ==> connection.clock.trouble
    ensures !connection.clock.trouble ==>
              r == match TakeHandshake(connection.incoming)
                   case Failure(e) => Failure(e)
                   case Success(answer) => Verdict(answer)
  {
    hide TakeHandshake, Verdict, Hello, Counted, EncodeRequest;
    agreed := None;
    assert connection.incoming[0..] == connection.incoming;
    var shaken := Handshake(connection, caller);
    if shaken.Failure? {
      return Failure(shaken.error), agreed;
    }
    agreed := Some(connection.taken);
    assert connection.incoming[0..connection.taken] == connection.incoming[..connection.taken];
    HandshakeMeansSchema(connection.incoming[..connection.taken], []);
    hide IsHandshake;
    r := SendCredentials(connection, credentials);
  }

  /** One Wi-Fi setup. Every operation keeps to the one deadline. The ghost results are the connection
      to the service, if there was one, and how much of what it sent was its half of the handshake,
      if that was accepted: no byte of the request goes out before, and only then can the result be
      anything but a plain failure. When nothing goes wrong the result is the expected one. */
  method ProvisionWifi(
      clock: Clock, world: World, masterUri: Bytes, name: Bytes, credentials: WifiCredentials, timeout: Time)
    returns (r: Result<Outcome, WifiError>, ghost service: Connection?, ghost agreed: Option<nat>)
    requires ValidCredentials(credentials) && clock.operations == [] && !clock.trouble
    modifies clock
    ensures clock.KeepsTo(old(clock.now) + timeout)
    ensures !ValidTimeout(timeout) ==> r == Failure(InvalidConfiguration) && clock.operations == []
    ensures service != null ==> fresh(service) && CallerId(name).Success?
    ensures match agreed
            case Some(n) =>
              && service != null
              && Decided(service, n, Counted(Hello(CallerId(name).value)), Counted(EncodeRequest(credentials)), r)
            case None =>
              && (service != null ==> service.outgoing <= Counted(Hello(CallerId(name).value)))
              && r.Failure? && !r.error.Rejected?
    ensures !clock.trouble ==> r == Expected(world, masterUri, name, timeout)
  {
    hide TakeHandshake, Verdict, Hello, Counted, EncodeRequest, ServicePeer, CallerId, ValidCredentials;
    hide MasterEndpoint, Decided;
    service, agreed := null, None;
    if !ValidTimeout(timeout) {
      return Failure(InvalidConfiguration), service, agreed;
    }
    var deadline := clock.now + timeout;
    var found, caller := FindService(clock, deadline, world, masterUri, name);
    if found.Failure? {
      return Failure(found.error), service, agreed;
    }
    var connection := found.value;
    service := connection;
    r, agreed := Converse(connection, caller, credentials);
  }

  /** After a handshake only four outcomes are possible, and the setup is reported as accepted exactly
      when the whole request went out and this acknowledgement came back. */
  lemma OnlyFourOutcomes(service: Connection, agreed: nat, hello: Bytes, request: Bytes, r: Result<Outcome, WifiError>)
    requires Decided(service, agreed, hello, request, r)
    ensures r == Success(Accepted) <==>
              && service.outgoing == hello + request
              && ACKNOWLEDGED <= service.incoming[agreed..service.taken]
    ensures r.Failure? ==> r.error == ServiceFailed || (r.error.Rejected? && r.error.status != 0)
    ensures r.Failure? ==> service.outgoing == hello + request
  {
    var stream := service.incoming[agreed..service.taken];
    VerdictIsExact(stream, 0);
    if Verdict(stream).Failure? && Verdict(stream).error.Rejected? {
      VerdictIsExact(stream, Verdict(stream).error.status);
    }
  }

  /** A run that finds a service with the right schema, which acknowledges, is accepted. */
  lemma SetupSucceeds(
      world: World, masterUri: Bytes, name: Bytes, timeout: Time, peer: Address,
      fields: seq<(Bytes, Bytes)>, after: Bytes)
    requires ValidTimeout(timeout) && CallerId(name).Success?
    requires ServicePeer(world, masterUri)
             == Success((peer, Counted(Print(fields)) + (ACKNOWLEDGED + after)))
    requires Printable(fields) && |Print(fields)| <= MAX_SERVICE_HEADER
    requires RightSchema(AsMap(fields, map[]))
    ensures Expected(world, masterUri, name, timeout) == Success(Accepted)
  {
    GoodServiceIsAccepted(fields, ACKNOWLEDGED + after);
    VerdictIsExact(ACKNOWLEDGED + after, 0);
    hide RightSchema, TakeHandshake, Verdict, Printable, Print, AsMap, Counted, CallerId;
  }

  /** The master by a name or an IPv4 address, and the service by the robot's own name for itself. */
  function MasterUri(host: Bytes, port: nat): Bytes {
    Text("http://") + AuthorityText(host, port, false)
  }

  function RobotUri(port: nat): Bytes {
    Text("rosrpc://") + AuthorityText(Text("linaro-alip"), port, false)
  }

  lemma {:induction false} DigitsLength(n: nat)
    ensures n < 10 ==> |Digits(n)| == 1
    ensures n < 100 ==> |Digits(n)| <= 2
    ensures n < 1_000 ==> |Digits(n)| <= 3
    ensures n < 10_000 ==> |Digits(n)| <= 4
    ensures n < 100_000 ==> |Digits(n)| <= 5
  {
    if n >= 10 {
      DigitsLength(n / 10);
    }
  }

  lemma MasterIsParsed(world: World, host: Bytes, port: nat)
    requires ValidHost(host, false, world.ipv6) && |host| <= 253 && 1 <= port < MAX_PORT
    ensures MasterEndpoint(world, MasterUri(host, port)).Some?
    ensures var e := MasterEndpoint(world, MasterUri(host, port)).value; e.host == host && e.port == port
  {
    assert AllUriBytes(MASTER_SCHEME);
    DigitsLength(port);
    hide ValidHost, Digits, Parse, AllUriBytes;
    ParseInvertsUri(MASTER_SCHEME, host, port, [SLASH], true, false, world.ipv6);
  }

  lemma RobotIsParsed(world: World, port: nat)
    requires 1 <= port < MAX_PORT
    ensures ServiceEndpoint(world, RobotUri(port)).Some?
    ensures var e := ServiceEndpoint(world, RobotUri(port)).value;
            e.host == INTERNAL_HOSTNAME && e.port == port
  {
    assert AllUriBytes(SERVICE_SCHEME) && ValidHost(INTERNAL_HOSTNAME, false, world.ipv6);
    DigitsLength(port);
    hide ValidHost, Digits, Parse, AllUriBytes;
    ParseInvertsUri(SERVICE_SCHEME, INTERNAL_HOSTNAME, port, [SLASH], false, false, world.ipv6);
  }

  /** The master's reply says that the robot itself has the service, at a port. */
  ghost predicate RobotServes(world: World, reply: Bytes, port: nat) {
    exists body, rest ::
      && TakeReply(reply) == Success((body, rest)) && Utf8.Valid(body)
      && world.lookupResult(body) == Found(RobotUri(port))
  }

  lemma RobotIsLookedUp(world: World, master: Endpoint, ip: Ip, reply: Bytes, port: nat)
    requires world.numeric(master.host) == Some(ip)
    requires world.peers(ToMaster, 0, Address(ip, master.port)) == Some(reply) && RobotServes(world, reply, port)
    ensures LookedUp(world, master) == Success((RobotUri(port), Address(ip, master.port)))
  {
    hide TakeReply, Utf8.Valid, RobotUri;
    assert FirstPeer(world, ToMaster, [Address(ip, master.port)], 0) == Success((Address(ip, master.port), reply));
  }

  lemma RobotIsReached(
      world: World, host: Bytes, masterPort: nat, ip: Ip, reply: Bytes, port: nat, stream: Bytes)
    requires ValidHost(host, false, world.ipv6) && |host| <= 253 && world.numeric(host) == Some(ip)
    requires 1 <= masterPort < MAX_PORT && 1 <= port < MAX_PORT
    requires world.peers(ToMaster, 0, Address(ip, masterPort)) == Some(reply) && RobotServes(world, reply, port)
    requires world.peers(ToService, 0, Address(ip, port)) == Some(stream)
    ensures ServicePeer(world, MasterUri(host, masterPort)) == Success((Address(ip, port), stream))
  {
    MasterIsParsed(world, host, masterPort);
    RobotIsParsed(world, port);
    hide MasterEndpoint, ServiceEndpoint, LookedUp, MasterUri, RobotUri, RobotServes, ValidHost;
    RobotIsLookedUp(world, MasterEndpoint(world, MasterUri(host, masterPort)).value, ip, reply, port);
    assert FirstPeer(world, ToService, [Address(ip, port)], 0) == Success((Address(ip, port), stream));
  }

  /** A setup through the robot: the master answers at a numeric address, and names the service by the
      robot's own name for itself and a port; the service is then sought at the master's address and
      that port, and if it shows the right schema and acknowledges, the setup is accepted. */
  lemma RobotIsSetUp(
      world: World, host: Bytes, masterPort: nat, ip: Ip, reply: Bytes, port: nat,
      name: Bytes, timeout: Time, fields: seq<(Bytes, Bytes)>, after: Bytes)
    requires 1_000_000_000 <= timeout <= 60_000_000_000 && CallerId(name).Success?
    requires ValidHost(host, false, world.ipv6) && |host| <= 253 && world.numeric(host) == Some(ip)
    requires 1 <= masterPort < MAX_PORT && 1 <= port < MAX_PORT
    requires world.peers(ToMaster, 0, Address(ip, masterPort)) == Some(reply) && RobotServes(world, reply, port)
    requires world.peers(ToService, 0, Address(ip, port)) == Some(Counted(Print(fields)) + (ACKNOWLEDGED + after))
    requires Printable(fields) && |Print(fields)| <= MAX_SERVICE_HEADER && RightSchema(AsMap(fields, map[]))
    ensures Expected(world, MasterUri(host, masterPort), name, timeout) == Success(Accepted)
  {
    assert ValidTimeout(timeout);
    hide *;
    RobotIsReached(world, host, masterPort, ip, reply, port, Counted(Print(fields)) + (ACKNOWLEDGED + after));
    SetupSucceeds(world, MasterUri(host, masterPort), name, timeout, Address(ip, port), fields, after);
  }
}
