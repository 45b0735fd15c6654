/** The conversation with the Wi-Fi service (src/ros1/wifi.rs, src/wifi.rs): a handshake, one
    request, one verdict, whatever the service sends. */
module Wifi {
  import opened Base
  import opened Wire
  import opened Messages
  import opened WifiHeader
  import opened WifiNetwork
  import opened WifiHttp
  import Utf8

  const MAX_SERVICE_ERROR := 1024
  const SERVICE: Bytes := Text("/WiFiNode/switch_wifi_ssidkey")
  const SERVICE_MD5: Bytes := Text("879dd501d4c8e7d6703c458f6fc7737c")
  const SERVICE_TYPE: Bytes := Text("roller_eye/wifi_switch_ssid_key")

  datatype Outcome = Accepted | DeliveryUncertain

  // ----- Credentials and the request -----

  datatype WifiCredentials = WifiCredentials(ssid: Bytes, password: Bytes)

  /** Printable ASCII other than quotes and the backslash. */
  predicate SafeByte(b: Byte) {
    32 <= b <= 126 && b != 39 && b != 34 && b != 92
  }

  predicate ValidCredentials(c: WifiCredentials) {
    && 1 <= |c.ssid| <= 32
    && 8 <= |c.password| <= 63
    && (forall b | b in c.ssid :: SafeByte(b))
    && (forall b | b in c.password :: SafeByte(b))
  }

  datatype CredentialsError = SsidLength | PassphraseLength | SsidBytes | PassphraseBytes

  /** Credentials exist only once checked; the lengths are complained of before the bytes. */
  function NewCredentials(ssid: Bytes, password: Bytes): (r: Result<WifiCredentials, CredentialsError>)
    ensures r.Success? <==> ValidCredentials(WifiCredentials(ssid, password))
    ensures r.Success? ==> r.value == WifiCredentials(ssid, password)
    ensures r == Failure(SsidLength) <==> |ssid| < 1 || |ssid| > 32
    ensures r == Failure(PassphraseLength) <==> 1 <= |ssid| <= 32 && (|password| < 8 || |password| > 63)
    ensures r == Failure(SsidBytes) <==>
              1 <= |ssid| <= 32 && 8 <= |password| <= 63 && exists b | b in ssid :: !SafeByte(b)
    ensures r == Failure(PassphraseBytes) <==>
              && 1 <= |ssid| <= 32 && 8 <= |password| <= 63
              && (forall b | b in ssid :: SafeByte(b))
              && exists b | b in password :: !SafeByte(b)
  {
    if !(1 <= |ssid| <= 32) then Failure(SsidLength)
    else if !(8 <= |password| <= 63) then Failure(PassphraseLength)
    else if exists b | b in ssid :: !SafeByte(b) then Failure(SsidBytes)
    else if exists b | b in password :: !SafeByte(b) then Failure(PassphraseBytes)
    else Success(WifiCredentials(ssid, password))
  }

  function EncodeRequest(c: WifiCredentials): Bytes {
    [1] + Counted(c.ssid) + Counted(c.password)
  }

  /** The request is between 18 and 104 bytes long and says exactly which credentials it carries. */
  lemma RequestIsCanonical(a: WifiCredentials, b: WifiCredentials, s: Bytes, t: Bytes)
    requires ValidCredentials(a) && ValidCredentials(b)
    ensures 18 <= |EncodeRequest(a)| <= 104
    ensures EncodeRequest(a) + s == EncodeRequest(b) + t ==> a == b && s == t
  {
    Powers();
    hide Power256, SafeByte, LeBytes;
    if EncodeRequest(a) + s == EncodeRequest(b) + t {
      var x, y := Counted(a.ssid) + (Counted(a.password) + s), Counted(b.ssid) + (Counted(b.password) + t);
      assert x == (EncodeRequest(a) + s)[1..] && y == (EncodeRequest(b) + t)[1..];
      CountedIsCanonical(a.ssid, b.ssid, Counted(a.password) + s, Counted(b.password) + t);
      CountedIsCanonical(a.password, b.password, s, t);
    }
  }

  // ----- The handshake -----

  predicate CallerByte(b: Byte) {
    48 <= b <= 57 || 65 <= b <= 90 || 97 <= b <= 122 || b == 47 || b == 95
  }

  /** The node's name, with a leading slash. */
  function CallerId(name: Bytes): (r: Result<Bytes, WifiError>)
    ensures r.Success? <==> 1 <= |name| <= 256 && forall b | b in name :: CallerByte(b)
    ensures r.Success? ==> 1 <= |r.value| <= 257 && forall b | b in r.value :: CallerByte(b)
    ensures r.Success? ==> r.value[0] == 47 && (r.value == name || (r.value[1..] == name && name[0] != 47))
    ensures r.Failure? ==> r.error == InvalidConfiguration
  {
    if name == [] || |name| > 256 || exists b | b in name :: !CallerByte(b)
    then Failure(InvalidConfiguration)
    else Success(if name[0] == 47 then name else [47] + name)
  }

  function HelloFields(caller: Bytes): seq<(Bytes, Bytes)> {
    [(Text("callerid"), caller), (Text("service"), SERVICE), (Text("md5sum"), SERVICE_MD5),
     (Text("type"), SERVICE_TYPE), (Text("persistent"), Text("0"))]
  }

  function Hello(caller: Bytes): Bytes {
    Print(HelloFields(caller))
  }

  /** The schema check on what the service said of itself. */
  function CheckSchema(fields: Fields): Result<(), WifiError> {
    if Text("error") in fields then Failure(ServiceFailed)
    else if Text("md5sum") !in fields || fields[Text("md5sum")] != SERVICE_MD5 then Failure(Protocol(SchemaMismatch))
    else if Text("type") in fields && fields[Text("type")] != SERVICE_TYPE then Failure(Protocol(TypeMismatch))
    else Success(())
  }

  /** The service's half of the handshake at the start of a stream, and what follows it. */
  function TakeHandshake(stream: Bytes): (r: Result<Bytes, WifiError>)
    ensures r.Failure? ==> PeerError(r.error) || r.error == ServiceFailed
  {
    var (body, rest) :- TakeFrame(stream, MAX_SERVICE_HEADER);
    var fields :- ParseFrom(body, map[]);
    var _ :- CheckSchema(fields);
    Success(rest)
  }

  method Handshake(connection: Connection, caller: Bytes) returns (r: Result<(), WifiError>)
    requires connection.Valid()
    modifies connection`taken, connection`outgoing, connection.clock
    ensures connection.Valid() && old(connection.taken) <= connection.taken
    ensures old(connection.outgoing) <= connection.outgoing <= old(connection.outgoing) + Counted(Hello(caller))
    ensures var received := connection.incoming[old(connection.taken)..connection.taken];
            if r.Success? then
              && connection.outgoing == old(connection.outgoing) + Counted(Hello(caller))
              && TakeHandshake(received) == Success([])
            else Faulted(r.error) || TakeHandshake(received) == Failure(r.error)
    ensures old(connection.clock.trouble) ==> connection.clock.trouble
    ensures connection.clock.trouble ==> old(connection.clock.trouble) || (r.Failure? && Faulted(r.error))
    ensures !connection.clock.trouble ==>
              match TakeHandshake(connection.incoming[old(connection.taken)..])
              case Success(rest) => r == Success(()) && connection.incoming[connection.taken..] == rest
              case Failure(e) => r == Failure(e)
  {
    hide TakeFrame, Counted, Hello, ParseFrom;
    var written := connection.WriteFrame(Hello(caller));
    if written.Failure? {
      return written;
    }
    var body := connection.ReadFrame(MAX_SERVICE_HEADER);
    if body.Failure? {
      return Failure(body.error);
    }
    var fields := ParseHeader(body.value);
    if fields.Failure? {
      return Failure(fields.error);
    }
    r := CheckSchema(fields.value);
  }

  // ----- The verdict -----

  /** What the start of a stream answers to the request. */
  function Verdict(stream: Bytes): Result<Outcome, WifiError> {
    if stream == [] then Success(DeliveryUncertain)
    else if stream[0] == 1 then
      match TakeFrame(stream[1..], 1)
      case Success((body, rest)) =>
        if body == [0] then Success(Accepted)
        else if |body| == 1 then
          Powers();
          Failure(Rejected(Signed(body[0], 1)))
        else Success(DeliveryUncertain)
      case Failure(e) => Success(DeliveryUncertain)
    else if stream[0] == 0 then
      match TakeFrame(stream[1..], MAX_SERVICE_ERROR)
      case Success((body, rest)) => Failure(ServiceFailed)
      case Failure(e) => Success(DeliveryUncertain)
    else Success(DeliveryUncertain)
  }

  /** Sends the request, once, and reads the answer. A write that fails leaves the delivery
      uncertain; otherwise the result is the verdict of the bytes read. */
  method SendCredentials(connection: Connection, credentials: WifiCredentials)
    returns (r: Result<Outcome, WifiError>)
    requires connection.Valid()
    modifies connection`taken, connection`outgoing, connection.clock
    ensures connection.Valid() && old(connection.taken) <= connection.taken
    ensures var all := old(connection.outgoing) + Counted(EncodeRequest(credentials));
            && old(connection.outgoing) <= connection.outgoing <= all
            && r == if connection.outgoing == all
                    then Verdict(connection.incoming[old(connection.taken)..connection.taken])
                    else Success(DeliveryUncertain)
    ensures old(connection.clock.trouble) ==> connection.clock.trouble
    ensures connection.clock.trouble ==> old(connection.clock.trouble) || r == Success(DeliveryUncertain)
    ensures !connection.clock.trouble ==>
              && connection.outgoing == old(connection.outgoing) + Counted(EncodeRequest(credentials))
              && r == Verdict(connection.incoming[old(connection.taken)..])
  {
    hide TakeFrame, Counted, EncodeRequest;
    var written := connection.WriteFrame(EncodeRequest(credentials));
    if written.Failure? {
      return Success(DeliveryUncertain);
    }
    ghost var from := connection.taken;
    ghost var stream := connection.incoming[from..];
    var success := connection.ReadExact(1);
    if success.Failure? {
      return Success(DeliveryUncertain);
    }
    assert success.value[0] == stream[0] && stream[1..] == connection.incoming[connection.taken..];
    match success.value[0] {
      case 1 =>
        var body := connection.ReadFrame(1);
        assert connection.incoming[from..connection.taken][1..] == connection.incoming[from + 1..connection.taken];
        if body == Success([0]) {
          r := Success(Accepted);
        } else if body.Success? && |body.value| == 1 {
          Powers();
          r := Failure(Rejected(Signed(body.value[0], 1)));
        } else {
          r := Success(DeliveryUncertain);
        }
      case 0 =>
        var body := connection.ReadFrame(MAX_SERVICE_ERROR);
        assert connection.incoming[from..connection.taken][1..] == connection.incoming[from + 1..connection.taken];
        r := if body.Success? then Failure(ServiceFailed) else Success(DeliveryUncertain);
      case _ =>
        r := Success(DeliveryUncertain);
    }
  }

  const ACKNOWLEDGED: Bytes := [1, 1, 0, 0, 0, 0]

  lemma OneByteFrame(length: Bytes)
    requires |length| == 4
    ensures LeValue(length) == 1 <==> length == [1, 0, 0, 0]
    ensures LeValue(length) == 0 <==> length == [0, 0, 0, 0]
  {
    Powers();
    LeBytesOfValue(length);
    LeValueOfBytes(1, 4);
    LeValueOfBytes(0, 4);
    hide LeValue, Power256;
    assert LeBytes(1, 4) == [1, 0, 0, 0] && LeBytes(0, 4) == [0, 0, 0, 0];
  }

  /** Accepted means that exactly this acknowledgement arrived; a rejection carries its nonzero
      status; a failure came with its whole text, within the limit; nothing else is ever reported. */
  lemma VerdictIsExact(s: Bytes, status: int)
    requires -128 <= status < 128
    ensures Verdict(s) == Success(Accepted) <==> ACKNOWLEDGED <= s
    ensures Power256(1) == 256
    ensures Verdict(s) == Failure(Rejected(status)) <==>
              status != 0 && ACKNOWLEDGED[5 := Unsigned(status, 1)] <= s
    ensures Verdict(s) == Failure(ServiceFailed) <==>
              && |s| >= 5 && s[0] == 0
              && var n := LeValue(s[1..5]); n <= MAX_SERVICE_ERROR && |s| >= 5 + n
    ensures Verdict(s).Failure? ==>
              || Verdict(s).error == ServiceFailed
              || (Verdict(s).error.Rejected? && -128 <= Verdict(s).error.status < 128)
  {
    Powers();
    hide Power256;
    if |s| >= 6 && s[0] == 1 {
      assert s[1..][..4] == s[1..5];
      OneByteFrame(s[1..5]);
      assert s[1..][4..5] == [s[5]];
    } else if |s| >= 5 {
      assert s[1..][..4] == s[1..5];
      OneByteFrame(s[1..5]);
    }
  }

  // ----- What the service learns -----

  lemma {:induction false} AsciiIsUtf8(s: Bytes)
    requires Ascii(s)
    ensures Utf8.Valid(s)
  {
    if s != [] {
      assert Utf8.CharacterLength(s) == 1;
      AsciiIsUtf8(s[1..]);
    }
  }

  lemma HelloFieldPrints(name: string, value: Bytes)
    requires forall i | 0 <= i < |name| :: name[i] < 128 as char && name[i] != '='
    requires |name| + |value| < 1000 && Ascii(value)
    ensures PrintableField((Text(name), value))
  {
    hide Utf8.Valid;
    AsciiIsUtf8(FieldText(Text(name), value));
  }

  lemma CallerIsAscii(caller: Bytes)
    requires forall b | b in caller :: CallerByte(b)
    ensures Ascii(caller)
  {
    forall i | 0 <= i < |caller| ensures caller[i] < 128 {
      assert caller[i] in caller;
    }
  }

  lemma DistinctFields(caller: Bytes)
    ensures forall i, j | 0 <= i < j < |HelloFields(caller)| :: HelloFields(caller)[i].0 != HelloFields(caller)[j].0
  {
    hide Text;
    var fields := HelloFields(caller);
    assert |fields[0].0| == 8 && |fields[1].0| == 7 && |fields[2].0| == 6 && |fields[3].0| == 4 && |fields[4].0| == 10;
  }

  lemma FewFields(caller: Bytes)
    ensures |HelloFields(caller)| <= MAX_FIELDS
  {
    hide Text;
  }

  lemma HelloPrints(caller: Bytes)
    requires |caller| <= 257 && forall b | b in caller :: CallerByte(b)
    ensures Printable(HelloFields(caller))
  {
    hide Text, PrintableField, Ascii, CallerByte, Utf8.Valid;
    CallerIsAscii(caller);
    HelloFieldPrints("callerid", caller);
    HelloFieldPrints("service", SERVICE);
    HelloFieldPrints("md5sum", SERVICE_MD5);
    HelloFieldPrints("type", SERVICE_TYPE);
    HelloFieldPrints("persistent", Text("0"));
    FewFields(caller);
    DistinctFields(caller);
  }

  /** A service that parses the header of any caller gets exactly the five fields. */
  lemma HelloIsUnderstood(caller: Bytes)
    requires |caller| <= 257 && forall b | b in caller :: CallerByte(b)
    ensures ParseFrom(Hello(caller), map[]) == Success(AsMap(HelloFields(caller), map[]))
  {
    HelloPrints(caller);
    hide HelloFields, Printable, ParseFrom, Print, AsMap, CallerByte;
    FewFields(caller);
    ParseInvertsPrint(HelloFields(caller), map[]);
  }

  /** What a service says of itself that is sent credentials: no error, the schema of the supported
      firmware, and the type of the service if it gives one. */
  ghost predicate RightSchema(fields: Fields) {
    && Text("error") !in fields
    && Text("md5sum") in fields && fields[Text("md5sum")] == SERVICE_MD5
    && (Text("type") in fields ==> fields[Text("type")] == SERVICE_TYPE)
  }

  /** `stream` is the header of a service with the right schema, and then `rest`. */
  ghost predicate HeaderWith(stream: Bytes, fields: seq<(Bytes, Bytes)>, rest: Bytes) {
    && Printable(fields) && |Print(fields)| <= MAX_SERVICE_HEADER
    && stream == Counted(Print(fields)) + rest
    && RightSchema(AsMap(fields, map[]))
  }

  ghost predicate IsHandshake(stream: Bytes, rest: Bytes) {
    exists fields :: HeaderWith(stream, fields, rest)
  }

  /** Which fields pass, and what the others are refused for. */
  lemma SchemaIsChecked(fields: Fields)
    ensures CheckSchema(fields).Success? <==> RightSchema(fields)
    ensures CheckSchema(fields) == Failure(ServiceFailed) <==> Text("error") in fields
    ensures CheckSchema(fields) == Failure(Protocol(SchemaMismatch)) <==>
              && Text("error") !in fields
              && !(Text("md5sum") in fields && fields[Text("md5sum")] == SERVICE_MD5)
  {
    hide Text;
  }

  /** A service that answers with a header of printable fields, among them the schema asked for and
      no error, is accepted; what follows the header is then the answer to the request. */
  lemma GoodServiceIsAccepted(fields: seq<(Bytes, Bytes)>, answer: Bytes)
    requires Printable(fields) && |Print(fields)| <= MAX_SERVICE_HEADER
    requires RightSchema(AsMap(fields, map[]))
    ensures TakeHandshake(Counted(Print(fields)) + answer) == Success(answer)
  {
    HeaderLimit();
    SchemaIsChecked(AsMap(fields, map[]));
    TakeFrameInvertsCounted(Print(fields), answer, MAX_SERVICE_HEADER);
    hide Power256, TakeFrame, CheckSchema, RightSchema;
    ParseInvertsPrint(fields, map[]);
  }

  lemma AcceptedHasSchema(stream: Bytes, rest: Bytes)
    requires TakeHandshake(stream) == Success(rest)
    ensures IsHandshake(stream, rest)
  {
    hide TakeFrame, ParseFrom, CheckSchema, RightSchema, Printable, Print, AsMap, Counted;
    var (body, after) := TakeFrame(stream, MAX_SERVICE_HEADER).value;
    var fields := ParsedWasPrinted(body, map[]);
    SchemaIsChecked(AsMap(fields, map[]));
    assert HeaderWith(stream, fields, rest);
  }

  /** The handshake is accepted exactly when the stream starts with the header of a service with the
      right schema. */
  lemma HandshakeMeansSchema(stream: Bytes, rest: Bytes)
    ensures TakeHandshake(stream) == Success(rest) <==> IsHandshake(stream, rest)
  {
    if TakeHandshake(stream) == Success(rest) {
      AcceptedHasSchema(stream, rest);
    }
    hide TakeHandshake, Printable, Print, RightSchema;
    forall fields | HeaderWith(stream, fields, rest) ensures TakeHandshake(stream) == Success(rest) {
      GoodServiceIsAccepted(fields, rest);
    }
  }

  // ----- What the service is told -----

  /** Where each part of the request is: the mode, the SSID behind its length, then the passphrase
      behind its own. */
  lemma RequestLayout(c: WifiCredentials)
    requires ValidCredentials(c)
    ensures var r := EncodeRequest(c);
            var n := |c.ssid|;
            && |r| == 9 + n + |c.password|
            && r[0] == 1
            && LeValue(r[1..5]) == n && r[5..5 + n] == c.ssid
            && LeValue(r[5 + n..9 + n]) == |c.password| && r[9 + n..] == c.password
  {
    Powers();
    LeValueOfBytes(|c.ssid|, 4);
    LeValueOfBytes(|c.password|, 4);
    hide Power256, LeValue, LeBytes, SafeByte;
    var r, n := EncodeRequest(c), |c.ssid|;
    assert r[1..5] == LeBytes(n, 4) && r[5 + n..9 + n] == LeBytes(|c.password|, 4);
  }

  lemma AsMapStep(field: (Bytes, Bytes), others: seq<(Bytes, Bytes)>, onto: Fields)
    ensures AsMap([field] + others, onto) == AsMap(others, onto[field.0 := field.1])
  {
    assert ([field] + others)[1..] == others;
  }

  predicate Binds(fields: Fields, name: Bytes, value: Bytes) {
    name in fields && fields[name] == value
  }

  lemma FiveFields(a: (Bytes, Bytes), b: (Bytes, Bytes), c: (Bytes, Bytes), d: (Bytes, Bytes), e: (Bytes, Bytes))
    requires |a.0| == 8 && |b.0| == 7 && |c.0| == 6 && |d.0| == 4 && |e.0| == 10
    ensures var m := AsMap([a, b, c, d, e], map[]);
            && |m| == 5
            && Binds(m, a.0, a.1) && Binds(m, b.0, b.1) && Binds(m, c.0, c.1) && Binds(m, d.0, d.1)
            && Binds(m, e.0, e.1)
  {
    var m1: Fields := map[][a.0 := a.1];
    var m2 := m1[b.0 := b.1];
    var m3 := m2[c.0 := c.1];
    var m4 := m3[d.0 := d.1];
    var m5 := m4[e.0 := e.1];
    AsMapStep(e, [], m4);
    AsMapStep(d, [e], m3);
    AsMapStep(c, [d, e], m2);
    AsMapStep(b, [c, d, e], m1);
    AsMapStep(a, [b, c, d, e], map[]);
    assert [e] + [] == [e] && [d] + [e] == [d, e] && [c] + [d, e] == [c, d, e];
    assert [b] + [c, d, e] == [b, c, d, e] && [a] + [b, c, d, e] == [a, b, c, d, e];
    assert AsMap([], m5) == m5;
  }

  /** The service learns who calls, which service and schema it wants, and that it will not persist:
      these five things and no more. */
  ghost predicate SaysWhatIsWanted(m: Fields, caller: Bytes) {
    && |m| == 5
    && Binds(m, Text("callerid"), caller) && Binds(m, Text("service"), SERVICE)
    && Binds(m, Text("md5sum"), SERVICE_MD5) && Binds(m, Text("type"), SERVICE_TYPE)
    && Binds(m, Text("persistent"), Text("0"))
  }

  lemma FieldsSayWhatIsWanted(caller: Bytes)
    ensures SaysWhatIsWanted(AsMap(HelloFields(caller), map[]), caller)
  {
    hide Text, AsMap, Binds;
    FiveFields((Text("callerid"), caller), (Text("service"), SERVICE), (Text("md5sum"), SERVICE_MD5),
               (Text("type"), SERVICE_TYPE), (Text("persistent"), Text("0")));
  }

  lemma HelloSaysWhatIsWanted(caller: Bytes)
    requires |caller| <= 257 && forall b | b in caller :: CallerByte(b)
    ensures ParseFrom(Hello(caller), map[]).Success?
    ensures SaysWhatIsWanted(ParseFrom(Hello(caller), map[]).value, caller)
  {
    HelloIsUnderstood(caller);
    FieldsSayWhatIsWanted(caller);
    hide *;
  }
}
