/** The connection header of a ROS service (src/ros1/wifi.rs): fields `name=value`, each behind its
    own length, as the ROS Connection Header format lays down. */
module WifiHeader {
  import opened Base
  import opened Wire
  import opened Messages
  import Utf8

  const MAX_SERVICE_HEADER := 64 * 1024
  const MAX_FIELDS := 128
  const EQUALS: Byte := 61

  datatype ProtocolFault =
    | FrameOverLimit | TooManyFields | BadEncoding | NoEqualsSign | DuplicateField
    | SchemaMismatch | TypeMismatch
    | HttpHeaderOverLimit | HttpEncoding | HttpStatus | HttpField | HttpTransferEncoding
    | HttpDuplicateLength | HttpBadLength | HttpNoLength | HttpBodyOverLimit | BadLookupReply

  datatype WifiError =
    | InvalidConfiguration | Timeout | Transport | Protocol(fault: ProtocolFault)
    | ServiceUnavailable | ServiceFailed | Rejected(status: int)

  type Fields = map<Bytes, Bytes>

  /** The errors that what a peer sends can cause: it ends too early or is malformed. */
  predicate PeerError(e: WifiError) {
    e == Transport || e.Protocol?
  }

  /** The text before and after the first `=`. */
  function SplitField(field: Bytes): Option<(Bytes, Bytes)> {
    SplitAt(field, EQUALS)
  }

  function FieldText(name: Bytes, value: Bytes): Bytes {
    name + [EQUALS] + value
  }

  lemma SplitFieldInvertsText(name: Bytes, value: Bytes)
    requires EQUALS !in name
    ensures SplitField(FieldText(name, value)) == Some((name, value))
  {
    SplitAtInvertsJoin(name, EQUALS, value);
  }

  lemma TextInvertsSplitField(field: Bytes)
    ensures match SplitField(field)
            case None => true
            case Some((name, value)) => FieldText(name, value) == field && EQUALS !in name
  {
  }

  /** One frame at the start of a body: its content and what follows. */
  function TakeFrame(body: Bytes, limit: nat): (r: Result<(Bytes, Bytes), WifiError>)
    ensures r.Success? ==> Counted(r.value.0) + r.value.1 == body && |r.value.0| < Power256(4)
    ensures r.Success? ==> |r.value.0| <= limit
    ensures r.Success? ==> |r.value.1| + 4 <= |body|
    ensures r.Failure? ==> PeerError(r.error)
  {
    if |body| < 4 then Failure(Transport)
    else
      LeBytesOfValue(body[..4]);
      var n := LeValue(body[..4]);
      if n > limit then Failure(Protocol(FrameOverLimit))
      else if |body| < 4 + n then Failure(Transport)
      else Success((body[4..4 + n], body[4 + n..]))
  }

  /** One turn of the parsing loop: the field at the start of `body` joins `fields`. */
  function TakeField(body: Bytes, fields: Fields): (r: Result<(Bytes, Fields), WifiError>)
    ensures r.Success? ==> |r.value.0| + 4 <= |body|
    ensures r.Failure? ==> PeerError(r.error)
  {
    if |fields| >= MAX_FIELDS then Failure(Protocol(TooManyFields))
    else
      var (field, rest) :- TakeFrame(body, MAX_SERVICE_HEADER);
      if !Utf8.Valid(field) then Failure(Protocol(BadEncoding))
      else match SplitField(field)
        case None => Failure(Protocol(NoEqualsSign))
        case Some((name, value)) =>
          if name in fields then Failure(Protocol(DuplicateField))
          else Success((rest, fields[name := value]))
  }

  function ParseFrom(body: Bytes, fields: Fields): (r: Result<Fields, WifiError>)
    ensures r.Failure? ==> PeerError(r.error)
    decreases |body|
  {
    if body == [] then Success(fields)
    else
      var (rest, more) :- TakeField(body, fields);
      ParseFrom(rest, more)
  }

  /** The parsing loop; each turn consumes at least four bytes. */
  method ParseHeader(body: Bytes) returns (r: Result<Fields, WifiError>)
    ensures r == ParseFrom(body, map[])
  {
    var cursor := body;
    var fields: Fields := map[];
    while cursor != []
      invariant ParseFrom(body, map[]) == ParseFrom(cursor, fields)
      decreases |cursor|
    {
      if |fields| >= MAX_FIELDS {
        return Failure(Protocol(TooManyFields));
      }
      var frame := TakeFrame(cursor, MAX_SERVICE_HEADER);
      if frame.Failure? {
        return Failure(frame.error);
      }
      var field := frame.value.0;
      if !Utf8.Valid(field) {
        return Failure(Protocol(BadEncoding));
      }
      var split := SplitField(field);
      if split.None? {
        return Failure(Protocol(NoEqualsSign));
      }
      var (name, value) := split.value;
      if name in fields {
        return Failure(Protocol(DuplicateField));
      }
      fields := fields[name := value];
      cursor := frame.value.1;
    }
    r := Success(fields);
  }

  // ----- Printing, and the two directions of the round trip -----

  ghost predicate PrintableField(field: (Bytes, Bytes)) {
    && EQUALS !in field.0
    && |FieldText(field.0, field.1)| <= MAX_SERVICE_HEADER
    && Utf8.Valid(FieldText(field.0, field.1))
  }

  /** What a header may carry: names without `=`, no two alike, in text, each within the limit. */
  ghost predicate Printable(fields: seq<(Bytes, Bytes)>) {
    && |fields| <= MAX_FIELDS
    && (forall i | 0 <= i < |fields| :: PrintableField(fields[i]))
    && (forall i, j | 0 <= i < j < |fields| :: fields[i].0 != fields[j].0)
  }

  function Print(fields: seq<(Bytes, Bytes)>): Bytes {
    if fields == [] then []
    else Counted(FieldText(fields[0].0, fields[0].1)) + Print(fields[1..])
  }

  function AsMap(fields: seq<(Bytes, Bytes)>, onto: Fields): Fields {
    if fields == [] then onto else AsMap(fields[1..], onto[fields[0].0 := fields[0].1])
  }

  lemma TakeFrameInvertsCounted(content: Bytes, rest: Bytes, limit: nat)
    requires |content| <= limit < Power256(4)
    ensures TakeFrame(Counted(content) + rest, limit) == Success((content, rest))
  {
    var body := Counted(content) + rest;
    assert body[..4] == LeBytes(|content|, 4);
    LeValueOfBytes(|content|, 4);
    assert body[4..4 + |content|] == content && body[4 + |content|..] == rest;
  }

  lemma HeaderLimit()
    ensures MAX_SERVICE_HEADER < Power256(4)
  {
    Powers();
  }

  lemma TakeFieldInvertsPrint(field: (Bytes, Bytes), rest: Bytes, fields: Fields)
    requires PrintableField(field) && field.0 !in fields && |fields| < MAX_FIELDS
    ensures TakeField(Counted(FieldText(field.0, field.1)) + rest, fields)
            == Success((rest, fields[field.0 := field.1]))
  {
    HeaderLimit();
    hide Power256, Utf8.Valid;
    TakeFrameInvertsCounted(FieldText(field.0, field.1), rest, MAX_SERVICE_HEADER);
    hide Counted, TakeFrame;
    SplitFieldInvertsText(field.0, field.1);
  }

  /** Parsing inverts printing: a header made of at most 128 distinct names comes back as the same
      map, on top of whatever was parsed before. */
  lemma {:induction false} ParseInvertsPrint(fields: seq<(Bytes, Bytes)>, onto: Fields)
    requires |onto| + |fields| <= MAX_FIELDS && Printable(fields)
    requires forall i | 0 <= i < |fields| :: fields[i].0 !in onto
    ensures ParseFrom(Print(fields), onto) == Success(AsMap(fields, onto))
    decreases |fields|
  {
    if fields != [] {
      var field, rest := fields[0], Print(fields[1..]);
      TakeFieldInvertsPrint(field, rest, onto);
      var more := onto[field.0 := field.1];
      assert |more| == |onto| + 1;
      ParseInvertsPrint(fields[1..], more);
    }
  }

  lemma FirstFieldWasPrinted(body: Bytes, onto: Fields) returns (field: (Bytes, Bytes), rest: Bytes)
    requires body != [] && ParseFrom(body, onto).Success?
    ensures PrintableField(field) && field.0 !in onto && |onto| < MAX_FIELDS && |rest| < |body|
    ensures body == Counted(FieldText(field.0, field.1)) + rest
    ensures ParseFrom(body, onto) == ParseFrom(rest, onto[field.0 := field.1])
  {
    hide LeValue, LeBytes, Utf8.Valid, Power256, Index;
    var (text, after) := TakeFrame(body, MAX_SERVICE_HEADER).value;
    TextInvertsSplitField(text);
    field, rest := SplitField(text).value, after;
  }

  lemma OneMoreField(field: (Bytes, Bytes), others: seq<(Bytes, Bytes)>, onto: Fields)
    requires PrintableField(field) && field.0 !in onto && Printable(others)
    requires |onto| + 1 + |others| <= MAX_FIELDS
    requires forall i | 0 <= i < |others| :: others[i].0 !in onto[field.0 := field.1]
    ensures Printable([field] + others)
    ensures forall f | f in [field] + others :: f.0 !in onto
    ensures Print([field] + others) == Counted(FieldText(field.0, field.1)) + Print(others)
    ensures AsMap([field] + others, onto) == AsMap(others, onto[field.0 := field.1])
  {
    hide PrintableField, Counted;
    assert ([field] + others)[1..] == others;
  }

  /** Everything accepted was printed: a body that parses is exactly the frames of some fields with
      distinct names, and the map holds those fields. */
  lemma {:induction false} ParsedWasPrinted(body: Bytes, onto: Fields) returns (fields: seq<(Bytes, Bytes)>)
    requires ParseFrom(body, onto).Success? && |onto| <= MAX_FIELDS
    ensures Printable(fields) && |onto| + |fields| <= MAX_FIELDS
    ensures forall i | 0 <= i < |fields| :: fields[i].0 !in onto
    ensures Print(fields) == body && ParseFrom(body, onto).value == AsMap(fields, onto)
    decreases |body|
  {
    if body == [] {
      fields := [];
    } else {
      var field, rest := FirstFieldWasPrinted(body, onto);
      var more := onto[field.0 := field.1];
      assert |more| == |onto| + 1;
      var others := ParsedWasPrinted(rest, more);
      hide *;
      OneMoreField(field, others, onto);
      fields := [field] + others;
      assert forall i | 0 <= i < |fields| :: fields[i] in fields;
    }
  }
}
