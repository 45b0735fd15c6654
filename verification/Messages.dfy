/** The messages the robot publishes (src/frame.rs, src/sensors.rs): each decoder accepts exactly
    the little-endian encodings of valid values, and each valid value has one encoding. */
module Messages {
  import opened Base
  import opened Wire
  import Utf8

  /** The widths of `n` numbers alike. */
  function Repeated(width: nat, n: nat): (w: seq<nat>)
    ensures |w| == n && forall i | 0 <= i < n :: w[i] == width
  {
    seq(n, i => width)
  }

  lemma ConcatLast2(parts: seq<Bytes>, a: Bytes, b: Bytes)
    ensures Concat(parts + [a, b]) == Concat(parts) + (a + b)
  {
    ConcatAppend(parts, [a, b]);
    assert Concat([a, b]) == a + b by {
      ConcatFirst(a, [b]);
      ConcatFirst(b, []);
      assert [a] + [b] == [a, b] && [b] + [] == [b] && Concat<Byte>([]) == [];
    }
  }

  /** A length of four bytes in front of what it counts. */
  function Counted(data: Bytes): Bytes {
    LeBytes(|data|, 4) + data
  }

  lemma CountedIsCanonical(a: Bytes, b: Bytes, s: Bytes, t: Bytes)
    requires |a| < Power256(4) && |b| < Power256(4) && Counted(a) + s == Counted(b) + t
    ensures a == b && s == t
  {
    var x, y := Counted(a) + s, Counted(b) + t;
    assert LeBytes(|a|, 4) == x[..4] && LeBytes(|b|, 4) == y[..4];
    LeValueOfBytes(|a|, 4);
    LeValueOfBytes(|b|, 4);
    assert a == x[4..4 + |a|] && b == y[4..4 + |a|];
    assert s == x[4 + |a|..] && t == y[4 + |a|..];
  }

  // ----- Media frames -----

  const MAX_FRAME_DATA := 16 * 1024 * 1024

  datatype StreamType = H264 | JpegStream | Aac | Unknown(code: int)

  function StreamTypeFrom(code: int): StreamType {
    match code
    case 0 => H264
    case 1 => JpegStream
    case 2 => Aac
    case _ => Unknown(code)
  }

  function StreamCode(t: StreamType): int {
    match t
    case H264 => 0
    case JpegStream => 1
    case Aac => 2
    case Unknown(code) => code
  }

  datatype ScoutFrame = ScoutFrame(
    sequence: nat, timestampMs: nat, session: nat, streamType: StreamType, originalSequence: nat,
    p1: int, p2: int, p3: int, p4: int, data: Bytes)

  /** Sequence, timestamp, session, stream type, original sequence and four parameters. */
  const FRAME_WIDTHS: seq<nat> := [4, 8, 4, 1, 4, 4, 4, 4, 4]

  predicate FitsSigned(x: int, width: nat) {
    -(Power256(width) / 2) <= x < Power256(width) / 2
  }

  predicate ValidFrame(f: ScoutFrame) {
    && f.sequence < Power256(4) && f.timestampMs < Power256(8) && f.session < Power256(4)
    && FitsSigned(StreamCode(f.streamType), 1)
    && StreamTypeFrom(StreamCode(f.streamType)) == f.streamType
    && f.originalSequence < Power256(4)
    && FitsSigned(f.p1, 4) && FitsSigned(f.p2, 4) && FitsSigned(f.p3, 4) && FitsSigned(f.p4, 4)
    && |f.data| <= MAX_FRAME_DATA
  }

  function FrameNumbers(f: ScoutFrame): seq<nat>
    requires ValidFrame(f)
  {
    [f.sequence, f.timestampMs, f.session, Unsigned(StreamCode(f.streamType), 1), f.originalSequence,
     Unsigned(f.p1, 4), Unsigned(f.p2, 4), Unsigned(f.p3, 4), Unsigned(f.p4, 4)]
  }

  function EncodeFrame(f: ScoutFrame): Bytes
    requires ValidFrame(f)
  {
    Concat(NumberParts(FrameNumbers(f), FRAME_WIDTHS)) + Counted(f.data)
  }

  lemma FrameNumberBounds(n: seq<nat>)
    requires Fits(n, FRAME_WIDTHS)
    ensures n[0] < Power256(4) && n[1] < Power256(8) && n[2] < Power256(4)
    ensures n[3] < Power256(1) && n[4] < Power256(4) && n[5] < Power256(4)
    ensures n[6] < Power256(4) && n[7] < Power256(4) && n[8] < Power256(4)
  {
    hide Power256;
  }

  /** The frame with the given numbers on the wire. */
  function FrameOf(n: seq<nat>, data: Bytes): (f: ScoutFrame)
    requires Fits(n, FRAME_WIDTHS) && |data| <= MAX_FRAME_DATA
    ensures ValidFrame(f) && FrameNumbers(f) == n && f.data == data
  {
    FrameNumberBounds(n);
    UnsignedInvertsSigned(n[3], 1);
    UnsignedInvertsSigned(n[5], 4);
    UnsignedInvertsSigned(n[6], 4);
    UnsignedInvertsSigned(n[7], 4);
    UnsignedInvertsSigned(n[8], 4);
    ScoutFrame(n[0], n[1], n[2], StreamTypeFrom(Signed(n[3], 1)), n[4],
               Signed(n[5], 4), Signed(n[6], 4), Signed(n[7], 4), Signed(n[8], 4), data)
  }

  /** 41 bytes and as many more as the last four of them count, within the limit. */
  predicate IsFrameBody(input: Bytes) {
    && |input| >= 41
    && Number(input, 37, 4) <= MAX_FRAME_DATA
    && |input| == 41 + Number(input, 37, 4)
  }

  /** What a body says, field by field. */
  predicate FrameFields(input: Bytes, f: ScoutFrame)
    requires |input| >= 41
  {
    && f.sequence == Number(input, 0, 4)
    && f.timestampMs == Number(input, 4, 8)
    && f.session == Number(input, 12, 4)
    && (f.streamType == H264 <==> input[16] == 0)
    && (f.streamType == JpegStream <==> input[16] == 1)
    && (f.streamType == Aac <==> input[16] == 2)
    && (f.streamType.Unknown? ==>
          f.streamType.code + (if input[16] < 128 then 0 else 256) == input[16])
    && f.originalSequence == Number(input, 17, 4)
    && f.p1 == Int32(Number(input, 21, 4)) && f.p2 == Int32(Number(input, 25, 4))
    && f.p3 == Int32(Number(input, 29, 4)) && f.p4 == Int32(Number(input, 33, 4))
    && f.data == input[41..]
  }

  lemma FrameOffsets()
    ensures Total(FRAME_WIDTHS[..0]) == 0 && Total(FRAME_WIDTHS[..1]) == 4 && Total(FRAME_WIDTHS[..2]) == 12
    ensures Total(FRAME_WIDTHS[..3]) == 16 && Total(FRAME_WIDTHS[..4]) == 17 && Total(FRAME_WIDTHS[..5]) == 21
    ensures Total(FRAME_WIDTHS[..6]) == 25 && Total(FRAME_WIDTHS[..7]) == 29 && Total(FRAME_WIDTHS[..8]) == 33
    ensures Total(FRAME_WIDTHS) == 37
  {
    assert Total(FRAME_WIDTHS[..0]) == 0;
    hide Total;
    TotalStep(FRAME_WIDTHS, 0);
    TotalStep(FRAME_WIDTHS, 1);
    TotalStep(FRAME_WIDTHS, 2);
    TotalStep(FRAME_WIDTHS, 3);
    TotalStep(FRAME_WIDTHS, 4);
    TotalStep(FRAME_WIDTHS, 5);
    TotalStep(FRAME_WIDTHS, 6);
    TotalStep(FRAME_WIDTHS, 7);
    TotalStep(FRAME_WIDTHS, 8);
    assert FRAME_WIDTHS[..9] == FRAME_WIDTHS;
  }

  lemma FrameNumbersFit(f: ScoutFrame)
    requires ValidFrame(f)
    ensures Fits(FrameNumbers(f), FRAME_WIDTHS)
    ensures FrameOf(FrameNumbers(f), f.data) == f
  {
    SignedInvertsUnsigned(StreamCode(f.streamType), 1);
    SignedInvertsUnsigned(f.p1, 4);
    SignedInvertsUnsigned(f.p2, 4);
    SignedInvertsUnsigned(f.p3, 4);
    SignedInvertsUnsigned(f.p4, 4);
  }

  lemma SignedParameter(x: int)
    requires FitsSigned(x, 4)
    ensures Unsigned(x, 4) < Power256(4) && Int32(Unsigned(x, 4)) == x
  {
    SignedInvertsUnsigned(x, 4);
    SignedInt32(Unsigned(x, 4));
  }

  lemma StreamByte(t: StreamType)
    requires FitsSigned(StreamCode(t), 1) && StreamTypeFrom(StreamCode(t)) == t
    ensures var byte := Unsigned(StreamCode(t), 1);
            && byte < 256
            && (t == H264 <==> byte == 0) && (t == JpegStream <==> byte == 1) && (t == Aac <==> byte == 2)
            && (t.Unknown? ==> t.code + (if byte < 128 then 0 else 256) == byte)
  {
    Powers();
  }

  lemma SliceOfFirst(a: Bytes, b: Bytes, at: nat, width: nat)
    requires at + width <= |a|
    ensures Number(a + b, at, width) == Number(a, at, width)
  {
    assert (a + b)[at..at + width] == a[at..at + width];
  }

  lemma FrameNumberAt(f: ScoutFrame, i: nat)
    requires ValidFrame(f) && i < 9
    ensures Fits(FrameNumbers(f), FRAME_WIDTHS)
    ensures var at := Total(FRAME_WIDTHS[..i]);
            && at + FRAME_WIDTHS[i] <= |EncodeFrame(f)|
            && Number(EncodeFrame(f), at, FRAME_WIDTHS[i]) == FrameNumbers(f)[i]
  {
    FrameNumbersFit(f);
    hide Total, FrameNumbers, LeBytes, LeValue, NumberParts, Concat, Power256;
    NumberAt(FrameNumbers(f), FRAME_WIDTHS, i);
    SliceOfFirst(Concat(NumberParts(FrameNumbers(f), FRAME_WIDTHS)), Counted(f.data),
                 Total(FRAME_WIDTHS[..i]), FRAME_WIDTHS[i]);
  }

  lemma FrameBodyShape(f: ScoutFrame)
    requires ValidFrame(f)
    ensures IsFrameBody(EncodeFrame(f)) && EncodeFrame(f)[41..] == f.data
  {
    FrameOffsets();
    NumbersLength(FrameNumbers(f), FRAME_WIDTHS);
    Powers();
    LeValueOfBytes(|f.data|, 4);
    hide FrameNumbers, Total, Power256, NumberParts, Concat, LeBytes, LeValue;
    assert EncodeFrame(f)[37..41] == LeBytes(|f.data|, 4);
  }

  lemma FrameParameters(f: ScoutFrame)
    requires ValidFrame(f) && |EncodeFrame(f)| >= 41
    ensures f.p1 == Int32(Number(EncodeFrame(f), 21, 4)) && f.p2 == Int32(Number(EncodeFrame(f), 25, 4))
    ensures f.p3 == Int32(Number(EncodeFrame(f), 29, 4)) && f.p4 == Int32(Number(EncodeFrame(f), 33, 4))
  {
    FrameOffsets();
    hide EncodeFrame, Total, Number, Power256, Int32, Unsigned, StreamCode, NumberParts, Concat;
    FrameNumberAt(f, 5);
    FrameNumberAt(f, 6);
    FrameNumberAt(f, 7);
    FrameNumberAt(f, 8);
    SignedParameter(f.p1);
    SignedParameter(f.p2);
    SignedParameter(f.p3);
    SignedParameter(f.p4);
  }

  /** Every field of a valid frame is found at its place in the body. */
  lemma FrameLayout(f: ScoutFrame)
    requires ValidFrame(f)
    ensures IsFrameBody(EncodeFrame(f)) && FrameFields(EncodeFrame(f), f)
  {
    FrameBodyShape(f);
    FrameParameters(f);
    FrameOffsets();
    StreamByte(f.streamType);
    ByteAt(EncodeFrame(f), 16);
    hide EncodeFrame, Total, Number, Power256, Int32, Unsigned, StreamCode, NumberParts, Concat, ValidFrame;
    FrameNumberAt(f, 0);
    FrameNumberAt(f, 1);
    FrameNumberAt(f, 2);
    FrameNumberAt(f, 3);
    FrameNumberAt(f, 4);
  }

  method DecodeFrame(input: Bytes) returns (r: Result<ScoutFrame, DecodeError>)
    ensures r.Success? <==> IsFrameBody(input)
    ensures r.Success? ==> ValidFrame(r.value) && EncodeFrame(r.value) == input
    ensures r.Success? ==> FrameFields(input, r.value)
    ensures |input| >= 41 && Number(input, 37, 4) > MAX_FRAME_DATA ==>
              r == Failure(InvalidLength(Number(input, 37, 4)))
  {
    FrameOffsets();
    hide LeValue, LeBytes, Concat, Power256, FrameOf, ValidFrame, NumberParts, Total, Fits;
    var decoder := new Decoder(input);
    var numbers :- ReadNumbers(decoder, FRAME_WIDTHS);
    var data :- decoder.ReadVecLimited(MAX_FRAME_DATA);
    var finished :- decoder.Finish();
    var parts := NumberParts(numbers, FRAME_WIDTHS);
    ConcatLast2(parts, LeBytes(|data|, 4), data);
    assert decoder.parts == parts + [LeBytes(|data|, 4), data];
    assert input[..|input|] == input;
    r := Success(FrameOf(numbers, data));
    FrameLayout(r.value);
  }

  /** Every valid frame has an acceptable body, and no other valid frame has the same one: decoding
      inverts encoding. */
  lemma FrameIsCanonical(f: ScoutFrame, g: ScoutFrame)
    requires ValidFrame(f) && ValidFrame(g)
    ensures IsFrameBody(EncodeFrame(f))
    ensures EncodeFrame(f) == EncodeFrame(g) ==> f == g
  {
    hide EncodeFrame, ValidFrame, Int32, Number;
    FrameLayout(f);
    FrameLayout(g);
  }

  /** A frame's JPEG markers, as the bridge checks them. */
  predicate HasJpegMarkers(data: Bytes) {
    && |data| >= 2
    && data[0] == 0xff && data[1] == 0xd8
    && data[|data| - 2] == 0xff && data[|data| - 1] == 0xd9
  }

  /** The markers stand at the two ends, with the picture between them: they never overlap. */
  lemma MarkersAreTheEnds(data: Bytes)
    ensures HasJpegMarkers(data) <==> exists picture :: data == [0xff, 0xd8] + picture + [0xff, 0xd9]
  {
    if HasJpegMarkers(data) {
      assert |data| >= 4;
      assert data == [0xff, 0xd8] + data[2..|data| - 2] + [0xff, 0xd9];
    }
  }

  // ----- Battery status -----

  const MAX_BATTERY_VALUES := 64

  datatype BatteryState = Charging | Discharging | Full | UnknownState(code: int)

  function BatteryStateFrom(code: int): BatteryState {
    match code
    case 0 => Charging
    case 1 => Discharging
    case 2 => Full
    case _ => UnknownState(code)
  }

  datatype BatteryStatus = BatteryStatus(
    state: BatteryState, percentage: nat, externallyPowered: bool, raw: seq<int>)

  /** Three to 64 signed values, of which the second is a percentage; the rest is read off them. */
  ghost predicate ValidBattery(b: BatteryStatus) {
    && 3 <= |b.raw| <= MAX_BATTERY_VALUES
    && (forall i | 0 <= i < |b.raw| :: FitsSigned(b.raw[i], 4))
    && 0 <= b.raw[1] <= 100
    && b == BatteryStatus(BatteryStateFrom(b.raw[0]), b.raw[1], b.raw[2] != 0, b.raw)
  }

  ghost predicate AllSigned(raw: seq<int>) {
    forall i | 0 <= i < |raw| :: FitsSigned(raw[i], 4)
  }

  /** The unsigned number with the same 32 bits. */
  function Bits(x: int): nat {
    if FitsSigned(x, 4) then Unsigned(x, 4) else 0
  }

  function AllBits(raw: seq<int>): seq<nat> {
    seq(|raw|, i requires 0 <= i < |raw| => Bits(raw[i]))
  }

  function SignedAll(numbers: seq<nat>): (raw: seq<int>)
    requires Fits(numbers, Repeated(4, |numbers|))
    ensures |raw| == |numbers| && AllSigned(raw) && AllBits(raw) == numbers
  {
    var raw := seq(|numbers|, i requires 0 <= i < |numbers| =>
      if numbers[i] < Power256(4) then Signed(numbers[i], 4) else 0);
    assert forall i | 0 <= i < |numbers| :: FitsSigned(raw[i], 4) && Bits(raw[i]) == numbers[i] by {
      forall i | 0 <= i < |numbers| ensures FitsSigned(raw[i], 4) && Bits(raw[i]) == numbers[i] {
        assert Repeated(4, |numbers|)[i] == 4;
        UnsignedInvertsSigned(numbers[i], 4);
      }
    }
    raw
  }

  function EncodeBattery(raw: seq<int>): Bytes {
    LeBytes(|raw|, 4) + Concat(NumberParts(AllBits(raw), Repeated(4, |raw|)))
  }

  lemma {:induction false} TotalRepeated(width: nat, n: nat)
    ensures Total(Repeated(width, n)) == width * n
  {
    if n > 0 {
      TotalRepeated(width, n - 1);
      assert Repeated(width, n)[..n - 1] == Repeated(width, n - 1);
    }
  }

  lemma BatteryLayout(raw: seq<int>)
    requires AllSigned(raw) && |raw| <= MAX_BATTERY_VALUES
    ensures Fits(AllBits(raw), Repeated(4, |raw|))
    ensures |EncodeBattery(raw)| == 4 + 4 * |raw|
    ensures LeValue(EncodeBattery(raw)[..4]) == |raw|
  {
    Powers();
    forall i | 0 <= i < |raw| ensures AllBits(raw)[i] < Power256(4) {
      SignedInvertsUnsigned(raw[i], 4);
    }
    NumbersLength(AllBits(raw), Repeated(4, |raw|));
    TotalRepeated(4, |raw|);
    LeValueOfBytes(|raw|, 4);
    assert EncodeBattery(raw)[..4] == LeBytes(|raw|, 4);
  }

  lemma BatteryIsCanonical(a: seq<int>, b: seq<int>)
    requires AllSigned(a) && |a| <= MAX_BATTERY_VALUES
    requires AllSigned(b) && |b| <= MAX_BATTERY_VALUES
    ensures EncodeBattery(a) == EncodeBattery(b) ==> a == b
  {
    BatteryLayout(a);
    BatteryLayout(b);
    if EncodeBattery(a) == EncodeBattery(b) {
      var x, y := Concat(NumberParts(AllBits(a), Repeated(4, |a|))), Concat(NumberParts(AllBits(b), Repeated(4, |b|)));
      assert x == EncodeBattery(a)[4..] && y == EncodeBattery(b)[4..];
      SameNumbers(AllBits(a), AllBits(b), Repeated(4, |a|));
      forall i | 0 <= i < |a| ensures a[i] == b[i] {
        assert AllBits(a)[i] == AllBits(b)[i];
        SignedInvertsUnsigned(a[i], 4);
        SignedInvertsUnsigned(b[i], 4);
      }
    }
  }

  function StatusOf(raw: seq<int>): (r: Result<BatteryStatus, DecodeError>)
    requires 3 <= |raw|
    ensures AllSigned(raw) && |raw| <= MAX_BATTERY_VALUES && r.Success? ==> ValidBattery(r.value) && r.value.raw == raw
    ensures r.Success? <==> 0 <= raw[1] <= 100
  {
    if 0 <= raw[1] <= 100
    then Success(BatteryStatus(BatteryStateFrom(raw[0]), raw[1], raw[2] != 0, raw))
    else Failure(BadPercentage)
  }

  /** Between 3 and 64 counted values and nothing more, of which the second is a percentage. */
  predicate IsBatteryBody(input: Bytes) {
    && |input| >= 4
    && 3 <= Number(input, 0, 4) <= MAX_BATTERY_VALUES
    && |input| == 4 + 4 * Number(input, 0, 4)
    && 0 <= Int32(Number(input, 8, 4)) <= 100
  }

  /** What a body says: the values in order, and what the first three mean. */
  ghost predicate BatteryFields(input: Bytes, b: BatteryStatus)
    requires IsBatteryBody(input)
  {
    && |b.raw| == Number(input, 0, 4)
    && (forall i: nat | i < |b.raw| :: b.raw[i] == Int32(Number(input, 4 + 4 * i, 4)))
    && (b.state == Charging <==> b.raw[0] == 0)
    && (b.state == Discharging <==> b.raw[0] == 1)
    && (b.state == Full <==> b.raw[0] == 2)
    && (b.state.UnknownState? ==> b.state.code == b.raw[0])
    && b.percentage == b.raw[1]
    && (b.externallyPowered <==> b.raw[2] != 0)
  }

  lemma BatteryValueAt(raw: seq<int>, i: nat)
    requires AllSigned(raw) && i < |raw| <= MAX_BATTERY_VALUES
    ensures 8 + 4 * i <= |EncodeBattery(raw)|
    ensures Int32(Number(EncodeBattery(raw), 4 + 4 * i, 4)) == raw[i]
  {
    BatteryLayout(raw);
    var widths := Repeated(4, |raw|);
    NumberAt(AllBits(raw), widths, i);
    assert widths[..i] == Repeated(4, i);
    TotalRepeated(4, i);
    SignedParameter(raw[i]);
    var all := Concat(NumberParts(AllBits(raw), widths));
    assert EncodeBattery(raw)[4 + 4 * i..8 + 4 * i] == all[4 * i..4 * i + 4];
  }

  /** Every valid status has an acceptable body, which says what the status is. */
  lemma BatteryIsFound(b: BatteryStatus)
    requires ValidBattery(b)
    ensures IsBatteryBody(EncodeBattery(b.raw)) && BatteryFields(EncodeBattery(b.raw), b)
  {
    BatteryLayout(b.raw);
    hide EncodeBattery, Int32;
    assert AllSigned(b.raw);
    forall i: nat | i < |b.raw| ensures b.raw[i] == Int32(Number(EncodeBattery(b.raw), 4 + 4 * i, 4)) {
      BatteryValueAt(b.raw, i);
    }
    BatteryValueAt(b.raw, 1);
  }

  lemma BatteryBytes(raw: seq<int>, input: Bytes, parts: seq<Bytes>)
    requires parts == [LeBytes(|raw|, 4)] + NumberParts(AllBits(raw), Repeated(4, |raw|))
    requires Concat(parts) == input[..|input|]
    ensures EncodeBattery(raw) == input
  {
    assert input[..|input|] == input;
    ConcatFirst(LeBytes(|raw|, 4), NumberParts(AllBits(raw), Repeated(4, |raw|)));
  }

  /** The values of a status, after their number. */
  method ReadValues(decoder: Decoder, length: nat) returns (r: Result<seq<int>, DecodeError>)
    requires decoder.Valid() && decoder.offset == 4 && decoder.parts == [LeBytes(length, 4)]
    modifies decoder
    ensures r.Success? <==> |decoder.input| == 4 + 4 * length
    ensures r.Success? ==> |r.value| == length && AllSigned(r.value) && EncodeBattery(r.value) == decoder.input
  {
    hide LeValue, LeBytes, Concat, Power256, NumberParts, Total, AllBits, EncodeBattery, Fits;
    if decoder.Remaining() < length * 4 {
      return Failure(UnexpectedEnd(length * 4, decoder.Remaining()));
    }
    TotalRepeated(4, length);
    var read := ReadNumbers(decoder, Repeated(4, length));
    var numbers;
    match read {
      case Failure(error) => return Failure(error);
      case Success(values) => numbers := values;
    }
    var finished :- decoder.Finish();
    var raw := SignedAll(numbers);
    BatteryBytes(raw, decoder.input, decoder.parts);
    r := Success(raw);
  }

  /** Accepts exactly the encodings of valid statuses, the largest of which fills the transport's
      cap of 260 bytes. */
  method DecodeBattery(input: Bytes) returns (r: Result<BatteryStatus, DecodeError>)
    ensures r.Success? <==> IsBatteryBody(input)
    ensures r.Success? ==> ValidBattery(r.value) && EncodeBattery(r.value.raw) == input
    ensures r.Success? ==> BatteryFields(input, r.value)
    ensures |input| >= 4 && Number(input, 0, 4) > MAX_BATTERY_VALUES ==>
              r == Failure(InvalidLength(Number(input, 0, 4)))
    ensures |input| >= 4 && Number(input, 0, 4) < 3 ==> r == Failure(TooFewValues)
  {
    hide LeValue, LeBytes, Concat, Power256, NumberParts, Total, AllBits, EncodeBattery, Fits, StatusOf;
    hide ValidBattery, BatteryFields, Int32;
    var decoder := new Decoder(input);
    var length :- decoder.ReadNumber(4);
    if length > MAX_BATTERY_VALUES {
      return Failure(InvalidLength(length));
    }
    if length < 3 {
      return Failure(TooFewValues);
    }
    var raw :- ReadValues(decoder, length);
    BatteryValueAt(raw, 1);
    r := StatusOf(raw);
    if r.Success? {
      BatteryIsFound(r.value);
    }
  }

  // ----- Standard sensors -----

  const MAX_FRAME_ID := 4 * 1024

  /** The inertial sample has 4 + 9 + 3 + 9 + 3 + 9 doubles, the range sample a byte and four floats,
      the light sample two doubles. */
  const IMU_WIDTHS: seq<nat> := Repeated(8, 37)
  const RANGE_WIDTHS: seq<nat> := [1, 4, 4, 4, 4]
  const LIGHT_WIDTHS: seq<nat> := [8, 8]
  const HEADER_WIDTHS: seq<nat> := [4, 4, 4]

  /** A sensor message: sequence, seconds and nanoseconds, the frame identifier, then the readings
      as unsigned numbers or bit patterns in wire order. */
  datatype Sample = Sample(stamp: seq<nat>, frameId: Bytes, readings: seq<nat>)

  ghost predicate ValidSample(s: Sample, widths: seq<nat>) {
    && Fits(s.stamp, HEADER_WIDTHS) && Fits(s.readings, widths)
    && |s.frameId| <= MAX_FRAME_ID && Utf8.Valid(s.frameId)
  }

  function EncodeSample(s: Sample, widths: seq<nat>): Bytes
    requires |s.stamp| == 3 && |s.readings| == |widths|
  {
    Concat(NumberParts(s.stamp, HEADER_WIDTHS)) + Counted(s.frameId) + Concat(NumberParts(s.readings, widths))
  }

  lemma HeaderWidths()
    ensures Total(HEADER_WIDTHS) == 12
  {
    assert HEADER_WIDTHS[..2] == [4, 4] && [4, 4][..1] == [4];
    calc {
      Total(HEADER_WIDTHS);
      Total([4, 4]) + 4;
      Total([4]) + 8;
    }
  }

  lemma MiddleParts(a: Bytes, length: Bytes, data: Bytes, c: Bytes)
    requires |a| == 12 && |length| == 4
    ensures var all := a + (length + data) + c;
            && |all| == 16 + |data| + |c|
            && all[12..16] == length && all[16..16 + |data|] == data
  {
  }

  lemma SampleLayout(s: Sample, widths: seq<nat>)
    requires ValidSample(s, widths)
    ensures |EncodeSample(s, widths)| == 16 + |s.frameId| + Total(widths)
    ensures EncodeSample(s, widths)[12..16] == LeBytes(|s.frameId|, 4)
    ensures LeValue(LeBytes(|s.frameId|, 4)) == |s.frameId|
    ensures EncodeSample(s, widths)[16..16 + |s.frameId|] == s.frameId
  {
    HeaderWidths();
    Powers();
    LeValueOfBytes(|s.frameId|, 4);
    hide Total, Power256, LeBytes, LeValue, NumberParts, Concat;
    NumbersLength(s.stamp, HEADER_WIDTHS);
    NumbersLength(s.readings, widths);
    MiddleParts(Concat(NumberParts(s.stamp, HEADER_WIDTHS)), LeBytes(|s.frameId|, 4), s.frameId,
                Concat(NumberParts(s.readings, widths)));
  }

  lemma SliceOfLast(a: Bytes, b: Bytes, at: nat, width: nat)
    requires at + width <= |b|
    ensures Number(a + b, |a| + at, width) == Number(b, at, width)
  {
    assert (a + b)[|a| + at..|a| + at + width] == b[at..at + width];
  }

  /** The sequence number, the seconds and the nanoseconds start a sample ... */
  lemma StampAt(s: Sample, widths: seq<nat>, i: nat)
    requires ValidSample(s, widths) && i < 3
    ensures |EncodeSample(s, widths)| >= 16
    ensures Number(EncodeSample(s, widths), 4 * i, 4) == s.stamp[i]
  {
    SampleLayout(s, widths);
    HeaderWidths();
    assert HEADER_WIDTHS[..i] == Repeated(4, i);
    TotalRepeated(4, i);
    NumbersLength(s.stamp, HEADER_WIDTHS);
    hide Total, Number, Power256, LeBytes, LeValue, NumberParts, Concat;
    NumberAt(s.stamp, HEADER_WIDTHS, i);
    var stamp := Concat(NumberParts(s.stamp, HEADER_WIDTHS));
    SliceOfFirst(stamp + Counted(s.frameId), Concat(NumberParts(s.readings, widths)), 4 * i, 4);
    SliceOfFirst(stamp, Counted(s.frameId), 4 * i, 4);
  }

  /** ... and each reading lies behind the frame identifier and the readings before it. */
  lemma ReadingAt(s: Sample, widths: seq<nat>, i: nat)
    requires ValidSample(s, widths) && i < |s.readings|
    ensures var at := 16 + |s.frameId| + Total(widths[..i]);
            && at + widths[i] <= |EncodeSample(s, widths)|
            && Number(EncodeSample(s, widths), at, widths[i]) == s.readings[i]
  {
    HeaderWidths();
    NumbersLength(s.stamp, HEADER_WIDTHS);
    hide Total, Number, Power256, LeBytes, LeValue, NumberParts, Concat;
    NumberAt(s.readings, widths, i);
    SliceOfLast(Concat(NumberParts(s.stamp, HEADER_WIDTHS)) + Counted(s.frameId),
                Concat(NumberParts(s.readings, widths)), Total(widths[..i]), widths[i]);
  }

  /** Two samples have the same encoding only if they are the same. */
  lemma SampleIsCanonical(s: Sample, t: Sample, widths: seq<nat>)
    requires ValidSample(s, widths) && ValidSample(t, widths)
    ensures EncodeSample(s, widths) == EncodeSample(t, widths) ==> s == t
  {
    Powers();
    var x, y := Concat(NumberParts(s.readings, widths)), Concat(NumberParts(t.readings, widths));
    hide Power256, Total;
    if EncodeSample(s, widths) == EncodeSample(t, widths) {
      var a, b := Concat(NumberParts(s.stamp, HEADER_WIDTHS)), Concat(NumberParts(t.stamp, HEADER_WIDTHS));
      assert a + (Counted(s.frameId) + x) == EncodeSample(s, widths);
      assert b + (Counted(t.frameId) + y) == EncodeSample(t, widths);
      NumbersAreCanonical(s.stamp, t.stamp, HEADER_WIDTHS, Counted(s.frameId) + x, Counted(t.frameId) + y);
      CountedIsCanonical(s.frameId, t.frameId, x, y);
      SameNumbers(s.readings, t.readings, widths);
    }
  }

  /** A header starts the message, its frame identifier within the limit and in UTF-8. */
  predicate StartsWithHeader(input: Bytes) {
    && |input| >= 16
    && LeValue(input[12..16]) <= MAX_FRAME_ID
    && |input| >= 16 + LeValue(input[12..16])
    && Utf8.Valid(input[16..16 + LeValue(input[12..16])])
  }

  method ReadHeader(decoder: Decoder) returns (r: Result<(seq<nat>, Bytes), DecodeError>)
    requires decoder.Valid() && decoder.offset == 0 && decoder.parts == []
    modifies decoder
    ensures decoder.Valid()
    ensures r.Success? <==> StartsWithHeader(decoder.input)
    ensures r.Success? ==>
              var (stamp, frameId) := r.value;
              && |stamp| == 3 && Fits(stamp, HEADER_WIDTHS)
              && |frameId| == LeValue(decoder.input[12..16]) && Utf8.Valid(frameId)
              && decoder.offset == 16 + |frameId|
              && decoder.parts == NumberParts(stamp, HEADER_WIDTHS) + [LeBytes(|frameId|, 4), frameId]
    ensures |decoder.input| >= 16 && LeValue(decoder.input[12..16]) > MAX_FRAME_ID ==>
              r == Failure(InvalidLength(LeValue(decoder.input[12..16])))
  {
    HeaderWidths();
    hide LeValue, LeBytes, Concat, Power256, NumberParts, Total, Utf8.Valid;
    var stamp :- ReadNumbers(decoder, HEADER_WIDTHS);
    var frameId :- decoder.ReadVecLimited(MAX_FRAME_ID);
    if !Utf8.Valid(frameId) {
      return Failure(InvalidUtf8);
    }
    r := Success((stamp, frameId));
  }

  /** The bodies that are a header and readings of the given widths, nothing more. */
  predicate IsSampleBody(input: Bytes, widths: seq<nat>) {
    StartsWithHeader(input) && |input| == 16 + LeValue(input[12..16]) + Total(widths)
  }

  lemma ValidSamplesAreBodies(s: Sample, widths: seq<nat>)
    requires ValidSample(s, widths)
    ensures IsSampleBody(EncodeSample(s, widths), widths)
  {
    hide EncodeSample, LeBytes, LeValue, Total, Power256, Utf8.Valid;
    SampleLayout(s, widths);
  }

  lemma SampleBytes(s: Sample, widths: seq<nat>, input: Bytes, parts: seq<Bytes>)
    requires |s.stamp| == 3 && |s.readings| == |widths|
    requires parts == NumberParts(s.stamp, HEADER_WIDTHS) + [LeBytes(|s.frameId|, 4), s.frameId]
                      + NumberParts(s.readings, widths)
    requires Concat(parts) == input[..|input|]
    ensures EncodeSample(s, widths) == input
  {
    assert input[..|input|] == input;
    var stamp := NumberParts(s.stamp, HEADER_WIDTHS);
    ConcatAppend(stamp + [LeBytes(|s.frameId|, 4), s.frameId], NumberParts(s.readings, widths));
    ConcatLast2(stamp, LeBytes(|s.frameId|, 4), s.frameId);
  }

  /** One decoder for the three messages, which differ only in the widths of their readings. */
  method DecodeSample(input: Bytes, widths: seq<nat>) returns (r: Result<Sample, DecodeError>)
    ensures r.Success? <==> IsSampleBody(input, widths)
    ensures r.Success? ==> ValidSample(r.value, widths) && EncodeSample(r.value, widths) == input
    ensures |input| >= 16 && LeValue(input[12..16]) > MAX_FRAME_ID ==>
              r == Failure(InvalidLength(LeValue(input[12..16])))
  {
    hide LeValue, LeBytes, Concat, Power256, NumberParts, Total, EncodeSample, Utf8.Valid;
    var decoder := new Decoder(input);
    var header :- ReadHeader(decoder);
    var readings :- ReadNumbers(decoder, widths);
    var finished :- decoder.Finish();
    var s := Sample(header.0, header.1, readings);
    SampleBytes(s, widths, input, decoder.parts);
    r := Success(s);
  }

  // ----- Transport caps -----

  const MAX_MEDIA_MESSAGE := MAX_FRAME_DATA + 1024
  const MAX_SENSOR_MESSAGE := MAX_FRAME_ID + 4096
  const MAX_BATTERY_MESSAGE := 4 + MAX_BATTERY_VALUES * 4

  lemma {:induction false} TotalBound(widths: seq<nat>)
    requires forall i | 0 <= i < |widths| :: widths[i] <= 8
    ensures Total(widths) <= 8 * |widths|
  {
    if widths != [] {
      TotalBound(widths[..|widths| - 1]);
    }
  }

  /** Every body a decoder accepts fits the cap its subscription puts on the transport, and the
      battery cap is reached by every status of 64 values. */
  lemma AcceptedBodiesFitCaps(f: ScoutFrame, b: BatteryStatus, imu: Sample, range: Sample, light: Sample)
    requires ValidFrame(f) && ValidBattery(b)
    requires ValidSample(imu, IMU_WIDTHS) && ValidSample(range, RANGE_WIDTHS) && ValidSample(light, LIGHT_WIDTHS)
    ensures |EncodeFrame(f)| <= MAX_MEDIA_MESSAGE
    ensures |EncodeBattery(b.raw)| <= MAX_BATTERY_MESSAGE
    ensures |b.raw| == MAX_BATTERY_VALUES ==> |EncodeBattery(b.raw)| == MAX_BATTERY_MESSAGE
    ensures |EncodeSample(imu, IMU_WIDTHS)| <= MAX_SENSOR_MESSAGE
    ensures |EncodeSample(range, RANGE_WIDTHS)| <= MAX_SENSOR_MESSAGE
    ensures |EncodeSample(light, LIGHT_WIDTHS)| <= MAX_SENSOR_MESSAGE
  {
    FrameBodyShape(f);
    BatteryLayout(b.raw);
    hide EncodeFrame, EncodeBattery, ValidFrame, ValidBattery, Number, Power256;
    TotalBound(IMU_WIDTHS);
    TotalBound(RANGE_WIDTHS);
    TotalBound(LIGHT_WIDTHS);
    hide Total;
    SampleLayout(imu, IMU_WIDTHS);
    SampleLayout(range, RANGE_WIDTHS);
    SampleLayout(light, LIGHT_WIDTHS);
  }
}
