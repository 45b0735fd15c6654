/** The standard sensor messages with their fields (src/sensors.rs). Floating-point fields are their
    bit patterns. */
module Sensors {
  import opened Base
  import opened Wire
  import opened Messages
  import Utf8

  datatype RosHeader = RosHeader(sequence: nat, seconds: nat, nanoseconds: nat, frameId: Bytes)

  datatype Vector3 = Vector3(x: nat, y: nat, z: nat)

  datatype Quaternion = Quaternion(x: nat, y: nat, z: nat, w: nat)

  datatype ImuSample = ImuSample(
    header: RosHeader,
    orientation: Quaternion, orientationCovariance: seq<nat>,
    angularVelocity: Vector3, angularVelocityCovariance: seq<nat>,
    linearAcceleration: Vector3, linearAccelerationCovariance: seq<nat>)

  datatype RangeSample = RangeSample(
    header: RosHeader, radiationType: nat, fieldOfView: nat, minRange: nat, maxRange: nat, range: nat)

  datatype IlluminanceSample = IlluminanceSample(header: RosHeader, illuminance: nat, variance: nat)

  /** A header and readings as they lie on the wire. */
  function OnWire(h: RosHeader, readings: seq<nat>): Sample {
    Sample([h.sequence, h.seconds, h.nanoseconds], h.frameId, readings)
  }

  function HeaderOf(s: Sample): (h: RosHeader)
    requires |s.stamp| == 3
    ensures OnWire(h, s.readings) == s
  {
    RosHeader(s.stamp[0], s.stamp[1], s.stamp[2], s.frameId)
  }

  /** What a body says about its header. */
  predicate HeaderFields(input: Bytes, h: RosHeader) {
    && |input| >= 16
    && h.sequence == Number(input, 0, 4)
    && h.seconds == Number(input, 4, 4)
    && h.nanoseconds == Number(input, 8, 4)
    && |h.frameId| == Number(input, 12, 4)
    && |input| >= 16 + |h.frameId|
    && h.frameId == input[16..16 + |h.frameId|]
  }

  lemma HeaderIsFound(h: RosHeader, readings: seq<nat>, widths: seq<nat>)
    requires ValidSample(OnWire(h, readings), widths)
    ensures HeaderFields(EncodeSample(OnWire(h, readings), widths), h)
  {
    var s := OnWire(h, readings);
    SampleLayout(s, widths);
    StampAt(s, widths, 0);
    StampAt(s, widths, 1);
    StampAt(s, widths, 2);
    hide EncodeSample, Power256, LeBytes, LeValue, Total;
  }

  function VectorOf(n: seq<nat>): Vector3
    requires |n| == 3
  {
    Vector3(n[0], n[1], n[2])
  }

  /** An inertial sample as it lies on the wire: each vector and the quaternion before its nine
      covariances, x first and w last. */
  function ImuOnWire(s: ImuSample): Sample {
    OnWire(s.header,
           [s.orientation.x, s.orientation.y, s.orientation.z, s.orientation.w] + s.orientationCovariance
           + [s.angularVelocity.x, s.angularVelocity.y, s.angularVelocity.z] + s.angularVelocityCovariance
           + [s.linearAcceleration.x, s.linearAcceleration.y, s.linearAcceleration.z]
           + s.linearAccelerationCovariance)
  }

  ghost predicate ValidImu(s: ImuSample) {
    && |s.orientationCovariance| == |s.angularVelocityCovariance| == |s.linearAccelerationCovariance| == 9
    && ValidSample(ImuOnWire(s), IMU_WIDTHS)
  }

  function EncodeImu(s: ImuSample): Bytes
    requires |s.orientationCovariance| == |s.angularVelocityCovariance| == |s.linearAccelerationCovariance| == 9
  {
    EncodeSample(ImuOnWire(s), IMU_WIDTHS)
  }

  function ImuOf(s: Sample): (imu: ImuSample)
    requires |s.stamp| == 3 && |s.readings| == 37
    ensures ImuOnWire(imu) == s
    ensures |imu.orientationCovariance| == |imu.angularVelocityCovariance| == |imu.linearAccelerationCovariance| == 9
  {
    var n := s.readings;
    var imu := ImuSample(
      HeaderOf(s), Quaternion(n[0], n[1], n[2], n[3]), n[4..13], VectorOf(n[13..16]), n[16..25],
      VectorOf(n[25..28]), n[28..37]);
    assert ImuOnWire(imu).readings == n;
    imu
  }

  /** `n` numbers of eight bytes each, starting at some place in a message. */
  ghost predicate Doubles(input: Bytes, at: nat, values: seq<nat>)
    requires at + 8 * |values| <= |input|
  {
    forall i: nat | i < |values| :: values[i] == Number(input, at + 8 * i, 8)
  }

  /** What a body says about an inertial sample. */
  ghost predicate ImuFields(input: Bytes, s: ImuSample)
    requires |s.orientationCovariance| == |s.angularVelocityCovariance| == |s.linearAccelerationCovariance| == 9
  {
    && HeaderFields(input, s.header)
    && var at := 16 + |s.header.frameId|;
       && |input| == at + 296
       && Doubles(input, at, [s.orientation.x, s.orientation.y, s.orientation.z, s.orientation.w])
       && Doubles(input, at + 32, s.orientationCovariance)
       && Doubles(input, at + 104, [s.angularVelocity.x, s.angularVelocity.y, s.angularVelocity.z])
       && Doubles(input, at + 128, s.angularVelocityCovariance)
       && Doubles(input, at + 200, [s.linearAcceleration.x, s.linearAcceleration.y, s.linearAcceleration.z])
       && Doubles(input, at + 224, s.linearAccelerationCovariance)
  }

  lemma DoubleAt(s: Sample, i: nat)
    requires ValidSample(s, IMU_WIDTHS) && i < 37
    ensures |EncodeSample(s, IMU_WIDTHS)| == 16 + |s.frameId| + 296
    ensures Number(EncodeSample(s, IMU_WIDTHS), 16 + |s.frameId| + 8 * i, 8) == s.readings[i]
  {
    hide EncodeSample, Number, Total, Power256, Utf8.Valid;
    SampleLayout(s, IMU_WIDTHS);
    TotalRepeated(8, 37);
    ReadingAt(s, IMU_WIDTHS, i);
    assert IMU_WIDTHS[..i] == Repeated(8, i);
    TotalRepeated(8, i);
  }

  lemma DoublesAt(s: Sample, from: nat, values: seq<nat>)
    requires ValidSample(s, IMU_WIDTHS) && from + |values| <= 37
    requires s.readings[from..from + |values|] == values
    ensures |EncodeSample(s, IMU_WIDTHS)| == 16 + |s.frameId| + 296
    ensures Doubles(EncodeSample(s, IMU_WIDTHS), 16 + |s.frameId| + 8 * from, values)
  {
    var readings := s.readings;
    assert |readings| == 37;
    hide EncodeSample, Number, ValidSample;
    DoubleAt(s, 0);
    var at := 16 + |s.frameId| + 8 * from;
    forall i: nat | i < |values| ensures values[i] == Number(EncodeSample(s, IMU_WIDTHS), at + 8 * i, 8) {
      DoubleAt(s, from + i);
      assert readings[from + i] == values[i];
      assert 16 + |s.frameId| + 8 * (from + i) == at + 8 * i;
    }
  }

  lemma ImuSlices(s: ImuSample)
    requires |s.orientationCovariance| == |s.angularVelocityCovariance| == |s.linearAccelerationCovariance| == 9
    ensures var n := ImuOnWire(s).readings;
            && |n| == 37
            && n[0..4] == [s.orientation.x, s.orientation.y, s.orientation.z, s.orientation.w]
            && n[4..13] == s.orientationCovariance
            && n[13..16] == [s.angularVelocity.x, s.angularVelocity.y, s.angularVelocity.z]
            && n[16..25] == s.angularVelocityCovariance
            && n[25..28] == [s.linearAcceleration.x, s.linearAcceleration.y, s.linearAcceleration.z]
            && n[28..37] == s.linearAccelerationCovariance
            && ImuOnWire(s) == OnWire(s.header, n)
  {
  }

  /** Every field of an inertial sample is found at its place in the body. */
  lemma ImuIsFound(s: ImuSample)
    requires ValidImu(s)
    ensures ImuFields(EncodeImu(s), s)
  {
    var w := ImuOnWire(s);
    ImuSlices(s);
    HeaderIsFound(s.header, w.readings, IMU_WIDTHS);
    hide EncodeSample, Number, HeaderFields, ValidSample, Doubles, ImuOnWire;
    DoublesAt(w, 0, [s.orientation.x, s.orientation.y, s.orientation.z, s.orientation.w]);
    DoublesAt(w, 4, s.orientationCovariance);
    DoublesAt(w, 13, [s.angularVelocity.x, s.angularVelocity.y, s.angularVelocity.z]);
    DoublesAt(w, 16, s.angularVelocityCovariance);
    DoublesAt(w, 25, [s.linearAcceleration.x, s.linearAcceleration.y, s.linearAcceleration.z]);
    DoublesAt(w, 28, s.linearAccelerationCovariance);
  }

  method DecodeImu(input: Bytes) returns (r: Result<ImuSample, DecodeError>)
    ensures r.Success? <==> IsSampleBody(input, IMU_WIDTHS)
    ensures r.Success? ==> ValidImu(r.value) && EncodeImu(r.value) == input && ImuFields(input, r.value)
  {
    hide IsSampleBody, EncodeSample, Utf8.Valid, Power256, ImuOnWire, ImuFields;
    var sample :- DecodeSample(input, IMU_WIDTHS);
    r := Success(ImuOf(sample));
    ImuIsFound(r.value);
  }

  lemma ImuOfOnWire(s: ImuSample)
    requires |s.orientationCovariance| == |s.angularVelocityCovariance| == |s.linearAccelerationCovariance| == 9
    ensures ImuOf(ImuOnWire(s)) == s
  {
    var n := ImuOnWire(s).readings;
    assert n[4..13] == s.orientationCovariance && n[16..25] == s.angularVelocityCovariance;
    assert n[28..37] == s.linearAccelerationCovariance;
  }

  /** No two inertial samples have the same encoding. */
  lemma ImuIsCanonical(a: ImuSample, b: ImuSample)
    requires ValidImu(a) && ValidImu(b)
    ensures IsSampleBody(EncodeImu(a), IMU_WIDTHS)
    ensures EncodeImu(a) == EncodeImu(b) ==> a == b
  {
    ValidSamplesAreBodies(ImuOnWire(a), IMU_WIDTHS);
    SampleIsCanonical(ImuOnWire(a), ImuOnWire(b), IMU_WIDTHS);
    hide IsSampleBody, EncodeSample, ValidSample;
    if ImuOnWire(a) == ImuOnWire(b) {
      ImuOfOnWire(a);
      ImuOfOnWire(b);
    }
  }

  function RangeOnWire(s: RangeSample): Sample {
    OnWire(s.header, [s.radiationType, s.fieldOfView, s.minRange, s.maxRange, s.range])
  }

  /** What a body says about a range sample. */
  predicate RangeFields(input: Bytes, s: RangeSample) {
    && HeaderFields(input, s.header)
    && var at := 16 + |s.header.frameId|;
       && |input| == at + 17
       && s.radiationType == input[at]
       && s.fieldOfView == Number(input, at + 1, 4)
       && s.minRange == Number(input, at + 5, 4)
       && s.maxRange == Number(input, at + 9, 4)
       && s.range == Number(input, at + 13, 4)
  }

  lemma RangeOffsets()
    ensures Total(RANGE_WIDTHS[..0]) == 0 && Total(RANGE_WIDTHS[..1]) == 1 && Total(RANGE_WIDTHS[..2]) == 5
    ensures Total(RANGE_WIDTHS[..3]) == 9 && Total(RANGE_WIDTHS[..4]) == 13 && Total(RANGE_WIDTHS) == 17
  {
    assert Total(RANGE_WIDTHS[..0]) == 0;
    hide Total;
    TotalStep(RANGE_WIDTHS, 0);
    TotalStep(RANGE_WIDTHS, 1);
    TotalStep(RANGE_WIDTHS, 2);
    TotalStep(RANGE_WIDTHS, 3);
    TotalStep(RANGE_WIDTHS, 4);
    assert RANGE_WIDTHS[..5] == RANGE_WIDTHS;
  }

  /** Every field of a range sample is found at its place in the body. */
  lemma RangeIsFound(s: RangeSample)
    requires ValidSample(RangeOnWire(s), RANGE_WIDTHS)
    ensures RangeFields(EncodeSample(RangeOnWire(s), RANGE_WIDTHS), s)
  {
    hide EncodeSample, Number, HeaderFields, Total, LeBytes, LeValue, Power256, ValidSample;
    var w := RangeOnWire(s);
    var body := EncodeSample(w, RANGE_WIDTHS);
    RangeOffsets();
    SampleLayout(w, RANGE_WIDTHS);
    HeaderIsFound(s.header, w.readings, RANGE_WIDTHS);
    ReadingAt(w, RANGE_WIDTHS, 0);
    ReadingAt(w, RANGE_WIDTHS, 1);
    ReadingAt(w, RANGE_WIDTHS, 2);
    ReadingAt(w, RANGE_WIDTHS, 3);
    ReadingAt(w, RANGE_WIDTHS, 4);
    ByteAt(body, 16 + |s.header.frameId|);
  }

  method DecodeRange(input: Bytes) returns (r: Result<RangeSample, DecodeError>)
    ensures r.Success? <==> IsSampleBody(input, RANGE_WIDTHS)
    ensures r.Success? ==>
              && ValidSample(RangeOnWire(r.value), RANGE_WIDTHS)
              && EncodeSample(RangeOnWire(r.value), RANGE_WIDTHS) == input
              && RangeFields(input, r.value)
  {
    hide IsSampleBody, EncodeSample, Utf8.Valid, Power256, RangeFields;
    var sample :- DecodeSample(input, RANGE_WIDTHS);
    var n := sample.readings;
    r := Success(RangeSample(HeaderOf(sample), n[0], n[1], n[2], n[3], n[4]));
    assert RangeOnWire(r.value).readings == n;
    RangeIsFound(r.value);
  }

  function IlluminanceOnWire(s: IlluminanceSample): Sample {
    OnWire(s.header, [s.illuminance, s.variance])
  }

  /** What a body says about a light sample. */
  predicate IlluminanceFields(input: Bytes, s: IlluminanceSample) {
    && HeaderFields(input, s.header)
    && var at := 16 + |s.header.frameId|;
       && |input| == at + 16
       && s.illuminance == Number(input, at, 8)
       && s.variance == Number(input, at + 8, 8)
  }

  lemma LightOffsets()
    ensures Total(LIGHT_WIDTHS[..0]) == 0 && Total(LIGHT_WIDTHS[..1]) == 8 && Total(LIGHT_WIDTHS) == 16
  {
    assert Total(LIGHT_WIDTHS[..0]) == 0 && LIGHT_WIDTHS[..2] == LIGHT_WIDTHS;
    hide Total;
    TotalStep(LIGHT_WIDTHS, 0);
    TotalStep(LIGHT_WIDTHS, 1);
  }

  /** Both fields of a light sample are found at their places in the body. */
  lemma IlluminanceIsFound(s: IlluminanceSample)
    requires ValidSample(IlluminanceOnWire(s), LIGHT_WIDTHS)
    ensures IlluminanceFields(EncodeSample(IlluminanceOnWire(s), LIGHT_WIDTHS), s)
  {
    hide EncodeSample, Number, HeaderFields, Total, LeBytes, LeValue, Power256, ValidSample;
    var w := IlluminanceOnWire(s);
    LightOffsets();
    SampleLayout(w, LIGHT_WIDTHS);
    HeaderIsFound(s.header, w.readings, LIGHT_WIDTHS);
    ReadingAt(w, LIGHT_WIDTHS, 0);
    ReadingAt(w, LIGHT_WIDTHS, 1);
  }

  method DecodeIlluminance(input: Bytes) returns (r: Result<IlluminanceSample, DecodeError>)
    ensures r.Success? <==> IsSampleBody(input, LIGHT_WIDTHS)
    ensures r.Success? ==>
              && ValidSample(IlluminanceOnWire(r.value), LIGHT_WIDTHS)
              && EncodeSample(IlluminanceOnWire(r.value), LIGHT_WIDTHS) == input
              && IlluminanceFields(input, r.value)
  {
    hide IsSampleBody, EncodeSample, Utf8.Valid, Power256, IlluminanceFields;
    var sample :- DecodeSample(input, LIGHT_WIDTHS);
    var n := sample.readings;
    r := Success(IlluminanceSample(HeaderOf(sample), n[0], n[1]));
    assert IlluminanceOnWire(r.value).readings == n;
    IlluminanceIsFound(r.value);
  }

  /** No two range or light samples have the same encoding. */
  lemma RangeAndLightAreCanonical(a: RangeSample, b: RangeSample, c: IlluminanceSample, d: IlluminanceSample)
    requires ValidSample(RangeOnWire(a), RANGE_WIDTHS) && ValidSample(RangeOnWire(b), RANGE_WIDTHS)
    requires ValidSample(IlluminanceOnWire(c), LIGHT_WIDTHS) && ValidSample(IlluminanceOnWire(d), LIGHT_WIDTHS)
    ensures EncodeSample(RangeOnWire(a), RANGE_WIDTHS) == EncodeSample(RangeOnWire(b), RANGE_WIDTHS) ==> a == b
    ensures EncodeSample(IlluminanceOnWire(c), LIGHT_WIDTHS) == EncodeSample(IlluminanceOnWire(d), LIGHT_WIDTHS)
            ==> c == d
  {
    SampleIsCanonical(RangeOnWire(a), RangeOnWire(b), RANGE_WIDTHS);
    SampleIsCanonical(IlluminanceOnWire(c), IlluminanceOnWire(d), LIGHT_WIDTHS);
    hide EncodeSample, ValidSample;
  }
}
