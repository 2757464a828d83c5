/** The fixed-shape views `DroneSegment.RawImu`, `Altitude`, `Attitude`,
    `Rc`, `Motor` and `Servo` over a decoded payload, and what the telemetry
    receiver's 40-byte buffer decodes to. Each view copies fixed payload
    indices into named fields; a payload too short for the highest index
    makes the constructor throw. */
module Telemetry {
  import opened JavaTypes
  import opened Codec
  import opened Channel

  datatype RawImu = RawImu(
    accx: int16, accy: int16, accz: int16,
    gyrx: int16, gyry: int16, gyrz: int16,
    magx: int16, magy: int16, magz: int16)

  datatype Altitude = Altitude(estalt: int16, vario: int16)

  datatype Attitude = Attitude(angx: int16, angy: int16, heading: int16)

  datatype Rc = Rc(roll: int16, pitch: int16, yaw: int16, throttle: int16)

  datatype Motor = Motor(m1: int16, m2: int16, m3: int16, m4: int16)

  datatype Servo = Servo(s1: int16, s2: int16, s3: int16, s4: int16)

  /** The fields of each view in payload order: index `k` of this sequence
      is the field read from `payload[k]`. */
  function RawImuFields(x: RawImu): seq<int16>
  {
    [x.accx, x.accy, x.accz, x.gyrx, x.gyry, x.gyrz, x.magx, x.magy, x.magz]
  }

  function AltitudeFields(x: Altitude): seq<int16> { [x.estalt, x.vario] }

  function AttitudeFields(x: Attitude): seq<int16> { [x.angx, x.angy, x.heading] }

  function RcFields(x: Rc): seq<int16> { [x.roll, x.pitch, x.yaw, x.throttle] }

  function MotorFields(x: Motor): seq<int16> { [x.m1, x.m2, x.m3, x.m4] }

  function ServoFields(x: Servo): seq<int16> { [x.s1, x.s2, x.s3, x.s4] }

  /** `new RawImu(payload)`: accelerometer, gyroscope, magnetometer, x-y-z each. */
  function RawImuOf(payload: seq<int16>): (r: Result<RawImu>)
    ensures r.Ok? <==> |payload| >= 9
    ensures r.Ok? ==> RawImuFields(r.value) == payload[..9]
    ensures r.Err? ==> r.error == IndexOutOfBounds
  {
    if |payload| < 9 then Err(IndexOutOfBounds)
    else Ok(RawImu(payload[0], payload[1], payload[2], payload[3], payload[4],
                   payload[5], payload[6], payload[7], payload[8]))
  }

  /** `new Altitude(payload)`: estimated altitude, then vertical speed. */
  function AltitudeOf(payload: seq<int16>): (r: Result<Altitude>)
    ensures r.Ok? <==> |payload| >= 2
    ensures r.Ok? ==> AltitudeFields(r.value) == payload[..2]
    ensures r.Err? ==> r.error == IndexOutOfBounds
  {
    if |payload| < 2 then Err(IndexOutOfBounds)
    else Ok(Altitude(payload[0], payload[1]))
  }

  /** `new Attitude(payload)`: the two angles, then the heading. */
  function AttitudeOf(payload: seq<int16>): (r: Result<Attitude>)
    ensures r.Ok? <==> |payload| >= 3
    ensures r.Ok? ==> AttitudeFields(r.value) == payload[..3]
    ensures r.Err? ==> r.error == IndexOutOfBounds
  {
    if |payload| < 3 then Err(IndexOutOfBounds)
    else Ok(Attitude(payload[0], payload[1], payload[2]))
  }

  /** `new Rc(payload)`: roll, pitch, yaw, throttle. */
  function RcOf(payload: seq<int16>): (r: Result<Rc>)
    ensures r.Ok? <==> |payload| >= 4
    ensures r.Ok? ==> RcFields(r.value) == payload[..4]
    ensures r.Err? ==> r.error == IndexOutOfBounds
  {
    if |payload| < 4 then Err(IndexOutOfBounds)
    else Ok(Rc(payload[0], payload[1], payload[2], payload[3]))
  }

  /** `new Motor(payload)`: the four motor outputs. */
  function MotorOf(payload: seq<int16>): (r: Result<Motor>)
    ensures r.Ok? <==> |payload| >= 4
    ensures r.Ok? ==> MotorFields(r.value) == payload[..4]
    ensures r.Err? ==> r.error == IndexOutOfBounds
  {
    if |payload| < 4 then Err(IndexOutOfBounds)
    else Ok(Motor(payload[0], payload[1], payload[2], payload[3]))
  }

  /** `new Servo(payload)`: the four servo outputs. */
  function ServoOf(payload: seq<int16>): (r: Result<Servo>)
    ensures r.Ok? <==> |payload| >= 4
    ensures r.Ok? ==> ServoFields(r.value) == payload[..4]
    ensures r.Err? ==> r.error == IndexOutOfBounds
  {
    if |payload| < 4 then Err(IndexOutOfBounds)
    else Ok(Servo(payload[0], payload[1], payload[2], payload[3]))
  }

  /** Each view is read back from the payload that lists its fields. */
  lemma {:induction false} ProjectionsInvert(imu: RawImu, alt: Altitude, att: Attitude, rc: Rc, m: Motor, s: Servo)
    ensures RawImuOf(RawImuFields(imu)) == Ok(imu)
    ensures AltitudeOf(AltitudeFields(alt)) == Ok(alt)
    ensures AttitudeOf(AttitudeFields(att)) == Ok(att)
    ensures RcOf(RcFields(rc)) == Ok(rc)
    ensures MotorOf(MotorFields(m)) == Ok(m)
    ensures ServoOf(ServoFields(s)) == Ok(s)
  {
  }

  /** A view depends only on the prefix it reads. */
  lemma {:induction false} ProjectionsIgnoreTail(payload: seq<int16>, tail: seq<int16>)
    requires |payload| >= 9
    ensures RawImuOf(payload + tail) == RawImuOf(payload)
    ensures AltitudeOf(payload + tail) == AltitudeOf(payload)
    ensures AttitudeOf(payload + tail) == AttitudeOf(payload)
    ensures RcOf(payload + tail) == RcOf(payload)
    ensures MotorOf(payload + tail) == MotorOf(payload)
    ensures ServoOf(payload + tail) == ServoOf(payload)
  {
  }

  /** The size of the telemetry receiver's buffer, `new byte[40]`. */
  const TelemetryBufferSize := 40

  /** What the receiver decodes from one datagram: a fresh zeroed 40-byte
      buffer with the datagram received into it. */
  function TelemetrySegment(datagram: seq<uint8>): (r: Result<Segment>)
    ensures r.Ok? && |r.value.payload| == 18
  {
    Decode(Overlay(Zeros(TelemetryBufferSize), datagram))
  }

  /** Whatever datagram arrives and whatever size it declares, the receiver
      decodes 18 payload elements, so every view can be built from it. */
  lemma {:induction false} TelemetryDecodes18(datagram: seq<uint8>)
    ensures TelemetrySegment(datagram).Ok?
    ensures |TelemetrySegment(datagram).value.payload| == 18
    ensures var p := TelemetrySegment(datagram).value.payload;
      RawImuOf(p).Ok? && AltitudeOf(p).Ok? && AttitudeOf(p).Ok?
      && RcOf(p).Ok? && MotorOf(p).Ok? && ServoOf(p).Ok?
  {
  }

  /** A frame with room to spare lands at the front of the receiver's
      buffer, with the buffer's zeros behind it. */
  lemma {:induction false} FrameInTelemetryBuffer(code: int16, payload: seq<int16>)
    requires 2 * |payload| <= 36
    ensures var frame := Encode(code, (2 * |payload|) as int16, payload).value;
      Overlay(Zeros(TelemetryBufferSize), frame) == frame + Zeros(2 * (18 - |payload|))
  {
    var frame := Encode(code, (2 * |payload|) as int16, payload).value;
    var buf := Overlay(Zeros(TelemetryBufferSize), frame);
    var padded := frame + Zeros(2 * (18 - |payload|));
    assert |buf| == |padded|;
    forall i | 0 <= i < |buf|
      ensures buf[i] == padded[i]
    {
    }
  }

  /** A well-formed frame sent to the receiver decodes to its own code and
      size, but to its payload followed by zero elements up to 18: the
      declared size does not stop the decoder. A size-honouring decoder
      gives the payload alone. */
  lemma {:induction false} TelemetryFramePadded(code: int16, payload: seq<int16>)
    requires 2 * |payload| <= 36
    ensures var frame := Encode(code, (2 * |payload|) as int16, payload).value;
      && TelemetrySegment(frame)
           == Ok(Segment(code, (2 * |payload|) as int16, payload + ZeroShorts(18 - |payload|)))
      && DecodeExact(Overlay(Zeros(TelemetryBufferSize), frame))
           == Ok(Segment(code, (2 * |payload|) as int16, payload))
  {
    FrameInTelemetryBuffer(code, payload);
    ZeroPaddedFrameDecodes(code, payload, 18 - |payload|);
    PaddedFrameDecodesExactly(code, payload, 18 - |payload|);
  }

  /** The size-honouring decoder reads a frame followed by zeros as the
      frame alone. */
  lemma {:induction false} PaddedFrameDecodesExactly(code: int16, payload: seq<int16>, m: nat)
    requires 2 * |payload| < 0x8000
    ensures var size := (2 * |payload|) as int16;
      DecodeExact(Encode(code, size, payload).value + Zeros(2 * m)) == Ok(Segment(code, size, payload))
  {
    var size := (2 * |payload|) as int16;
    var frame := Encode(code, size, payload).value;
    DecodeExactEncode(code, size, payload);
    assert DecodeExact(frame).Ok?;
    DecodeExactIgnoresTrailing(frame, Zeros(2 * m));
  }

  /** A frame followed by `m` zero elements' worth of bytes decodes to the
      frame's header and its payload followed by `m` zeros. */
  lemma {:induction false} ZeroPaddedFrameDecodes(code: int16, payload: seq<int16>, m: nat)
    requires 2 * |payload| < 0x8000
    ensures var size := (2 * |payload|) as int16;
      Decode(Encode(code, size, payload).value + Zeros(2 * m))
        == Ok(Segment(code, size, payload + ZeroShorts(m)))
  {
    var size := (2 * |payload|) as int16;
    var frame := Encode(code, size, payload).value;
    var rest := Zeros(2 * m);
    assert frame == ShortBytes(code) + ShortBytes(size) + Shorts(payload) by {
      assert Zeros(0) == [];
    }
    var body := Shorts(payload) + rest;
    assert frame + rest == ShortBytes(code) + ShortBytes(size) + body;
    DecodeFrame(code, size, body);
    PaddedBodyReads(payload, m);
  }

  /** The set-RC frame, read as a segment and viewed as `Rc`, gives back the
      four axes that were sent. */
  lemma {:induction false} SetRcFrameReadsAsRc(roll: int16, pitch: int16, yaw: int16, throttle: int16)
    ensures var seg := Decode(SetRcFrame(roll, pitch, yaw, throttle));
      seg.Ok? && seg.value.code == 200 && RcOf(seg.value.payload) == Ok(Rc(roll, pitch, yaw, throttle))
  {
    RoundTrip(200, 8, [roll, pitch, yaw, throttle]);
  }

  /** A concrete RC echo: code 105 with four axes at 1500 is the twelve bytes
      `00 69 00 08 05 DC 05 DC 05 DC 05 DC`. */
  lemma {:induction false} RcEchoFrameBytes()
    ensures Encode(105, 8, [1500, 1500, 1500, 1500])
      == Ok([0x00, 0x69, 0x00, 0x08, 0x05, 0xDC, 0x05, 0xDC, 0x05, 0xDC, 0x05, 0xDC])
  {
    var p: seq<int16> := [1500, 1500, 1500, 1500];
    var axis := ShortBytes(1500);
    assert axis == [0x05, 0xDC];
    assert Shorts(p[3..]) == axis;
    assert Shorts(p[2..]) == axis + axis by { assert p[2..][1..] == p[3..]; }
    assert Shorts(p[1..]) == axis + axis + axis by { assert p[1..][1..] == p[2..]; }
    assert Shorts(p) == axis + axis + axis + axis;
    assert ShortBytes(105) == [0x00, 0x69] && ShortBytes(8) == [0x00, 0x08] && Zeros(0) == [];
    var expected: seq<uint8> := [0x00, 0x69, 0x00, 0x08, 0x05, 0xDC, 0x05, 0xDC, 0x05, 0xDC, 0x05, 0xDC];
    assert Encode(105, 8, p).value == ShortBytes(105) + ShortBytes(8) + Shorts(p) + Zeros(0);
    assert ShortBytes(105) + ShortBytes(8) + Shorts(p) + Zeros(0) == expected;
    assert Encode(105, 8, p) == Ok(expected);
  }
}
