/** The frame codec of `DroneClientServer`: a frame is a big-endian 16-bit
    `code`, a big-endian 16-bit `size` (payload length in bytes) and the
    payload as big-endian 16-bit signed elements. */
module Codec {
  import opened JavaTypes

  /** `DroneSegment`: an immutable decoded or to-be-encoded frame. */
  datatype Segment = Segment(code: int16, size: int16, payload: seq<int16>)

  function ShortBytes(s: int16): seq<uint8>
  {
    [HighByte(s), LowByte(s)]
  }

  /** The payload as `ShortBuffer.put(short[])` lays it out, one element after the other. */
  function Shorts(p: seq<int16>): (r: seq<uint8>)
    ensures |r| == 2 * |p|
  {
    if p == [] then [] else ShortBytes(p[0]) + Shorts(p[1..])
  }

  function Zeros(n: nat): (r: seq<uint8>)
    ensures |r| == n && forall i :: 0 <= i < n ==> r[i] == 0
  {
    seq(n, _ => 0)
  }

  /** `n` zero payload elements. */
  function ZeroShorts(n: nat): (r: seq<int16>)
    ensures |r| == n && forall i :: 0 <= i < n ==> r[i] == 0
  {
    seq(n, _ => 0)
  }

  /** What `generateDatagramPacket(code, size, payload)` produces.
      `ByteBuffer.allocate(4 + size)` throws on a negative capacity; the
      short view over it holds `(4 + size) / 2` shorts, so the three puts
      overflow unless the payload fits in the declared size. What the puts
      do not reach keeps the zero the allocation gave it. */
  function Encode(code: int16, size: int16, payload: seq<int16>): (r: Result<seq<uint8>>)
    ensures r.Ok? <==> 2 * |payload| <= size
    ensures r.Ok? ==> |r.value| == 4 + size
    ensures r.Err? ==> r.error == if 4 + size < 0 then NegativeCapacity else BufferOverflow
  {
    if 4 + size < 0 then Err(NegativeCapacity)
    else if size < 2 * |payload| then Err(BufferOverflow)
    else Ok(ShortBytes(code) + ShortBytes(size) + Shorts(payload) + Zeros(size - 2 * |payload|))
  }

  lemma {:induction false} ShortsAt(p: seq<int16>, k: int)
    requires 0 <= k < |p|
    ensures Shorts(p)[2 * k] == HighByte(p[k]) && Shorts(p)[2 * k + 1] == LowByte(p[k])
  {
    if k > 0 {
      ShortsAt(p[1..], k - 1);
    }
  }

  lemma {:induction false} ShortsAppend(p: seq<int16>, x: int16)
    ensures Shorts(p + [x]) == Shorts(p) + ShortBytes(x)
  {
    if p != [] {
      assert (p + [x])[1..] == p[1..] + [x];
      ShortsAppend(p[1..], x);
    }
  }

  /** The wire layout of an encoded frame: code in bytes 0-1, size in bytes
      2-3, payload element `k` in bytes `4 + 2k` and `5 + 2k`, zeros after. */
  lemma {:induction false} EncodeLayout(code: int16, size: int16, payload: seq<int16>)
    requires 2 * |payload| <= size
    ensures var b := Encode(code, size, payload).value;
      && |b| == 4 + size
      && b[0] == HighByte(code) && b[1] == LowByte(code)
      && b[2] == HighByte(size) && b[3] == LowByte(size)
      && (forall k :: 0 <= k < |payload| ==>
            b[4 + 2 * k] == HighByte(payload[k]) && b[5 + 2 * k] == LowByte(payload[k]))
      && (forall j :: 4 + 2 * |payload| <= j < |b| ==> b[j] == 0)
  {
    var b := Encode(code, size, payload).value;
    forall k | 0 <= k < |payload|
      ensures b[4 + 2 * k] == HighByte(payload[k]) && b[5 + 2 * k] == LowByte(payload[k])
    {
      ShortsAt(payload, k);
    }
  }

  /** Conversely, a buffer of `4 + size` bytes with that layout is the encoding. */
  lemma {:induction false} LayoutDeterminesEncode(code: int16, size: int16, payload: seq<int16>, b: seq<uint8>)
    requires 2 * |payload| <= size && |b| == 4 + size
    requires b[0] == HighByte(code) && b[1] == LowByte(code)
    requires b[2] == HighByte(size) && b[3] == LowByte(size)
    requires forall k :: 0 <= k < |payload| ==>
      b[4 + 2 * k] == HighByte(payload[k]) && b[5 + 2 * k] == LowByte(payload[k])
    requires forall j :: 4 + 2 * |payload| <= j < |b| ==> b[j] == 0
    ensures Encode(code, size, payload) == Ok(b)
  {
    EncodeLayout(code, size, payload);
    var e := Encode(code, size, payload).value;
    forall j | 0 <= j < |b|
      ensures b[j] == e[j]
    {
      if 4 <= j < 4 + 2 * |payload| {
        var k := (j - 4) / 2;
        if j == 4 + 2 * k {
          assert b[4 + 2 * k] == HighByte(payload[k]) == e[4 + 2 * k];
        } else {
          assert j == 5 + 2 * k;
          assert b[5 + 2 * k] == LowByte(payload[k]) == e[5 + 2 * k];
        }
      }
    }
    assert b == e;
  }

  /** The buffer after the header and the first `i` payload elements have
      been put: the rest still holds the allocation's zeros. */
  function Staged(code: int16, size: int16, payload: seq<int16>, i: nat): (b: seq<uint8>)
    requires i <= |payload| && 2 * |payload| <= size
    ensures |b| == 4 + size
  {
    ShortBytes(code) + ShortBytes(size) + Shorts(payload[..i]) + Zeros(size - 2 * i)
  }

  /** Before any element is put, the staged buffer is the header followed by zeros. */
  lemma {:induction false} StagedHeader(code: int16, size: int16, payload: seq<int16>)
    requires 2 * |payload| <= size
    ensures Staged(code, size, payload, 0)
      == [HighByte(code), LowByte(code), HighByte(size), LowByte(size)] + Zeros(size)
  {
    assert payload[..0] == [];
  }

  /** Putting element `i` moves the staged buffer on by one element; once
      every element is put, it is the encoding. */
  lemma {:induction false} StagedStep(code: int16, size: int16, payload: seq<int16>, i: nat)
    requires i <= |payload| && 2 * |payload| <= size
    ensures i < |payload| ==>
      Staged(code, size, payload, i)[4 + 2 * i := HighByte(payload[i])][5 + 2 * i := LowByte(payload[i])]
        == Staged(code, size, payload, i + 1)
    ensures i == |payload| ==> Staged(code, size, payload, i) == Encode(code, size, payload).value
  {
    if i < |payload| {
      var s := Staged(code, size, payload, i);
      var t := Staged(code, size, payload, i + 1);
      var u := s[4 + 2 * i := HighByte(payload[i])][5 + 2 * i := LowByte(payload[i])];
      assert payload[..i + 1] == payload[..i] + [payload[i]];
      ShortsAppend(payload[..i], payload[i]);
      var head := ShortBytes(code) + ShortBytes(size) + Shorts(payload[..i]);
      assert |head| == 4 + 2 * i;
      assert t == head + ShortBytes(payload[i]) + Zeros(size - 2 * (i + 1));
      assert s == head + Zeros(size - 2 * i);
      forall j | 0 <= j < |u|
        ensures u[j] == t[j]
      {
        if j < 4 + 2 * i {
          assert u[j] == head[j] == t[j];
        }
      }
    } else {
      assert payload[..i] == payload;
    }
  }

  /** The imperative encoder: allocate a zeroed buffer, then put the code,
      the size and the payload shorts one after another. */
  method GenerateDatagramPacket(code: int16, size: int16, payload: seq<int16>)
    returns (r: Result<seq<uint8>>)
    ensures r == Encode(code, size, payload)
  {
    if 4 + size < 0 {
      return Err(NegativeCapacity);
    }
    var bytes := new uint8[4 + size](_ => 0);
    // the short view's capacity; the header needs two of its slots
    var capacity := (4 + size) / 2;
    if capacity < 2 {
      return Err(BufferOverflow);
    }
    bytes[0], bytes[1] := HighByte(code), LowByte(code);
    bytes[2], bytes[3] := HighByte(size), LowByte(size);
    // the bulk put checks the remaining room before it writes anything
    if capacity - 2 < |payload| {
      return Err(BufferOverflow);
    }
    assert bytes[..] == Staged(code, size, payload, 0) by {
      StagedHeader(code, size, payload);
    }
    PutShorts(bytes, code, size, payload);
    StagedStep(code, size, payload, |payload|);
    return Ok(bytes[..]);
  }

  /** The bulk `ShortBuffer.put(payload)`: element `i` goes to bytes `4 + 2i`
      and `5 + 2i` of the buffer that already holds the header. */
  method PutShorts(bytes: array<uint8>, code: int16, size: int16, payload: seq<int16>)
    requires 2 * |payload| <= size && bytes[..] == Staged(code, size, payload, 0)
    modifies bytes
    ensures bytes[..] == Staged(code, size, payload, |payload|)
  {
    var i := 0;
    while i < |payload|
      invariant 0 <= i <= |payload|
      invariant bytes[..] == Staged(code, size, payload, i)
    {
      StagedStep(code, size, payload, i);
      bytes[4 + 2 * i], bytes[5 + 2 * i] := HighByte(payload[i]), LowByte(payload[i]);
      i := i + 1;
    }
  }

  /** The frame of a command without data: `generateDatagramPacket(code)`
      sends `code, 2, [0]`. */
  function CommandFrame(code: int16): (f: seq<uint8>)
    ensures Encode(code, 2, [0]) == Ok(f)
  {
    assert Shorts([0]) == [0, 0] && Zeros(0) == [] && ShortBytes(2) == [0, 2];
    assert ShortBytes(code) + ShortBytes(2) + Shorts([0]) + Zeros(0) == [HighByte(code), LowByte(code), 0, 2, 0, 0];
    [HighByte(code), LowByte(code), 0, 2, 0, 0]
  }

  /** `generateDatagramPacket(short code)`: six bytes, of which only the first two vary. */
  method GenerateCommandPacket(code: int16) returns (f: seq<uint8>)
    ensures f == CommandFrame(code)
    ensures |f| == 6
    ensures f[0] == HighByte(code) && f[1] == LowByte(code)
    ensures f[2..] == [0, 2, 0, 0]
  {
    var r := GenerateDatagramPacket(code, 2, [0]);
    f := r.value;
  }

  /** The frame of `sendSetRC`: code 200, size 8, then the four axes in
      order, twelve bytes with header `00 C8 00 08` and each axis big-endian. */
  function SetRcFrame(roll: int16, pitch: int16, yaw: int16, throttle: int16): (f: seq<uint8>)
    ensures Encode(200, 8, [roll, pitch, yaw, throttle]) == Ok(f)
    ensures |f| == 12
    ensures f[..4] == [0, 200, 0, 8]
    ensures f[4..6] == ShortBytes(roll) && f[6..8] == ShortBytes(pitch)
    ensures f[8..10] == ShortBytes(yaw) && f[10..] == ShortBytes(throttle)
  {
    SetRcFrameLayout(roll, pitch, yaw, throttle);
    Encode(200, 8, [roll, pitch, yaw, throttle]).value
  }

  /** The encoding of code 200, size 8 and four axes is twelve bytes:
      header `00 C8 00 08`, then each axis big-endian. */
  lemma {:induction false} SetRcFrameLayout(roll: int16, pitch: int16, yaw: int16, throttle: int16)
    ensures var f := Encode(200, 8, [roll, pitch, yaw, throttle]).value;
      && |f| == 12
      && f[..4] == [0, 200, 0, 8]
      && f[4..6] == ShortBytes(roll) && f[6..8] == ShortBytes(pitch)
      && f[8..10] == ShortBytes(yaw) && f[10..] == ShortBytes(throttle)
  {
    var p := [roll, pitch, yaw, throttle];
    assert Shorts([throttle]) == ShortBytes(throttle);
    assert Shorts([yaw, throttle]) == ShortBytes(yaw) + ShortBytes(throttle) by {
      assert [yaw, throttle][1..] == [throttle];
    }
    assert Shorts([pitch, yaw, throttle]) == ShortBytes(pitch) + ShortBytes(yaw) + ShortBytes(throttle) by {
      assert [pitch, yaw, throttle][1..] == [yaw, throttle];
    }
    assert Shorts(p) == ShortBytes(roll) + ShortBytes(pitch) + ShortBytes(yaw) + ShortBytes(throttle) by {
      assert p[1..] == [pitch, yaw, throttle];
    }
    assert ShortBytes(200) == [0, 200] && ShortBytes(8) == [0, 8] && Zeros(0) == [];
  }

  /** The payload as the decoder's index loop reads it: element `k` is the
      short made of bytes `2k` and `2k + 1`. */
  function ShortsFrom(b: seq<uint8>): (p: seq<int16>)
    requires |b| % 2 == 0
    ensures |p| == |b| / 2
  {
    seq(|b| / 2, k requires 0 <= k < |b| / 2 => ShortOf(b[2 * k], b[2 * k + 1]))
  }

  lemma {:induction false} ShortsFromAt(b: seq<uint8>, k: int)
    requires |b| % 2 == 0 && 0 <= k < |b| / 2
    ensures ShortsFrom(b)[k] == ShortOf(b[2 * k], b[2 * k + 1])
  {
  }

  /** Two more bytes read as one more element. */
  lemma {:induction false} ShortsFromAppend(b: seq<uint8>, hi: uint8, lo: uint8)
    requires |b| % 2 == 0
    ensures ShortsFrom(b + [hi, lo]) == ShortsFrom(b) + [ShortOf(hi, lo)]
  {
    var c := b + [hi, lo];
    var l := ShortsFrom(c);
    var r := ShortsFrom(b) + [ShortOf(hi, lo)];
    assert |l| == |r|;
    forall k | 0 <= k < |l|
      ensures l[k] == r[k]
    {
      ShortsFromAt(c, k);
      if k < |b| / 2 {
        ShortsFromAt(b, k);
        assert c[2 * k] == b[2 * k] && c[2 * k + 1] == b[2 * k + 1];
      } else {
        assert 2 * k == |b|;
      }
    }
  }

  lemma {:induction false} ShortsFromConcat(a: seq<uint8>, b: seq<uint8>)
    requires |a| % 2 == 0 && |b| % 2 == 0
    ensures ShortsFrom(a + b) == ShortsFrom(a) + ShortsFrom(b)
  {
    var c := a + b;
    var l := ShortsFrom(c);
    var r := ShortsFrom(a) + ShortsFrom(b);
    var h := |a| / 2;
    assert |a| == 2 * h;
    assert |l| == |r|;
    forall k | 0 <= k < |l|
      ensures l[k] == r[k]
    {
      ShortsFromAt(c, k);
      if k < h {
        ShortsFromAt(a, k);
        assert c[2 * k] == a[2 * k] && c[2 * k + 1] == a[2 * k + 1];
      } else {
        var j := k - h;
        ShortsFromAt(b, j);
        assert c[2 * k] == b[2 * j] && c[2 * k + 1] == b[2 * j + 1];
        assert r[k] == ShortsFrom(b)[j];
      }
    }
  }

  /** Reading back what `Shorts` wrote gives the payload. */
  lemma {:induction false} ShortsFromShorts(p: seq<int16>)
    ensures ShortsFrom(Shorts(p)) == p
  {
    var b := Shorts(p);
    var q := ShortsFrom(b);
    forall k | 0 <= k < |p|
      ensures q[k] == p[k]
    {
      ShortsFromAt(b, k);
      ShortsAt(p, k);
      ShortBytesRoundTrip(p[k]);
    }
  }

  /** Zero padding reads back as zero elements. */
  lemma {:induction false} ShortsFromZeros(n: nat)
    ensures ShortsFrom(Zeros(2 * n)) == ZeroShorts(n)
  {
    var z := Zeros(2 * n);
    var p := ShortsFrom(z);
    forall k | 0 <= k < n
      ensures p[k] == 0
    {
      ShortsFromAt(z, k);
      assert z[2 * k] == 0 && z[2 * k + 1] == 0;
    }
    AllZero(p, n);
  }

  lemma {:induction false} AllZero(p: seq<int16>, n: nat)
    requires |p| == n && forall k :: 0 <= k < n ==> p[k] == 0
    ensures p == ZeroShorts(n)
  {
  }

  /** What `new DroneSegment(bytes)` builds. The header is bytes 0-3; the
      payload has `(bytes.length - 4) / 2` elements whatever the declared
      size says. A buffer shorter than the header, or one whose body has an
      odd number of bytes, makes the decoder index past the end. */
  function Decode(bytes: seq<uint8>): (r: Result<Segment>)
    ensures r.Ok? <==> |bytes| >= 4 && (|bytes| - 4) % 2 == 0
    ensures r.Ok? ==> |r.value.payload| == (|bytes| - 4) / 2
    ensures r.Err? ==> r.error == IndexOutOfBounds
  {
    if |bytes| < 4 || (|bytes| - 4) % 2 != 0 then Err(IndexOutOfBounds)
    else Ok(Segment(ShortOf(bytes[0], bytes[1]), ShortOf(bytes[2], bytes[3]), ShortsFrom(bytes[4..])))
  }

  /** `DroneSegment(byte[])`: read the header, then fill a payload array of
      `(bytes.length - 4) / 2` shorts in an index loop that runs while
      `2 * i < bytes.length - 4`. */
  method DecodeSegment(bytes: seq<uint8>) returns (r: Result<Segment>)
    ensures r == Decode(bytes)
  {
    if |bytes| < 4 {
      return Err(IndexOutOfBounds);
    }
    var code := ShortOf(bytes[0], bytes[1]);
    var size := ShortOf(bytes[2], bytes[3]);
    var payload := new int16[(|bytes| - 4) / 2];
    var i := 0;
    while 2 * i < |bytes| - 4
      invariant 0 <= i <= payload.Length && 4 + 2 * i <= |bytes|
      invariant payload[..i] == ShortsFrom(bytes[4..4 + 2 * i])
      decreases |bytes| - 2 * i
    {
      if 5 + 2 * i >= |bytes| {
        // the odd last byte has no partner: bytes[2 * i + 5] is out of range
        return Err(IndexOutOfBounds);
      }
      payload[i] := ShortOf(bytes[4 + 2 * i], bytes[5 + 2 * i]);
      assert bytes[4..4 + 2 * (i + 1)] == bytes[4..4 + 2 * i] + [bytes[4 + 2 * i], bytes[5 + 2 * i]];
      ShortsFromAppend(bytes[4..4 + 2 * i], bytes[4 + 2 * i], bytes[5 + 2 * i]);
      assert payload[..i + 1] == payload[..i] + [payload[i]];
      i := i + 1;
    }
    assert bytes[4..4 + 2 * i] == bytes[4..];
    assert payload[..] == payload[..i];
    return Ok(Segment(code, size, payload[..]));
  }

  /** Decoding an encoded frame gives back code and size, and the payload
      followed by one zero element per two bytes of padding; an odd size
      leaves an odd body, which the decoder cannot read. */
  lemma {:induction false} DecodeEncode(code: int16, size: int16, payload: seq<int16>)
    requires 2 * |payload| <= size
    ensures size % 2 == 0 ==>
      Decode(Encode(code, size, payload).value)
        == Ok(Segment(code, size, payload + ZeroShorts((size - 2 * |payload|) / 2)))
    ensures size % 2 == 1 ==> Decode(Encode(code, size, payload).value) == Err(IndexOutOfBounds)
  {
    if size % 2 == 0 {
      var pad := (size - 2 * |payload|) / 2;
      EvenEncodeParts(code, size, payload, pad);
      var body := Shorts(payload) + Zeros(2 * pad);
      assert |body| == 2 * (|payload| + pad);
      DecodeFrame(code, size, body);
      PaddedBodyReads(payload, pad);
    }
  }

  lemma {:induction false} EvenEncodeParts(code: int16, size: int16, payload: seq<int16>, pad: nat)
    requires 2 * |payload| + 2 * pad == size
    ensures Encode(code, size, payload).value
      == ShortBytes(code) + ShortBytes(size) + (Shorts(payload) + Zeros(2 * pad))
  {
    EncodeParts(code, size, payload);
  }

  /** The encoding is a four-byte header followed by the body. */
  lemma {:induction false} EncodeParts(code: int16, size: int16, payload: seq<int16>)
    requires 2 * |payload| <= size
    ensures Encode(code, size, payload).value
      == ShortBytes(code) + ShortBytes(size) + (Shorts(payload) + Zeros(size - 2 * |payload|))
  {
    var head := ShortBytes(code) + ShortBytes(size);
    var body := Shorts(payload);
    var tail := Zeros(size - 2 * |payload|);
    assert head + body + tail == head + (body + tail);
  }

  /** A payload's bytes followed by `pad` zero pairs read back as the payload
      followed by `pad` zero elements. */
  lemma {:induction false} PaddedBodyReads(payload: seq<int16>, pad: nat)
    ensures ShortsFrom(Shorts(payload) + Zeros(2 * pad)) == payload + ZeroShorts(pad)
  {
    ShortsFromConcat(Shorts(payload), Zeros(2 * pad));
    ShortsFromShorts(payload);
    ShortsFromZeros(pad);
  }

  lemma {:induction false} DecodeFrame(code: int16, size: int16, body: seq<uint8>)
    requires |body| % 2 == 0
    ensures Decode(ShortBytes(code) + ShortBytes(size) + body) == Ok(Segment(code, size, ShortsFrom(body)))
  {
    var b := ShortBytes(code) + ShortBytes(size) + body;
    assert b[4..] == body;
    ShortBytesRoundTrip(code);
    ShortBytesRoundTrip(size);
  }

  /** The round trip: with a size that matches the payload exactly, decoding
      the encoding gives back the same segment. */
  lemma {:induction false} RoundTrip(code: int16, size: int16, payload: seq<int16>)
    requires 2 * |payload| == size
    ensures Encode(code, size, payload).Ok?
    ensures Decode(Encode(code, size, payload).value) == Ok(Segment(code, size, payload))
  {
    DecodeEncode(code, size, payload);
    assert payload + ZeroShorts(0) == payload;
  }

  /** A command frame decodes to its code, size 2 and the single element 0. */
  lemma {:induction false} CommandFrameDecodes(code: int16)
    ensures Decode(CommandFrame(code)) == Ok(Segment(code, 2, [0]))
  {
    RoundTrip(code, 2, [0]);
  }

  /** A size-honouring decoder: it reads exactly the `size` bytes the header
      declares and refuses a negative or odd size, or a buffer too short to
      hold them. */
  function DecodeExact(bytes: seq<uint8>): (r: Result<Segment>)
    ensures r.Ok? <==> |bytes| >= 4 && var size := ShortOf(bytes[2], bytes[3]);
      0 <= size && size % 2 == 0 && 4 + size <= |bytes|
    ensures r.Ok? ==> 2 * |r.value.payload| == r.value.size
  {
    if |bytes| < 4 then Err(MalformedPacket)
    else
      var size := ShortOf(bytes[2], bytes[3]);
      if size < 0 || size % 2 != 0 || |bytes| < 4 + size then Err(MalformedPacket)
      else Ok(Segment(ShortOf(bytes[0], bytes[1]), size, ShortsFrom(bytes[4..4 + size])))
  }

  /** The source's decoder and the size-honouring one agree on a buffer
      exactly when the buffer is as long as its header says. */
  lemma {:induction false} DecodersAgree(bytes: seq<uint8>)
    requires Decode(bytes).Ok?
    ensures DecodeExact(bytes) == Decode(bytes) <==> |bytes| == 4 + Decode(bytes).value.size
  {
    var size: int := ShortOf(bytes[2], bytes[3]);
    var d := Decode(bytes).value;
    assert d.size == size && d.payload == ShortsFrom(bytes[4..]);
    if |bytes| == 4 + size {
      assert bytes[4..4 + size] == bytes[4..];
      assert DecodeExact(bytes) == Ok(d);
    } else if DecodeExact(bytes).Ok? {
      assert 2 * |DecodeExact(bytes).value.payload| == size;
      assert 2 * |d.payload| == |bytes| - 4;
    }
  }

  /** Bytes after the declared frame do not change what the size-honouring
      decoder reads. */
  lemma {:induction false} DecodeExactIgnoresTrailing(bytes: seq<uint8>, extra: seq<uint8>)
    requires DecodeExact(bytes).Ok?
    ensures DecodeExact(bytes + extra) == DecodeExact(bytes)
  {
    var b := bytes + extra;
    assert b[0] == bytes[0] && b[1] == bytes[1] && b[2] == bytes[2] && b[3] == bytes[3];
    var size: int := ShortOf(bytes[2], bytes[3]);
    assert b[4..4 + size] == bytes[4..4 + size];
  }

  /** The size-honouring decoder inverts the encoder whatever the padding. */
  lemma {:induction false} DecodeExactEncode(code: int16, size: int16, payload: seq<int16>)
    requires 2 * |payload| == size
    ensures DecodeExact(Encode(code, size, payload).value) == Ok(Segment(code, size, payload))
  {
    RoundTrip(code, size, payload);
    DecodersAgree(Encode(code, size, payload).value);
  }
}
