/** The older client `DroneClient`: a package of three big-endian 32-bit
    ints, a 16-bit big-endian reader for the reply code, and the
    `connectionStarted` guard of its handshake. */
module Legacy {
  import opened JavaTypes
  import opened Channel

  /** A `DatagramPacket` addressed to the peer: the buffer it wraps, the
      length it declares and the destination port. The address is not
      part of this model. */
  datatype Packet = Packet(data: seq<uint8>, length: nat, port: int)

  /** The port `createPackage` addresses. */
  const PeerPort := 4445

  /** The four bytes `IntBuffer.put` writes for one int, most significant first. */
  function IntBytes(x: int32): (r: seq<uint8>)
    ensures |r| == 4
  {
    var u := Unsigned32(x);
    [u / 0x100_0000, u / 0x1_0000 % 0x100, u / 0x100 % 0x100, u % 0x100]
  }

  /** The four bytes read back most significant first give the int's bit pattern. */
  lemma {:induction false} IntBytesValue(x: int32)
    ensures var b := IntBytes(x);
      (b[0] as int) * 0x100_0000 + (b[1] as int) * 0x1_0000 + (b[2] as int) * 0x100 + b[3] == Unsigned32(x)
  {
    var u := Unsigned32(x);
    var hi := u / 0x1_0000;
    var lo := u % 0x1_0000;
    assert u == hi * 0x1_0000 + lo;
    assert u / 0x100_0000 == hi / 0x100;
    assert u / 0x1_0000 % 0x100 == hi % 0x100;
    assert u / 0x100 % 0x100 == lo / 0x100 by {
      assert u / 0x100 == hi * 0x100 + lo / 0x100;
    }
    assert u % 0x100 == lo % 0x100 by {
      assert u == (hi * 0x100) * 0x100 + lo;
    }
  }

  /** The ints of a package laid out one after another. */
  function PackInts(xs: seq<int32>): (r: seq<uint8>)
    ensures |r| == 4 * |xs|
  {
    if xs == [] then [] else IntBytes(xs[0]) + PackInts(xs[1..])
  }

  lemma {:induction false} PackIntsAt(xs: seq<int32>, k: int)
    requires 0 <= k < |xs|
    ensures PackInts(xs)[4 * k..4 * k + 4] == IntBytes(xs[k])
  {
    if k > 0 {
      PackIntsAt(xs[1..], k - 1);
      assert PackInts(xs)[4 * k..4 * k + 4] == PackInts(xs[1..])[4 * (k - 1)..4 * (k - 1) + 4];
    }
  }

  /** `getInt(arr, off)`: `arr[off] << 8 & 0xFF00 | arr[off + 1] & 0xFF`, an
      unsigned 16-bit big-endian value; an offset outside the array throws. */
  function GetInt(arr: seq<uint8>, off: int): (r: Result<int>)
    ensures r.Ok? <==> 0 <= off && off + 1 < |arr|
    ensures r.Ok? ==> 0 <= r.value < 0x1_0000 && r.value / 0x100 == arr[off] && r.value % 0x100 == arr[off + 1]
    ensures r.Err? ==> r.error == IndexOutOfBounds
  {
    if off < 0 || off + 1 >= |arr| then Err(IndexOutOfBounds)
    else Ok((arr[off] as int) * 0x100 + arr[off + 1])
  }

  /** `getCode(response)`: the first two bytes, read as the unsigned bit
      pattern of the short that `DroneSegment` decodes from them. */
  function GetCode(response: seq<uint8>): (r: Result<int>)
    ensures r.Ok? <==> |response| >= 2
    ensures r.Ok? ==> r.value == Unsigned16(ShortOf(response[0], response[1]))
  {
    GetInt(response, 0)
  }

  /** The package writes the code as 32 bits while `getCode` reads 16: what
      it reads back is the code's upper half. */
  lemma {:induction false} PackageCodeReadsHighHalf(code: int32, size: int32, data: int32)
    ensures GetCode(PackInts([code, size, data])) == Ok(Unsigned32(code) / 0x1_0000)
  {
    var b := PackInts([code, size, data]);
    PackIntsAt([code, size, data], 0);
    var u := Unsigned32(code);
    var hi := u / 0x1_0000;
    assert b[0] == u / 0x100_0000 == hi / 0x100;
    assert b[1] == hi % 0x100;
  }

  /** The code's lower half is what sits at offset 2. */
  lemma {:induction false} PackageCodeLowHalf(code: int32, size: int32, data: int32)
    ensures GetInt(PackInts([code, size, data]), 2) == Ok(Unsigned32(code) % 0x1_0000)
  {
    var b := PackInts([code, size, data]);
    PackIntsAt([code, size, data], 0);
    var u := Unsigned32(code);
    var lo := u % 0x1_0000;
    assert u / 0x100 % 0x100 == lo / 0x100 by {
      assert u / 0x100 == (u / 0x1_0000) * 0x100 + lo / 0x100;
    }
    assert u % 0x100 == lo % 0x100 by {
      assert u == ((u / 0x1_0000) * 0x100) * 0x100 + lo;
    }
  }

  /** So `getCode` gives back the code of a package only for code 0;
      `createPackage(300, 1, 0)` reads back as 0. */
  lemma {:induction false} PackageCodeRoundTripsOnlyZero(code: int32, size: int32, data: int32)
    ensures GetCode(PackInts([code, size, data])) == Ok(code) <==> code == 0
    ensures GetCode(PackInts([300, 1, 0])) == Ok(0)
  {
    PackageCodeReadsHighHalf(code, size, data);
    PackageCodeReadsHighHalf(300, 1, 0);
    var half := Unsigned32(code) / 0x1_0000;
    if code < 0 {
      assert half >= 0;
    } else if code > 0 {
      assert Unsigned32(code) == code;
      assert half < code;
    }
    assert Unsigned32(300) / 0x1_0000 == 0;
  }

  /** The handshake's receive loop as evidently intended, over the scripted
      replies: each reply is received into the buffer, and the loop stops at
      the first whose buffer reads code 300. The result is the final buffer,
      the replies left over and whether the connection started. */
  function AwaitAccept(buf: seq<uint8>, replies: seq<seq<uint8>>): (r: (seq<uint8>, seq<seq<uint8>>, bool))
    ensures |r.0| == |buf|
    ensures r.2 ==> GetCode(r.0) == Ok(300)
    ensures !r.2 ==> r.1 == []
    ensures |r.1| <= |replies| && r.1 == replies[|replies| - |r.1|..]
    decreases |replies|
  {
    if replies == [] then (buf, [], false)
    else
      var next := Overlay(buf, replies[0]);
      if GetCode(next) == Ok(300) then (next, replies[1..], true)
      else AwaitAccept(next, replies[1..])
  }

  /** When every reply carries at least a code, the connection starts
      exactly when some reply's code is 300, and then it stops right after
      the first such reply. */
  lemma {:induction false} AwaitAcceptStarts(buf: seq<uint8>, replies: seq<seq<uint8>>, i: int)
    requires |buf| >= 2
    requires forall j :: 0 <= j < |replies| ==> |replies[j]| >= 2
    requires 0 <= i < |replies| && GetCode(replies[i]) == Ok(300)
    requires forall j :: 0 <= j < i ==> GetCode(replies[j]) != Ok(300)
    ensures AwaitAccept(buf, replies).2
    ensures AwaitAccept(buf, replies).1 == replies[i + 1..]
    decreases |replies|
  {
    var next := Overlay(buf, replies[0]);
    assert next[0] == replies[0][0] && next[1] == replies[0][1];
    assert GetCode(next) == GetCode(replies[0]);
    if i > 0 {
      AwaitAcceptStarts(next, replies[1..], i - 1);
      assert replies[1..][i..] == replies[i + 1..];
    }
  }

  lemma {:induction false} AwaitAcceptNever(buf: seq<uint8>, replies: seq<seq<uint8>>)
    requires |buf| >= 2
    requires forall j :: 0 <= j < |replies| ==> |replies[j]| >= 2 && GetCode(replies[j]) != Ok(300)
    ensures !AwaitAccept(buf, replies).2
    decreases |replies|
  {
    if replies != [] {
      var next := Overlay(buf, replies[0]);
      assert next[0] == replies[0][0] && next[1] == replies[0][1];
      AwaitAcceptNever(next, replies[1..]);
    }
  }

  /** The receive loop as its condition `!connectionStarted || elapsed > 5`
      runs it. A receive that waits for a datagram takes far longer than
      5 ns, so after the first reply the condition holds whatever the flag
      says: the loop consumes every reply, the flag records whether some
      buffer read code 300 on the way, and the next receive blocks for ever. */
  function AwaitAcceptAsWritten(buf: seq<uint8>, replies: seq<seq<uint8>>, started: bool)
    : (r: (seq<uint8>, seq<seq<uint8>>, bool))
    ensures |r.0| == |buf|
    ensures r.1 == []
    ensures started ==> r.2
    decreases |replies|
  {
    if replies == [] then (buf, [], started)
    else
      var next := Overlay(buf, replies[0]);
      AwaitAcceptAsWritten(next, replies[1..], started || GetCode(next) == Ok(300))
  }

  /** The loop as written sets the flag exactly when the intended loop
      does; it differs in the replies it goes on consuming. */
  lemma {:induction false} AsWrittenStartsLikeIntended(buf: seq<uint8>, replies: seq<seq<uint8>>, started: bool)
    ensures AwaitAcceptAsWritten(buf, replies, started).2 == (started || AwaitAccept(buf, replies).2)
    decreases |replies|
  {
    if replies != [] {
      var next := Overlay(buf, replies[0]);
      if GetCode(next) != Ok(300) {
        AsWrittenStartsLikeIntended(next, replies[1..], started);
      }
    }
  }

  /** The accepting reply `01 2C` followed by `09 09`: the intended loop
      stops with the second reply still queued; the loop as written
      consumes it too. */
  lemma {:induction false} AsWrittenKeepsReceiving()
    ensures AwaitAccept(PackInts([300, 1, 0]), [[1, 44], [9, 9]]) == (Overlay(PackInts([300, 1, 0]), [1, 44]), [[9, 9]], true)
    ensures AwaitAcceptAsWritten(PackInts([300, 1, 0]), [[1, 44], [9, 9]], false).1 == []
  {
    var start := PackInts([300, 1, 0]);
    var replies: seq<seq<uint8>> := [[1, 44], [9, 9]];
    var next := Overlay(start, replies[0]);
    assert next[0] == 1 && next[1] == 44;
    assert GetCode(next) == Ok(300);
    assert replies[1..] == [[9, 9]];
  }

  class DroneClient {
    var commandBuf: seq<uint8>
    var connectionStarted: bool
    /** The datagrams that will arrive on `commandSock`, in order. The
        socket has no timeout, so with none left `receive` blocks for ever. */
    var commandReplies: seq<seq<uint8>>

    /** Java's default constructor: `connectionStarted` is false and
        `commandBuf` holds no array yet (here: no bytes). */
    constructor (replies: seq<seq<uint8>>)
      ensures commandBuf == [] && !connectionStarted && commandReplies == replies
    {
      commandBuf, connectionStarted, commandReplies := [], false, replies;
    }

    /** `createPackage`: pack `code, size, data` big-endian into a fresh
        12-byte array, make it `commandBuf`, and wrap it in a packet. */
    method CreatePackage(code: int32, size: int32, data: int32) returns (packet: Packet)
      modifies this
      ensures commandBuf == PackInts([code, size, data]) && |commandBuf| == 12
      ensures packet == Packet(commandBuf, 12, PeerPort)
      ensures connectionStarted == old(connectionStarted) && commandReplies == old(commandReplies)
    {
      var packageData := [code, size, data];
      var bytes := new uint8[|packageData| * 4](_ => 0);
      ghost var target := PackInts(packageData);
      var i := 0;
      while i < |packageData|
        invariant 0 <= i <= |packageData|
        invariant forall k :: 0 <= k < 4 * i ==> bytes[k] == target[k]
        modifies bytes
      {
        var b := IntBytes(packageData[i]);
        PackIntsAt(packageData, i);
        bytes[4 * i], bytes[4 * i + 1], bytes[4 * i + 2], bytes[4 * i + 3] := b[0], b[1], b[2], b[3];
        forall k | 4 * i <= k < 4 * i + 4
          ensures bytes[k] == target[k]
        {
          assert target[k] == b[k - 4 * i];
        }
        i := i + 1;
      }
      assert bytes[..] == target;
      commandBuf := bytes[..];
      packet := Packet(commandBuf, |commandBuf|, PeerPort);
    }

    /** `startConnection`: nothing once the connection has started;
        otherwise build the start package (never sent) and receive into its
        buffer until a reply reads code 300. The elapsed-time term of the
        loop condition is not part of this model. */
    method StartConnection()
      modifies this
      ensures old(connectionStarted) ==>
        connectionStarted && commandBuf == old(commandBuf) && commandReplies == old(commandReplies)
      ensures !old(connectionStarted) ==>
        (commandBuf, commandReplies, connectionStarted) == AwaitAccept(PackInts([300, 1, 0]), old(commandReplies))
    {
      if !connectionStarted {
        var packet := CreatePackage(300, 1, 0);
        ghost var start := PackInts([300, 1, 0]);
        while !connectionStarted && commandReplies != []
          invariant !connectionStarted ==>
            AwaitAccept(commandBuf, commandReplies) == AwaitAccept(start, old(commandReplies))
          invariant connectionStarted ==>
            (commandBuf, commandReplies, true) == AwaitAccept(start, old(commandReplies))
          decreases |commandReplies|
        {
          ghost var q := commandReplies;
          ghost var next := Overlay(commandBuf, q[0]);
          assert AwaitAccept(commandBuf, q)
            == if GetCode(next) == Ok(300) then (next, q[1..], true) else AwaitAccept(next, q[1..]);
          commandBuf := Overlay(commandBuf, commandReplies[0]);
          commandReplies := commandReplies[1..];
          if GetCode(commandBuf) == Ok(300) {
            connectionStarted := true;
          }
        }
      }
    }
  }
}
