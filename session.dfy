/** The command session of `DroneClientServer`: the handshake, the
    fire-and-forget commands, the set-RC exchange, the telemetry start/stop
    flag and the teardown order. The socket is a `Channel.DatagramSocket`:
    a log of sent frames and a scripted queue of replies. */
module Session {
  import opened JavaTypes
  import opened Codec
  import opened Channel

  const START_TELEMETRY: int16 := 120
  const TELEMETRY_ACCEPTED: int16 := 121
  const END_TELEMETRY: int16 := 122
  const SET_RC: int16 := 200
  const ARM: int16 := 220
  const DISARM: int16 := 221
  const START_CONNECTION: int16 := 300
  const CONNECTION_ACCEPTED: int16 := 301
  const END_CONNECTION: int16 := 302

  /** The code `new DroneSegment(packet.getData())` reads once `reply` has
      been received into the packet that carried `request`: the reply's own
      code when it has two bytes, otherwise bytes of the request survive. */
  function ReplyCode(request: seq<uint8>, reply: seq<uint8>): (c: int16)
    requires |request| >= 4 && |request| % 2 == 0
    ensures |reply| >= 2 ==> c == ShortOf(reply[0], reply[1])
    ensures |reply| == 1 ==> c == ShortOf(reply[0], request[1])
    ensures |reply| == 0 ==> c == ShortOf(request[0], request[1])
  {
    Decode(Overlay(request, reply)).value.code
  }

  /** An empty datagram leaves the request in the buffer, so the code read
      back is the request's own, never the acceptance the code waits for. */
  lemma {:induction false} EmptyReplyEchoesRequest(code: int16)
    ensures ReplyCode(CommandFrame(code), []) == code
  {
    var request := CommandFrame(code);
    assert request[0] == HighByte(code) && request[1] == LowByte(code);
    ShortBytesRoundTrip(code);
  }

  /** A reply that is itself a command frame is read as that frame's code. */
  lemma {:induction false} FrameReplyCode(request: int16, reply: int16)
    ensures ReplyCode(CommandFrame(request), CommandFrame(reply)) == reply
  {
    ShortBytesRoundTrip(reply);
  }

  /** The socket after `send(request)` then `receive` into the same packet:
      nothing happens on a closed socket; a send that throws logs nothing
      and receives nothing; otherwise the request is logged and the next
      reply, if any, consumed. */
  twostate predicate Exchanged(s: DatagramSocket, request: seq<uint8>)
    reads s
  {
    && s.closed == old(s.closed)
    && (if old(s.closed) then (s.sent == old(s.sent) && s.pending == old(s.pending) && s.faults == old(s.faults))
        else if SendFails(old(s.faults)) then
          (s.sent == old(s.sent) && s.pending == old(s.pending) && s.faults == old(s.faults)[1..])
        else (s.sent == old(s.sent) + [request] && s.pending == Tail(old(s.pending)) && s.faults == Tail(old(s.faults))))
  }

  /** The code that exchange reads back, or the exception it throws. */
  twostate function ExchangeCode(s: DatagramSocket, request: seq<uint8>): Result<int16>
    requires |request| >= 4 && |request| % 2 == 0
    reads s
  {
    if old(s.closed) then Err(SocketClosed)
    else if SendFails(old(s.faults)) then Err(Unreachable)
    else if old(s.pending) == [] then Err(Timeout)
    else Ok(ReplyCode(request, old(s.pending)[0]))
  }

  class DroneClientServer {
    const datagramSocket: DatagramSocket
    var telemetryStarted: bool
    /** How many times `telemetryThread.start()` has run. */
    ghost var telemetryThreadStarts: nat

    /** The flag records exactly whether the telemetry thread was started,
        so the thread is started at most once. */
    ghost predicate Valid()
      reads this
    {
      telemetryThreadStarts == if telemetryStarted then 1 else 0
    }

    constructor (socket: DatagramSocket)
      ensures Valid() && datagramSocket == socket && !telemetryStarted
    {
      datagramSocket := socket;
      telemetryStarted := false;
      telemetryThreadStarts := 0;
    }

    method SendArm() returns (r: Outcome)
      modifies datagramSocket
      ensures SentFrame(datagramSocket, CommandFrame(ARM), r)
    {
      var frame := GenerateCommandPacket(ARM);
      r := datagramSocket.Send(frame);
    }

    method SendDisarm() returns (r: Outcome)
      modifies datagramSocket
      ensures SentFrame(datagramSocket, CommandFrame(DISARM), r)
    {
      var frame := GenerateCommandPacket(DISARM);
      r := datagramSocket.Send(frame);
    }

    /** `sendSetRC`: send the four axes, then wait for one reply, whose
        contents are not looked at. */
    method SendSetRc(roll: int16, pitch: int16, yaw: int16, throttle: int16) returns (r: Outcome)
      modifies datagramSocket
      ensures Exchanged(datagramSocket, SetRcFrame(roll, pitch, yaw, throttle))
      ensures r == match ExchangeCode(datagramSocket, SetRcFrame(roll, pitch, yaw, throttle))
        case Err(e) => Fail(e)
        case Ok(_) => Pass
    {
      var frame := GenerateDatagramPacket(SET_RC, 8, [roll, pitch, yaw, throttle]);
      r := datagramSocket.Send(frame.value);
      if r.Fail? {
        return;
      }
      var reply := datagramSocket.Receive(frame.value);
      r := if reply.Err? then Fail(reply.error) else Pass;
    }

    /** `startConnection`: send START_CONNECTION and accept only the reply
        code CONNECTION_ACCEPTED. */
    method StartConnection() returns (r: Outcome)
      modifies datagramSocket
      ensures Exchanged(datagramSocket, CommandFrame(START_CONNECTION))
      ensures r == match ExchangeCode(datagramSocket, CommandFrame(START_CONNECTION))
        case Err(e) => Fail(e)
        case Ok(code) => if code == CONNECTION_ACCEPTED then Pass else Fail(ConnectionRejected)
    {
      var frame := GenerateCommandPacket(START_CONNECTION);
      r := datagramSocket.Send(frame);
      if r.Fail? {
        return;
      }
      var reply := datagramSocket.Receive(frame);
      if reply.Err? {
        return Fail(reply.error);
      }
      var segment := DecodeSegment(reply.value);
      r := if segment.value.code != CONNECTION_ACCEPTED then Fail(ConnectionRejected) else Pass;
    }

    /** `startTelemetry`: only while the flag is clear, send START_TELEMETRY
        and set the flag (and start the thread) on TELEMETRY_ACCEPTED; any
        other reply code leaves everything as it was, without an error. */
    method StartTelemetry() returns (r: Outcome)
      requires Valid()
      modifies this, datagramSocket
      ensures Valid()
      ensures old(telemetryStarted) ==> r == Pass && telemetryStarted && unchanged(datagramSocket)
      ensures !old(telemetryStarted) ==>
        && Exchanged(datagramSocket, CommandFrame(START_TELEMETRY))
        && match ExchangeCode(datagramSocket, CommandFrame(START_TELEMETRY))
           case Err(e) => r == Fail(e) && !telemetryStarted
           case Ok(code) => r == Pass && telemetryStarted == (code == TELEMETRY_ACCEPTED)
    {
      var frame := GenerateCommandPacket(START_TELEMETRY);
      r := Pass;
      if !telemetryStarted {
        r := datagramSocket.Send(frame);
        if r.Fail? {
          return;
        }
        var reply := datagramSocket.Receive(frame);
        if reply.Err? {
          return Fail(reply.error);
        }
        var segment := DecodeSegment(reply.value);
        if segment.value.code == TELEMETRY_ACCEPTED {
          telemetryStarted := true;
          telemetryThreadStarts := telemetryThreadStarts + 1;
        }
      }
    }

    /** `stopTelemetry`: send END_TELEMETRY. The flag is left set, so a
        later `startTelemetry` sends nothing. */
    method StopTelemetry() returns (r: Outcome)
      modifies datagramSocket
      ensures SentFrame(datagramSocket, CommandFrame(END_TELEMETRY), r)
      ensures telemetryStarted == old(telemetryStarted)
    {
      var frame := GenerateCommandPacket(END_TELEMETRY);
      r := datagramSocket.Send(frame);
    }

    method StopConnection() returns (r: Outcome)
      modifies datagramSocket
      ensures SentFrame(datagramSocket, CommandFrame(END_CONNECTION), r)
    {
      var frame := GenerateCommandPacket(END_CONNECTION);
      r := datagramSocket.Send(frame);
    }

    /** `close`: END_TELEMETRY, then END_CONNECTION, then close the socket;
        the first exception ends the teardown and leaves the socket open. */
    method Close() returns (r: Outcome)
      modifies datagramSocket
      ensures datagramSocket.pending == old(datagramSocket.pending)
      ensures old(datagramSocket.closed) ==>
        && r == Fail(SocketClosed) && datagramSocket.closed
        && datagramSocket.sent == old(datagramSocket.sent)
        && datagramSocket.faults == old(datagramSocket.faults)
      ensures !old(datagramSocket.closed) && SendFails(old(datagramSocket.faults)) ==>
        && r == Fail(Unreachable) && !datagramSocket.closed
        && datagramSocket.sent == old(datagramSocket.sent)
        && datagramSocket.faults == old(datagramSocket.faults)[1..]
      ensures (!old(datagramSocket.closed) && !SendFails(old(datagramSocket.faults))
               && SendFails(Tail(old(datagramSocket.faults)))) ==>
        && r == Fail(Unreachable) && !datagramSocket.closed
        && datagramSocket.sent == old(datagramSocket.sent) + [CommandFrame(END_TELEMETRY)]
        && datagramSocket.faults == Tail(old(datagramSocket.faults))[1..]
      ensures (!old(datagramSocket.closed) && !SendFails(old(datagramSocket.faults))
               && !SendFails(Tail(old(datagramSocket.faults)))) ==>
        && r == Pass && datagramSocket.closed
        && datagramSocket.sent == old(datagramSocket.sent) + [CommandFrame(END_TELEMETRY), CommandFrame(END_CONNECTION)]
        && datagramSocket.faults == Tail(Tail(old(datagramSocket.faults)))
      ensures telemetryStarted == old(telemetryStarted)
    {
      r := StopTelemetry();
      if r.Fail? {
        return;
      }
      r := StopConnection();
      if r.Fail? {
        return;
      }
      datagramSocket.Close();
    }
  }

  /** Once telemetry has started, stopping it leaves the flag set, so a
      second `startTelemetry` sends nothing, and `close` repeats
      END_TELEMETRY before END_CONNECTION. */
  method RestartAfterStop(session: DroneClientServer)
    requires session.Valid() && session.telemetryStarted && !session.datagramSocket.closed
    requires session.datagramSocket.faults == []
    modifies session, session.datagramSocket
    ensures session.telemetryStarted && session.datagramSocket.closed
    ensures session.datagramSocket.sent == old(session.datagramSocket.sent)
      + [CommandFrame(END_TELEMETRY), CommandFrame(END_TELEMETRY), CommandFrame(END_CONNECTION)]
  {
    var socket := session.datagramSocket;
    var r := session.StopTelemetry();
    assert socket.sent == old(socket.sent) + [CommandFrame(END_TELEMETRY)];
    r := session.StartTelemetry();
    r := session.Close();
  }
}
