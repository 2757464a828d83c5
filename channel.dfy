/** The datagram socket the protocol code talks through, reduced to what the
    code observes: the frames it has sent, the datagrams that will arrive, in
    order, and whether it has been closed. Addresses, ports and the real
    network are not part of this model. */
module Channel {
  import opened JavaTypes

  /** What `receive(packet)` leaves in the packet's buffer: the datagram's
      bytes at the front, truncated to the buffer, and whatever the buffer
      held before behind a shorter datagram. */
  function Overlay(buf: seq<uint8>, datagram: seq<uint8>): (r: seq<uint8>)
    ensures |r| == |buf|
    ensures forall i :: 0 <= i < |r| ==> r[i] == if i < |datagram| then datagram[i] else buf[i]
  {
    if |datagram| >= |buf| then datagram[..|buf|] else datagram + buf[|datagram|..]
  }

  /** A datagram at least as long as the buffer fills it; an empty one leaves it as it was. */
  lemma {:induction false} OverlayExtremes(buf: seq<uint8>, datagram: seq<uint8>)
    ensures |datagram| >= |buf| ==> Overlay(buf, datagram) == datagram[..|buf|]
    ensures datagram == [] ==> Overlay(buf, datagram) == buf
  {
  }

  /** The queue after one element has been taken, if there was one. */
  function Tail<T>(q: seq<T>): (r: seq<T>)
    ensures q == [] ==> r == []
    ensures q != [] ==> [q[0]] + r == q
  {
    if q == [] then [] else q[1..]
  }

  /** Whether the next `send` on an open socket throws, by the script `faults`. */
  predicate SendFails(faults: seq<bool>)
  {
    faults != [] && faults[0]
  }

  class DatagramSocket {
    /** Every frame handed to `send`, oldest first. */
    var sent: seq<seq<uint8>>
    /** The datagrams the peer will deliver, in the order `receive` will see them. */
    var pending: seq<seq<uint8>>
    var closed: bool
    /** The fate of the sends on the open socket, in order: `true` for one
        that throws an I/O error; sends beyond the script go through. */
    var faults: seq<bool>

    constructor (replies: seq<seq<uint8>>, sendFaults: seq<bool>)
      ensures sent == [] && pending == replies && !closed && faults == sendFaults
    {
      sent, pending, closed, faults := [], replies, false, sendFaults;
    }

    /** `send(packet)`: log the frame; throw if the socket is closed, or
        when the script says this send fails, and then log nothing. */
    method Send(frame: seq<uint8>) returns (r: Outcome)
      modifies this
      ensures SentFrame(this, frame, r)
    {
      if closed {
        return Fail(SocketClosed);
      }
      var fails := SendFails(faults);
      faults := Tail(faults);
      if fails {
        return Fail(Unreachable);
      }
      sent := sent + [frame];
      return Pass;
    }

    /** `receive(packet)` into a buffer holding `buf`: consume the next
        datagram and overlay it on the buffer; with nothing to deliver the
        socket's timeout expires. */
    method Receive(buf: seq<uint8>) returns (r: Result<seq<uint8>>)
      modifies this
      ensures ReceivedInto(this, buf, r)
    {
      if closed {
        return Err(SocketClosed);
      }
      if pending == [] {
        return Err(Timeout);
      }
      r := Ok(Overlay(buf, pending[0]));
      pending := pending[1..];
    }

    /** `close()`: later sends and receives throw; closing twice does nothing more. */
    method Close()
      modifies this
      ensures closed && sent == old(sent) && pending == old(pending) && faults == old(faults)
    {
      closed := true;
    }
  }

  /** The effect of one `send` of `frame` with outcome `r`. */
  twostate predicate SentFrame(s: DatagramSocket, frame: seq<uint8>, r: Outcome)
    reads s
  {
    && s.pending == old(s.pending) && s.closed == old(s.closed)
    && if old(s.closed) then r == Fail(SocketClosed) && s.sent == old(s.sent) && s.faults == old(s.faults)
       else if SendFails(old(s.faults)) then r == Fail(Unreachable) && s.sent == old(s.sent) && s.faults == old(s.faults)[1..]
       else r == Pass && s.sent == old(s.sent) + [frame] && s.faults == Tail(old(s.faults))
  }

  /** The effect of one `receive` into a buffer holding `buf`, with result `r`. */
  twostate predicate ReceivedInto(s: DatagramSocket, buf: seq<uint8>, new r: Result<seq<uint8>>)
    reads s
  {
    && s.sent == old(s.sent) && s.closed == old(s.closed) && s.faults == old(s.faults)
    && if old(s.closed) then r == Err(SocketClosed) && s.pending == old(s.pending)
       else if old(s.pending) == [] then r == Err(Timeout) && s.pending == []
       else r == Ok(Overlay(buf, old(s.pending)[0])) && s.pending == old(s.pending)[1..]
  }
}
