/** Java's fixed-width integers, the casts the protocol code applies to them,
    and the error kinds (Java exceptions) the modelled operations can raise. */
module JavaTypes {

  /** A Java `byte`, held as its unsigned value `b & 0xFF`. Every place the
      protocol reads a byte it masks it first (`bytes[i] & 0xFF`,
      `bytes[i] << 8 & 0xFF00`), so the unsigned view is the one that matters. */
  type uint8 = x: int | 0 <= x < 0x100

  /** A Java `short`. */
  type int16 = x: int | -0x8000 <= x < 0x8000

  /** A Java `int`. */
  type int32 = x: int | -0x8000_0000 <= x < 0x8000_0000

  /** Java's narrowing cast `(short) x`: keep the low 16 bits and read them
      as a two's-complement number. */
  function ToShort(x: int): (s: int16)
    ensures (s - x) % 0x1_0000 == 0
    ensures 0 <= x < 0x8000 ==> s == x
  {
    (x + 0x8000) % 0x1_0000 - 0x8000
  }

  /** The bit pattern of a short read as an unsigned number. */
  function Unsigned16(s: int16): (u: int)
    ensures 0 <= u < 0x1_0000
    ensures (u - s) % 0x1_0000 == 0
  {
    if s < 0 then s + 0x1_0000 else s
  }

  /** The bit pattern of an int read as an unsigned number. */
  function Unsigned32(x: int32): (u: int)
    ensures 0 <= u < 0x1_0000_0000
    ensures (u - x) % 0x1_0000_0000 == 0
  {
    if x < 0 then x + 0x1_0000_0000 else x
  }

  /** The first byte a big-endian `ShortBuffer.put` writes. */
  function HighByte(s: int16): uint8
  {
    Unsigned16(s) / 0x100
  }

  /** The second byte a big-endian `ShortBuffer.put` writes. */
  function LowByte(s: int16): uint8
  {
    Unsigned16(s) % 0x100
  }

  /** The decoder's `(short) (hi << 8 & 0xFF00 | lo & 0xFF)`: the two masked
      bytes occupy disjoint bits, so the `|` is an addition. */
  function ShortOf(hi: uint8, lo: uint8): (s: int16)
    ensures Unsigned16(s) == hi * 0x100 + lo
  {
    ToShort(hi * 0x100 + lo)
  }

  /** Writing a short as two big-endian bytes and reading it back loses nothing. */
  lemma {:induction false} ShortBytesRoundTrip(s: int16)
    ensures ShortOf(HighByte(s), LowByte(s)) == s
  {
    var u := Unsigned16(s);
    assert HighByte(s) * 0x100 + LowByte(s) == u;
  }

  /** Reading two bytes as a short and writing it back gives the same bytes. */
  lemma {:induction false} ShortOfBytes(hi: uint8, lo: uint8)
    ensures HighByte(ShortOf(hi, lo)) == hi && LowByte(ShortOf(hi, lo)) == lo
  {
  }

  /** The exceptions the modelled code can raise, by the Java class that carries them. */
  datatype Error =
    | NegativeCapacity     // IllegalArgumentException from ByteBuffer.allocate
    | BufferOverflow       // BufferOverflowException from ShortBuffer.put
    | IndexOutOfBounds     // ArrayIndexOutOfBoundsException
    | SocketClosed         // SocketException from a closed DatagramSocket
    | Timeout              // SocketTimeoutException once the socket's timeout expires
    | Unreachable          // an IOException from send, such as PortUnreachableException
    | ConnectionRejected   // the RuntimeException thrown when the handshake reply is not 301
    | MalformedPacket      // the size-honouring decoder's refusal of an inconsistent frame

  datatype Result<T> = Ok(value: T) | Err(error: Error)

  /** The outcome of a `void` Java method: it returns, or it throws. */
  datatype Outcome = Pass | Fail(error: Error)
}
