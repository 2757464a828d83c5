# DroneClient protocol core, modelled in Dafny

This project models the client side of a small UDP protocol for commanding
a MultiWii flight controller. It covers `src/DroneClientServer.java` and
the older `src/DroneClient.java`:

- **Codec** (`codec.dfy`): the frame encoder `generateDatagramPacket` and the
  decoder `DroneSegment(byte[])`. A frame is a big-endian 16-bit `code`, a
  big-endian 16-bit `size` and the payload as big-endian 16-bit signed
  elements. The encoder writes into a zeroed `ByteBuffer` of `4 + size`
  bytes. It fails when the payload does not fit in `size`; when the payload
  is shorter than `size`, the rest stays zero padding. The decoder ignores
  the declared size and reads `(length - 4) / 2` elements. A second,
  size-honouring decoder `DecodeExact` is proved to agree with it exactly
  when the buffer is as long as its header says.
- **Telemetry** (`telemetry.dfy`): the fixed-index views `RawImu`,
  `Altitude`, `Attitude`, `Rc`, `Motor` and `Servo`, each with its minimum
  payload length. It also states what the receiver's 40-byte buffer decodes
  to: always 18 elements.
- **Channel** (`channel.dfy`): the datagram socket, reduced to a log of sent
  frames, a scripted queue of replies, a script of which sends throw an I/O
  error, and a closed flag. `receive` copies the reply over the packet's
  existing buffer (`Overlay`).
- **Session** (`session.dfy`): class `DroneClientServer` with its
  `telemetryStarted` flag. The rules modelled are these:
  - the connection is accepted only on reply 301;
  - telemetry starts only on reply 121, and at most once;
  - `stopTelemetry` never clears the flag;
  - `close` sends 122 and then 302, and stops at the first exception, which
    leaves the socket open.
- **Legacy** (`legacy.dfy`): class `DroneClient`.
  - `createPackage` packs three big-endian 32-bit ints.
  - `getInt` and `getCode` read an unsigned 16-bit big-endian value, so
    `getCode` on a package returns the upper half of its 32-bit code.
  - `startConnection` has a `connectionStarted` guard and a receive loop.
    As written, the loop keeps receiving after the flag is set (see
    "## Findings").
- **JavaTypes** (`java_types.dfy`): `byte`, `short` and `int` as bounded
  integers. It also holds Java's `(short)` cast and the exceptions as an
  `Error` datatype.

Java bytes are held as their unsigned value (`b & 0xFF`). The decoder masks
every byte before it combines two of them, so this view gives the same
results. Exceptions are `Result`/`Outcome` values. No operation has a
precondition that the Java code does not have.

Where the protocol's intended behaviour and the code disagree, the model follows the code:
- the decoder ignores the declared size; a decoder that honours it is `Codec.DecodeExact`;
- the encoder takes `size` from the caller rather than computing it from the payload;
- there are no connection phases: arm, disarm and set-RC are sent whatever has happened before;
- a `startTelemetry` reply other than 121 is not an error;
- `stopTelemetry` leaves `telemetryStarted` set;
- `close` is not best-effort: the first exception ends it.

## Model

| member | source | states |
|---|---|---|
| JavaTypes.ToShort | src/DroneClientServer.java:166-170 | the `(short)` cast keeps the value modulo 2^16, and is the identity on 0..32767 |
| JavaTypes.ShortOf | src/DroneClientServer.java:166-170 | two masked bytes combine to a short whose unsigned bit pattern is `hi * 256 + lo` |
| JavaTypes.ShortBytesRoundTrip | src/DroneClientServer.java:140-142 | a short written as two big-endian bytes reads back as the same short |
| JavaTypes.ShortOfBytes | src/DroneClientServer.java:166-170 | two bytes read as a short and written back give the same two bytes |
| Codec.Shorts | src/DroneClientServer.java:142 | the payload puts occupy exactly two bytes per element |
| Codec.Encode | src/DroneClientServer.java:137-145 | encoding succeeds exactly when `2 * payload.length <= size`, and the buffer then has exactly `4 + size` bytes. Otherwise it fails with `NegativeCapacity` when `4 + size < 0`, and with `BufferOverflow` when the payload does not fit |
| Codec.EncodeLayout | src/DroneClientServer.java:137-145 | code in bytes 0-1 and size in bytes 2-3, big-endian; payload element k in bytes 4+2k and 5+2k; zero padding after the payload |
| Codec.LayoutDeterminesEncode | src/DroneClientServer.java:137-145 | conversely, a buffer of `4 + size` bytes with that layout is the encoding, so the layout pins the encoder's output down |
| Codec.GenerateDatagramPacket | src/DroneClientServer.java:137-145 | the allocate-then-put loop produces exactly `Encode`, with the same error on a negative capacity or an overflow |
| Codec.StagedStep | src/DroneClientServer.java:142 | putting element i at bytes 4+2i and 5+2i of the buffer holding the first i elements gives the buffer holding the first i+1; with every element put, the buffer is the encoding |
| Codec.PutShorts | src/DroneClientServer.java:142 | the bulk put of the payload, on a buffer holding only the header and zeros, leaves code, size, the whole payload and zero padding |
| Codec.CommandFrame | src/DroneClientServer.java:133-135 | a command without data is the encoding of `code, 2, [0]` |
| Codec.GenerateCommandPacket | src/DroneClientServer.java:133-135 | the one-argument overload yields six bytes: the code big-endian, then `00 02 00 00` |
| Codec.SetRcFrame | src/DroneClientServer.java:59-61 | the set-RC frame is the encoding of code 200, size 8 and the four axes: 12 bytes, `00 C8 00 08`, then roll, pitch, yaw and throttle, each big-endian |
| Codec.SetRcFrameLayout | src/DroneClientServer.java:59-61 | the encoding of code 200, size 8 and four axes is 12 bytes: `00 C8 00 08`, then each axis big-endian |
| Codec.ShortsFrom | src/DroneClientServer.java:168-171 | an even body yields half as many elements as it has bytes |
| Codec.ShortsFromAt | src/DroneClientServer.java:168-171 | element k is the short combined from body bytes 2k and 2k+1 |
| Codec.ShortsFromShorts | src/DroneClientServer.java:142-171 | reading back the bytes the payload puts wrote gives the payload |
| Codec.Decode | src/DroneClientServer.java:165-172 | decoding succeeds exactly when the buffer has at least 4 bytes and an even body. The payload then has `(length - 4) / 2` elements, whatever size is declared. Otherwise the decoder indexes out of range |
| Codec.DecodeSegment | src/DroneClientServer.java:165-172 | the header reads and the index loop produce exactly `Decode`, including the out-of-range failure on an odd body |
| Codec.DecodeEncode | src/DroneClientServer.java:137-172 | decoding an encoding returns its code and size. The payload comes back followed by one zero element per two padding bytes. An odd size cannot be decoded |
| Codec.PaddedBodyReads | src/DroneClientServer.java:140-171 | a payload's bytes followed by zero pairs read back as the payload followed by as many zero elements |
| Codec.RoundTrip | src/DroneClientServer.java:137-172 | when `2 * payload.length == size`, decoding the encoding gives back the same code, size and payload |
| Codec.CommandFrameDecodes | src/DroneClientServer.java:133-172 | a command frame decodes to its code, size 2 and the payload `[0]` |
| Codec.DecodeExact | src/DroneClientServer.java:165-172 | the size-honouring decoder succeeds exactly when the declared size is non-negative, even and within the buffer; the payload then has `size / 2` elements |
| Codec.DecodersAgree | src/DroneClientServer.java:165-172 | on a buffer the source's decoder accepts, the two decoders agree if and only if the buffer length is `4 + size` |
| Codec.DecodeExactEncode | src/DroneClientServer.java:137-172 | the size-honouring decoder inverts the encoder |
| Codec.DecodeExactIgnoresTrailing | src/DroneClientServer.java:165-172 | bytes after the declared frame do not change what the size-honouring decoder reads |
| Telemetry.RawImuOf | src/DroneClientServer.java:192-202 | succeeds exactly when the payload has at least 9 elements; accelerometer, gyroscope and magnetometer x-y-z are elements 0-8 in order |
| Telemetry.AltitudeOf | src/DroneClientServer.java:209-212 | succeeds exactly when the payload has at least 2 elements; `estalt` and `vario` are elements 0 and 1 |
| Telemetry.AttitudeOf | src/DroneClientServer.java:220-224 | succeeds exactly when the payload has at least 3 elements; `angx`, `angy` and `heading` are elements 0-2 |
| Telemetry.RcOf | src/DroneClientServer.java:233-238 | succeeds exactly when the payload has at least 4 elements; roll, pitch, yaw and throttle are elements 0-3 |
| Telemetry.MotorOf | src/DroneClientServer.java:247-252 | succeeds exactly when the payload has at least 4 elements; `m1`-`m4` are elements 0-3 |
| Telemetry.ServoOf | src/DroneClientServer.java:261-266 | succeeds exactly when the payload has at least 4 elements; `s1`-`s4` are elements 0-3 |
| Telemetry.ProjectionsInvert | src/DroneClientServer.java:180-267 | each view built from the list of its own fields gives back the same view |
| Telemetry.ProjectionsIgnoreTail | src/DroneClientServer.java:180-267 | elements beyond a view's last index do not change it |
| Telemetry.TelemetrySegment | src/DroneClientServer.java:111-115 | a datagram received into the fresh 40-byte buffer always decodes, to 18 payload elements |
| Telemetry.TelemetryDecodes18 | src/DroneClientServer.java:111-115 | any datagram received into the fresh 40-byte buffer decodes to 18 elements, so every view can be built from it |
| Telemetry.TelemetryFramePadded | src/DroneClientServer.java:111-115 | a well-formed frame in the 40-byte buffer decodes to its payload followed by zeros up to 18 elements. The size-honouring decoder returns the payload alone |
| Telemetry.FrameInTelemetryBuffer | src/DroneClientServer.java:111-113 | a frame of at most 40 bytes received into the fresh buffer lands at its front with zeros behind it |
| Telemetry.ZeroPaddedFrameDecodes | src/DroneClientServer.java:137-172 | a frame followed by m zero pairs decodes to its header and its payload followed by m zero elements |
| Telemetry.PaddedFrameDecodesExactly | src/DroneClientServer.java:137-172 | the size-honouring decoder reads a frame followed by zeros as the frame alone |
| Telemetry.SetRcFrameReadsAsRc | src/DroneClientServer.java:59-61 | decoding the set-RC frame and viewing it as `Rc` gives back the four axes that were sent |
| Telemetry.RcEchoFrameBytes | src/DroneClientServer.java:137-145 | code 105, size 8 and four axes of 1500 encode as `00 69 00 08 05 DC 05 DC 05 DC 05 DC` |
| Channel.Overlay | src/DroneClientServer.java:74-78 | `receive` into an existing packet puts the datagram's bytes first, truncated to the buffer; a shorter datagram leaves the rest of the buffer unchanged |
| Channel.OverlayExtremes | src/DroneClientServer.java:74-78 | a datagram at least as long as the buffer replaces it; an empty datagram leaves it unchanged |
| Channel.DatagramSocket.Send | src/DroneClientServer.java:51 | `send` appends the frame to the log. It throws and logs nothing on a closed socket, or when the fault script says this send fails; that send uses up one script entry |
| Channel.DatagramSocket.Receive | src/DroneClientServer.java:64 | `receive` consumes the next scripted reply into the buffer; it times out when no reply is left and throws on a closed socket |
| Channel.DatagramSocket.Close | src/DroneClientServer.java:46 | closing marks the socket closed and changes neither log nor queue |
| Session.ReplyCode | src/DroneClientServer.java:75-78 | the code read after a reply: the reply's own code when it has two bytes. A shorter reply leaves bytes of the request in the buffer, and they are read instead |
| Session.EmptyReplyEchoesRequest | src/DroneClientServer.java:75-78 | after an empty reply the code read back is the request's own code, so 300 and 120 are never read as an acceptance |
| Session.FrameReplyCode | src/DroneClientServer.java:75-78 | a reply that is itself a command frame is read back as that frame's code |
| Session.DroneClientServer.constructor | src/DroneClientServer.java:19-28 | a new session has `telemetryStarted` false over the given socket |
| Session.DroneClientServer.SendArm | src/DroneClientServer.java:49-52 | sends the 220 command frame and nothing else |
| Session.DroneClientServer.SendDisarm | src/DroneClientServer.java:54-57 | sends the 221 command frame and nothing else |
| Session.DroneClientServer.SendSetRc | src/DroneClientServer.java:59-66 | sends the set-RC frame, then consumes one reply without looking at it; times out when none arrives |
| Session.DroneClientServer.StartConnection | src/DroneClientServer.java:70-82 | sends 300, then consumes one reply. It succeeds only if the code read back is 301, and fails with the rejection otherwise |
| Session.DroneClientServer.StartTelemetry | src/DroneClientServer.java:86-98 | while the flag is set, sends nothing. Otherwise it sends 120, consumes one reply and sets the flag only if the code read is 121. The telemetry thread is started at most once |
| Session.DroneClientServer.StopTelemetry | src/DroneClientServer.java:102-105 | sends 122 and leaves `telemetryStarted` as it was |
| Session.DroneClientServer.StopConnection | src/DroneClientServer.java:124-127 | sends the 302 command frame |
| Session.DroneClientServer.Close | src/DroneClientServer.java:42-47 | on an open socket whose two sends go through, logs 122 and then 302 and closes the socket. If the 122 send fails, nothing is logged; if the 302 send fails, only 122 is logged. Either way the socket stays open. On a closed socket it throws and changes nothing |
| Session.RestartAfterStop | src/DroneClientServer.java:42-105 | with every send going through: after `stopTelemetry` the flag is still set, so a following `startTelemetry` sends nothing; `close` then sends 122 and 302: the log grows by 122, 122, 302 and the flag stays set |
| Legacy.IntBytesValue | src/DroneClient.java:65-67 | the four bytes written for an int, read most significant first, are its 32-bit pattern |
| Legacy.PackIntsAt | src/DroneClient.java:63-67 | int k of the package occupies bytes 4k to 4k+3 |
| Legacy.GetInt | src/DroneClient.java:77-79 | succeeds exactly when `0 <= off` and `off + 1 < length`; the value lies in 0..65535, with high byte `arr[off]` and low byte `arr[off+1]` |
| Legacy.GetCode | src/DroneClient.java:81-83 | is `getInt` at offset 0: the unsigned bit pattern of the short the frame decoder reads from the same two bytes |
| Legacy.PackageCodeReadsHighHalf | src/DroneClient.java:61-83 | `getCode` on a package returns the upper 16 bits of the 32-bit code |
| Legacy.PackageCodeLowHalf | src/DroneClient.java:61-79 | the lower 16 bits of the code sit at offset 2 |
| Legacy.PackageCodeRoundTripsOnlyZero | src/DroneClient.java:39-83 | `getCode` gives back a package's code only when the code is 0; the start package `(300, 1, 0)` reads back as 0 |
| Legacy.AwaitAccept | src/DroneClient.java:44-53 | the receive loop as evidently intended, stopping once the flag is set. It ends either with the flag set and the buffer reading code 300, or with every reply consumed. The replies left over are a suffix of the queue |
| Legacy.AwaitAcceptStarts | src/DroneClient.java:44-53 | in the intended loop, when every reply carries a code and reply i is the first one with code 300, the flag is set and the loop stops right after reply i |
| Legacy.AwaitAcceptNever | src/DroneClient.java:44-53 | when no reply carries code 300, the flag stays clear |
| Legacy.AwaitAcceptAsWritten | src/DroneClient.java:44-53 | the loop under its condition as written: every reply is consumed, and a flag once set stays set |
| Legacy.AsWrittenStartsLikeIntended | src/DroneClient.java:44-53 | the loop as written sets the flag exactly when the intended loop does |
| Legacy.AsWrittenKeepsReceiving | src/DroneClient.java:44-53 | on the replies `01 2C` then `09 09`, the intended loop stops with `09 09` still queued, while the loop as written consumes it as well |
| Legacy.DroneClient.constructor | src/DroneClient.java:16-19 | a new client has `connectionStarted` false |
| Legacy.DroneClient.CreatePackage | src/DroneClient.java:61-75 | `commandBuf` becomes the 12-byte package with code, size and data big-endian at offsets 0, 4 and 8. The returned packet wraps that whole buffer for port 4445. Nothing else changes |
| Legacy.DroneClient.StartConnection | src/DroneClient.java:33-55 | does nothing once the flag is set. Otherwise it builds the start package and runs the intended receive loop, so the flag only goes from false to true, on a reply whose code is 300 |

## Left out

- The telemetry receive thread, its per-packet callback threads, `setOnTelemetryCallback` and the `telemetryThread.stop()` at the start of `close` are concurrency. The thread's start is recorded only as a ghost counter. Because of that, the model does not capture the race in which the thread consumes a reply that a synchronous call is waiting for. What one receive yields is stated by `Telemetry.TelemetryDecodes18` and `Telemetry.TelemetryFramePadded`.
- Socket construction, `setSoTimeout(1000)` and `connect` in `start()` are I/O. The session starts from a connected socket. An empty reply queue stands for the timeout, and `start()` adds nothing beyond `StartConnection`.
- Addresses and ports of `DroneClientServer` packets are not modelled: its socket is connected.
- `DroneSegment.toBytes` is an unfinished stub that returns a zero-filled array. It is not a serialiser, so it is not modelled.
- Packet buffers are values. `receive` overwriting the request's own array in place is modelled by `Channel.Overlay`, which gives the new contents; the aliasing itself is not modelled.
- `DroneClient`'s `void DroneClient(...)` method does only DNS and socket setup. Its empty `setRc` does nothing.
- `src/ExecuteClient.java` is an entry point with sleeps. It calls methods that the shown `DroneClient` does not have.
- Legacy.DroneClient.StartConnection: follows the intended loop, which stops once the flag is set. As written, the elapsed-time term `System.nanoTime() - startTime > 5` is true after any blocking `receive`, so the loop never ends normally: it consumes every reply and then blocks for ever. That loop is `Legacy.AwaitAcceptAsWritten`, and "## Findings" records the difference. An empty reply queue stands for a `receive` that blocks for ever, since the socket has no timeout.
- `DroneClient` has only Java's default constructor: `void DroneClient(...)` is an ordinary method. Until it runs, `commandSock` is null and `startConnection` throws `NullPointerException` at its first `receive`. The model assumes that method has run, and its reply queue stands for the socket it opens.
- Channel.DatagramSocket.Receive: I/O errors other than the timeout, such as `PortUnreachableException`, are not scripted. Every caller passes any receive exception on unchanged, as it does the timeout, so such an error would end each operation at the same point as `Timeout`.
- The start package that `DroneClient.startConnection` builds is never sent, so the legacy model has no sent log.
- A `null` byte array passed to the decoder is not modelled: Dafny sequences are never null.

## Findings

| source | as written | input that shows it | evidently intended | confidence | as-written member | corrected member |
|---|---|---|---|---|---|---|
| src/DroneClient.java:44 | the loop runs while `!connectionStarted \|\| System.nanoTime() - startTime > 5`; after any blocking receive the time term is true, so the loop keeps receiving after the flag is set | replies `01 2C` (code 300) then `09 09`: the loop consumes `09 09` too, then blocks for ever in the next `receive` | loop while `!connectionStarted` and within a time limit, stopping at the accepting reply | high, not executed | Legacy.AsWrittenKeepsReceiving | Legacy.AwaitAcceptStarts |
