# XBee API frame codec (gobee) in Dafny

This project models the frame codec of `gobee`, a Go library for XBee radio
modules in API mode. It covers three things. The first is the byte helpers:
the 8-bit checksum, big-endian 16-bit lengths, and byte packing. The second
is the `Frame` sum type with its encoders (`FrameData`) and decoders
(`Build*Frame`, `BuildFrame`). The third is the frame buffer: `WriteFrame`
wraps frame data in a wire unit, and `ReadFrame` finds the next unit that
carries a valid checksum in a byte stream.

A wire unit is laid out as follows:

    0x7E | length (2 bytes, big-endian) | frame data (length bytes) | checksum

The checksum is `0xFF` minus the 8-bit wrapping sum of the frame data.

Modules:

- `Wrappers` (`wrappers.dfy`) defines `Option`.
- `Bytes` (`bytes.dfy`) holds `Byte` (an `int` in `0..255`). It also holds the
  checksum, in two forms: `WrappingSum`, which wraps at 256 as Go's `byte` does,
  and `Sum`, an unbounded reference sum. The module also has the 16-bit length
  conversions and `PackBytes`. `PackBytes` takes a closed `Part` type (one
  byte or a byte sequence) where Go takes variadic `interface{}`.
- `Frames` (`frame.dfy`) holds the frame constants, `BroadcastAddress`,
  `Frame` (`Generic`, `Tx64`, `TxStatus`, `Rx64`), the encoders and the
  decoders. Go's decoders can return nil or panic. `BuildFrame` therefore
  returns a `Decoded`, which is one of three cases:
  - `Built(frame)`;
  - `NoFrame`, Go's nil for empty frame data;
  - `OutOfRange`, Go's index-out-of-range panic on frame data too short for
    its type.
- `FrameStream` (`buffer.dfy`) holds the buffer. `WriteFrame` returns the bytes
  it would write. `ReadFrame` works on a finite byte sequence. It returns the
  decoded frame and the bytes left after the unit it consumed, or `None` when
  the input ends before it finds a unit with a valid checksum. In Go, the reader
  blocks forever in that case. The chunked transport is a sequence of chunks,
  each the result of one `Read` call. Over it, `ReadBytes` does Go's `readBytes`
  retry-until-full accumulation, and `ReadFrameFromTransport` is shown to agree
  with `ReadFrame` on the flattened stream.

Where the documented behaviour and the Go code differ, the model
follows the code:

- A checksum-valid unit whose frame data is too short for its type reaches the
  decoder and panics. It is not discarded (see Findings).
- Empty frame data decodes to nil (`NoFrame`) and is returned as a frame.
- Lengths above 65535 are truncated modulo 65536 by `Uint16ToBytes`, not
  rejected.

## Model

| member | source | states |
|---|---|---|
| Bytes.WrappingSum | bytes.go:10-13 | the wrapping 8-bit loop sum equals the unbounded sum of the data modulo 256 |
| Bytes.ChecksumComplement | bytes.go:9-15 | the checksum is 0xFF minus the data sum modulo 256; the data sum plus the checksum is 0xFF modulo 256; no other byte completes the sum to 0xFF |
| Bytes.ChecksumOfNothing | bytes.go:9-15 | empty data has checksum 0xFF, since the loop adds nothing |
| Bytes.Checksum | bytes.go:9-15 | the data sum plus the checksum is 0xFF modulo 256 |
| Bytes.VerifyChecksum | bytes.go:21-23 | verification holds exactly when the received byte completes the data sum to 0xFF modulo 256 |
| Bytes.VerifyChecksumAccepts | bytes.go:21-23 | verification accepts the computed checksum and rejects every other byte |
| Bytes.Uint16ToBytes | bytes.go:27-31 | yields exactly two bytes, whose big-endian value is `n` truncated to 16 bits |
| Bytes.BytesToUint16 | bytes.go:35-40 | the result is below 65536; it is the big-endian value of the first two bytes, or 0 when fewer than two bytes are given (the read fails and `n` stays 0) |
| Bytes.Uint16RoundTrip | bytes.go:27-40 | decoding the encoding of `n` gives `n` modulo 65536, and gives `n` itself for every 16-bit value |
| Bytes.BytesRoundTrip | bytes.go:27-40 | encoding the decoded value of any two bytes gives those two bytes back |
| Bytes.PackBytes | bytes.go:45-56 | the packet length is the sum of the part lengths |
| Bytes.Offset | bytes.go:45-56 | the offset of part `i` plus its length is the total length of the first `i+1` parts, and never exceeds the packet length |
| Bytes.PackBytesParts | bytes.go:45-56 | each part appears in the packet at its offset, in argument order, with nothing between parts |
| Bytes.PackBytesAppend | bytes.go:45-56 | packing a concatenation of part lists is the concatenation of the packets |
| Bytes.PackBytesNested | bytes.go:45-56 | packing is associative: a packed sub-list passed as one byte-sequence part gives the same packet as its parts inline |
| Bytes.PackBytesCons | bytes.go:45-56 | packing one part ahead of a list puts that part's bytes ahead of the list's packet |
| Frames.GenericFrameData | frame.go:43-45 | generic frame data is the type byte followed by the raw data |
| Frames.Tx64FrameData | frame.go:69-77 | TX64 frame data is 0x00, id, destination, options, data, in that order |
| Frames.TxStatusFrameData | frame.go:98-100 | TX status frame data is exactly 0x89, id, status |
| Frames.Rx64FrameData | frame.go:124-132 | RX64 frame data is 0x80, source, rssi, options, data, in that order |
| Frames.FrameData | frame.go:25-27 | the frame data of any frame starts with its type byte; a TX status frame encodes to 3 bytes; a TX64 or RX64 frame with 8-byte addresses encodes to 11 bytes plus its payload |
| Frames.BuildGenericFrame | frame.go:36-41 | succeeds exactly on non-empty data, giving a generic frame that re-encodes to the same data |
| Frames.BuildTx64Frame | frame.go:60-67 | succeeds exactly on data of at least 11 bytes; the TX64 frame it builds has an 8-byte destination and re-encodes to 0x00 followed by the input from offset 1 |
| Frames.BuildTxStatusFrame | frame.go:91-96 | succeeds exactly on data of at least 3 bytes; the frame re-encodes to 0x89 followed by input bytes 1 and 2, so later bytes are dropped |
| Frames.BuildRx64Frame | frame.go:115-122 | succeeds exactly on data of at least 11 bytes; the RX64 frame it builds has an 8-byte source and re-encodes to 0x80 followed by the input from offset 1 |
| Frames.BuildFrame | frame.go:144-160 | empty data gives nil, and only empty data does; data shorter than its type needs (11 for 0x00 and 0x80, 3 for 0x89) panics, and only such data does; a built frame has the first byte as its type, a known type never gives a generic frame and an unknown type always does, and it re-encodes to the input (the first 3 bytes for TX status) |
| Frames.EncodeDecode | frame.go:36-160 | decoding the frame data of `f` gives `f` back exactly when `f` has 8-byte addresses and a generic frame does not claim a known type |
| Frames.UnknownTypeKept | frame.go:156-157 | data whose type is not 0x00, 0x89 or 0x80 decodes to a generic frame that keeps the type and every remaining byte |
| Frames.BroadcastAddressLayout | frame.go:22 | the broadcast address is 8 bytes: six zeros, then 0xFF 0xFF |
| FrameStream.Envelope | buffer.go:23-28 | the packed unit is delimiter, 16-bit length, frame data, checksum, and is 4 bytes longer than the frame data |
| FrameStream.WriteFrame | buffer.go:22-30 | the written bytes start with 0x7E; bytes 1-2 hold the frame data length modulo 65536; the frame data follows unchanged; the final byte completes the data sum to 0xFF modulo 256 |
| FrameStream.ParseUnit | buffer.go:61-64 | a unit can be read exactly when the input after the delimiter holds the 2 length bytes, the announced data and a checksum byte; the bytes read form that unit followed by the rest |
| FrameStream.ParseUnitOfUnit | buffer.go:61-64 | reading after the delimiter of a unit gives back the unit's frame data, checksum byte and the following bytes |
| FrameStream.ReadFrame | buffer.go:58-70 | the bytes left are what remains of the input after some bytes are dropped from its front, and at least 4 bytes are dropped; input without a delimiter gives no frame; a built frame has well-formed addresses |
| FrameStream.ReadFrameSkipsNoise | buffer.go:59-60 | bytes other than 0x7E before a unit are skipped and do not change what is read |
| FrameStream.ReadFrameAcceptsEnvelope | buffer.go:60-66 | a correct unit at the head of the stream is decoded, and reading stops right after its checksum byte |
| FrameStream.ReadFrameDropsCorrupt | buffer.go:64-68 | a unit whose checksum byte is wrong is consumed whole and reading resumes after it |
| FrameStream.Loopback | buffer.go:22-70 | after noise without a delimiter, the bytes `WriteFrame` produces read back as the decoded frame data, which is the frame itself when its addresses are 8 bytes long |
| FrameStream.CorruptThenValid | buffer.go:58-70 | after noise and a corrupted unit, the next correctly written frame is the one returned, and nothing is left |
| FrameStream.CarriesExtend | buffer.go:59-60 | a unit behind skipped bytes is still carried when more skipped bytes are put in front |
| FrameStream.CarriedBehind | buffer.go:59-68 | any stream that carries a unit still carries it, with the same decoding and the same bytes left, behind any prefix |
| FrameStream.CarriesHere | buffer.go:60-66 | a correct unit at the head of the input is carried with nothing skipped |
| FrameStream.ReadFrameSound | buffer.go:58-70 | whatever the reader returns comes from a correctly checksummed unit in the input: the input is skipped bytes, then that unit, then the bytes left, and the result is the decoding of the unit's frame data |
| FrameStream.Read | buffer.go:42 | one read delivers at most `n` bytes from the front of the transport, in order; a short read consumes at least one chunk; an exhausted transport gives nothing unless `n` is 0 |
| FrameStream.ReadBytes | buffer.go:40-51 | reading `n` bytes succeeds exactly when the transport holds `n` more bytes, gives the next `n` bytes in order, and leaves the rest |
| FrameStream.ReadByte | buffer.go:33-35 | reads the next byte of the transport and leaves the bytes after it |
| FrameStream.ReadUnitFromTransport | buffer.go:61-64 | reading length, data and checksum through the transport gives the same unit as parsing the delivered bytes |
| FrameStream.ReadFrameFromTransport | buffer.go:58-70 | reading through the chunked transport gives the same frame, and leaves the same bytes, as the reader on the delivered bytes |
| FrameStream.ShortFrameReachesDecoder | buffer.go:65-66 | the checksum-valid bytes `7E 00 01 00 FF` reach the decoder, which panics |
| FrameStream.ShortUnit | buffer.go:23-28 | `7E 00 01 00 FF` is exactly the unit for the one-byte frame data `00` |
| FrameStream.ReadDecodedFrame | buffer.go:58-70 | the corrected reader returns only frames with well-formed addresses; the bytes left are a suffix of the input at least 4 bytes shorter |
| FrameStream.ReadDecodedFrameDropsMalformed | buffer.go:65-66 | the corrected reader consumes a correct unit whose data does not decode and reads on after it |
| FrameStream.ReadDecodedFrameLoopback | buffer.go:22-70 | through the corrected reader, a frame with well-formed addresses written after noise is read back unchanged |
| FrameStream.ShortFrameSkipped | buffer.go:65-66 | the corrected reader skips `7E 00 01 00 FF` and returns the written frame after it |
| FrameStream.BroadcastHelloLoopback | buffer.go:22-70 | a TX64 frame to the broadcast address carrying "hi" reads back unchanged |

## Left out

- The `io.ReadWriter` is not modelled as such. Writing returns the byte
  sequence. Reading works on a finite byte sequence or a finite sequence of
  chunks.
- `WriteFrame`'s return values (count written, error) are left out because
  they come from the device.
- `FrameStream.ReadFrame` returns `None` where the Go reader blocks forever
  waiting for more bytes.
- `FrameStream.Read`: a read error makes Go `panic(err)`. It is modelled as
  an exhausted transport (`None`). A transport that returns 0 bytes forever
  is not modelled.
- `NewFrameBuffer` and the `FrameBuffer` struct hold only the device handle.
  There is no logic to model.
- The `String` methods are formatting only.
- `mailbox.go` is not part of this model. It has no addressing. `Inbox` starts a
  goroutine that loops `ReadFrame` into an unbuffered channel. `Outbox` starts
  one that drains an unbuffered channel into `WriteFrame`. Concurrency and
  channels are outside this model.
- `WriteFrame` passes `uint(len(...))` to `Uint16ToBytes(n int)` at
  buffer.go:25. Go has no implicit `uint` to `int` conversion, so that line
  does not type-check as written. The model encodes the frame-data length,
  which is what the call evidently means.
- `PackBytes`: Go silently skips parts that are neither `byte` nor `[]byte`.
  The closed `Part` type cannot express such parts, and no caller passes
  them.
- Go slices alias their backing arrays; decoded fields share memory with the
  frame data. Values here are immutable, and a nil slice is not told apart
  from an empty one.
- The unreachable final `return nil` of `BuildFrame` has no counterpart.
- `bytes.Buffer` and `encoding/binary` are modelled only by their effect on
  `Uint16ToBytes` and `BytesToUint16`.

## Findings

| source | as written | input that shows it | evidently intended | confidence | as-written member | corrected member |
|---|---|---|---|---|---|---|
| buffer.go:65-66 with frame.go:60-66 | `ReadFrame` passes any checksum-valid frame data to `BuildFrame`, whose TX64, TX status and RX64 decoders index past the end of short data, so the reading process panics | the stream `7E 00 01 00 FF`: frame data `00` with a correct checksum, decoded as TX64 with one byte | a unit that cannot be decoded is discarded like a corrupted one, and reading resynchronises on the next delimiter | medium, not executed | FrameStream.ShortFrameReachesDecoder | FrameStream.ReadDecodedFrame |
