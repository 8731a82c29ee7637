/**
 * The XBee frame model: the four frame variants, their frame-data encoders
 * and the tag-dispatching decoder.
 */
module Frames {
  import opened Wrappers
  import opened Bytes

  /** Start delimiter of every frame on the wire. */
  const FrameHeader: Byte := 0x7E
  /** Frame type of a TX request to a 64-bit address. */
  const Tx64FrameType: Byte := 0x00
  /** Frame type of a TX status report. */
  const TxStatusFrameType: Byte := 0x89
  /** Frame type of an RX indicator from a 64-bit address. */
  const Rx64FrameType: Byte := 0x80

  /** Length of a 64-bit address. */
  const AddressLength: nat := 8

  /** The 64-bit broadcast address for TX requests. */
  const BroadcastAddress: seq<Byte> := [0x00, 0x00, 0x00, 0x00, 0x00, 0x00, 0xFF, 0xFF]

  /** One XBee frame; `Generic` keeps a frame of any type this codec does not interpret. */
  datatype Frame =
    | Generic(frameType: Byte, rawData: seq<Byte>)
    | Tx64(id: Byte, destination: seq<Byte>, options: Byte, data: seq<Byte>)
    | TxStatus(id: Byte, status: Byte)
    | Rx64(source: seq<Byte>, rssi: Byte, options: Byte, data: seq<Byte>)

  /** Outcome of decoding frame data: a frame, Go's nil for empty data, or Go's index-out-of-range panic. */
  datatype Decoded = Built(frame: Frame) | NoFrame | OutOfRange

  /** Whether the decoder dispatches `t` to a dedicated variant. */
  predicate IsKnownType(t: Byte)
  {
    t == Tx64FrameType || t == TxStatusFrameType || t == Rx64FrameType
  }

  /** The type byte a frame is sent with. */
  function FrameType(f: Frame): Byte
  {
    match f
    case Generic(t, _) => t
    case Tx64(_, _, _, _) => Tx64FrameType
    case TxStatus(_, _) => TxStatusFrameType
    case Rx64(_, _, _, _) => Rx64FrameType
  }

  /** Frames that survive encoding and decoding unchanged. */
  predicate WellFormed(f: Frame)
  {
    match f
    case Generic(t, _) => !IsKnownType(t)
    case Tx64(_, destination, _, _) => |destination| == AddressLength
    case TxStatus(_, _) => true
    case Rx64(source, _, _, _) => |source| == AddressLength
  }

  /** Fewest bytes of frame data the decoder of type `t` reads without going out of range. */
  function MinimumLength(t: Byte): nat
  {
    if t == Tx64FrameType || t == Rx64FrameType then 11
    else if t == TxStatusFrameType then 3
    else 1
  }

  /** Frame data of a generic frame: its type, then its raw bytes. */
  function GenericFrameData(frameType: Byte, rawData: seq<Byte>): (fd: seq<Byte>)
    ensures fd == [frameType] + rawData
  {
    var parts := [One(frameType), Many(rawData)];
    assert parts == [One(frameType)] + [Many(rawData)];
    PackBytesCons(One(frameType), [Many(rawData)]);
    PackBytesCons(Many(rawData), []);
    PackBytes(parts)
  }

  /** Frame data of a TX64 frame: type, id, destination, options, data. */
  function Tx64FrameData(id: Byte, destination: seq<Byte>, options: Byte, data: seq<Byte>): (fd: seq<Byte>)
    ensures fd == [Tx64FrameType, id] + destination + [options] + data
  {
    var parts := [One(Tx64FrameType), One(id), Many(destination), One(options), Many(data)];
    assert parts == [One(Tx64FrameType)] + parts[1..];
    assert parts[1..] == [One(id)] + parts[2..];
    assert parts[2..] == [Many(destination)] + parts[3..];
    assert parts[3..] == [One(options)] + parts[4..];
    assert parts[4..] == [Many(data)] + [];
    PackBytesCons(One(Tx64FrameType), parts[1..]);
    PackBytesCons(One(id), parts[2..]);
    PackBytesCons(Many(destination), parts[3..]);
    PackBytesCons(One(options), parts[4..]);
    PackBytesCons(Many(data), []);
    PackBytes(parts)
  }

  /** Frame data of a TX status frame: type, id, status. */
  function TxStatusFrameData(id: Byte, status: Byte): (fd: seq<Byte>)
    ensures fd == [TxStatusFrameType, id, status]
  {
    var parts := [One(TxStatusFrameType), One(id), One(status)];
    assert parts == [One(TxStatusFrameType)] + parts[1..];
    assert parts[1..] == [One(id)] + parts[2..];
    assert parts[2..] == [One(status)] + [];
    PackBytesCons(One(TxStatusFrameType), parts[1..]);
    PackBytesCons(One(id), parts[2..]);
    PackBytesCons(One(status), []);
    PackBytes(parts)
  }

  /** Frame data of an RX64 frame: type, source, rssi, options, data. */
  function Rx64FrameData(source: seq<Byte>, rssi: Byte, options: Byte, data: seq<Byte>): (fd: seq<Byte>)
    ensures fd == [Rx64FrameType] + source + [rssi, options] + data
  {
    var parts := [One(Rx64FrameType), Many(source), One(rssi), One(options), Many(data)];
    assert parts == [One(Rx64FrameType)] + parts[1..];
    assert parts[1..] == [Many(source)] + parts[2..];
    assert parts[2..] == [One(rssi)] + parts[3..];
    assert parts[3..] == [One(options)] + parts[4..];
    assert parts[4..] == [Many(data)] + [];
    PackBytesCons(One(Rx64FrameType), parts[1..]);
    PackBytesCons(Many(source), parts[2..]);
    PackBytesCons(One(rssi), parts[3..]);
    PackBytesCons(One(options), parts[4..]);
    PackBytesCons(Many(data), []);
    PackBytes(parts)
  }

  /** The frame data of `f`: its type byte followed by its fields in declared order. */
  function FrameData(f: Frame): (fd: seq<Byte>)
    ensures |fd| >= 1 && fd[0] == FrameType(f)
    ensures f.TxStatus? ==> |fd| == 3
    ensures WellFormed(f) && (f.Tx64? || f.Rx64?) ==> |fd| == 11 + |f.data|
  {
    match f
    case Generic(t, raw) => GenericFrameData(t, raw)
    case Tx64(id, destination, options, data) => Tx64FrameData(id, destination, options, data)
    case TxStatus(id, status) => TxStatusFrameData(id, status)
    case Rx64(source, rssi, options, data) => Rx64FrameData(source, rssi, options, data)
  }

  /** How the fixed offsets of TX64 and RX64 frame data cut `fd[1..]` into fields. */
  lemma FixedFieldsLayout(fd: seq<Byte>, t: Byte)
    requires |fd| >= 11
    ensures [t, fd[1]] + fd[2..10] + [fd[10]] + fd[11..] == [t] + fd[1..]
    ensures [t] + fd[1..9] + [fd[9], fd[10]] + fd[11..] == [t] + fd[1..]
  {
    var rest := fd[1..];
    assert rest == [fd[1]] + fd[2..];
    assert fd[2..] == fd[2..10] + fd[10..];
    assert fd[10..] == [fd[10]] + fd[11..];
    assert rest == fd[1..9] + fd[9..];
    assert fd[9..] == [fd[9], fd[10]] + fd[11..];
  }

  /** Decodes any frame data as a generic frame; fails (Go panics) on empty data. */
  function BuildGenericFrame(fd: seq<Byte>): (r: Option<Frame>)
    ensures r.Some? <==> |fd| >= 1
    ensures r.Some? ==> r.value.Generic? && FrameData(r.value) == fd
  {
    if |fd| < 1 then None
    else Some(Generic(fd[0], fd[1..]))
  }

  /**
   * Decodes a TX64 frame from fixed offsets; the type byte is not inspected.
   * Fails (Go panics) on fewer than 11 bytes.
   */
  function BuildTx64Frame(fd: seq<Byte>): (r: Option<Frame>)
    ensures r.Some? <==> |fd| >= 11
    ensures r.Some? ==> r.value.Tx64? && WellFormed(r.value)
    ensures r.Some? ==> FrameData(r.value) == [Tx64FrameType] + fd[1..]
  {
    if |fd| < 11 then None
    else
      FixedFieldsLayout(fd, Tx64FrameType);
      Some(Tx64(fd[1], fd[2..10], fd[10], fd[11..]))
  }

  /** Decodes a TX status frame; bytes after the status are ignored. Fails (Go panics) on fewer than 3 bytes. */
  function BuildTxStatusFrame(fd: seq<Byte>): (r: Option<Frame>)
    ensures r.Some? <==> |fd| >= 3
    ensures r.Some? ==> r.value.TxStatus? && FrameData(r.value) == [TxStatusFrameType] + fd[1..3]
  {
    if |fd| < 3 then None
    else Some(TxStatus(fd[1], fd[2]))
  }

  /**
   * Decodes an RX64 frame from fixed offsets; the type byte is not inspected.
   * Fails (Go panics) on fewer than 11 bytes.
   */
  function BuildRx64Frame(fd: seq<Byte>): (r: Option<Frame>)
    ensures r.Some? <==> |fd| >= 11
    ensures r.Some? ==> r.value.Rx64? && WellFormed(r.value)
    ensures r.Some? ==> FrameData(r.value) == [Rx64FrameType] + fd[1..]
  {
    if |fd| < 11 then None
    else
      FixedFieldsLayout(fd, Rx64FrameType);
      Some(Rx64(fd[1..9], fd[9], fd[10], fd[11..]))
  }

  function FromOption(o: Option<Frame>): Decoded
  {
    match o
    case Some(f) => Built(f)
    case None => OutOfRange
  }

  /**
   * Decodes frame data by its type byte: 0x00 as TX64, 0x89 as TX status,
   * 0x80 as RX64 and anything else as a generic frame.
   */
  function BuildFrame(fd: seq<Byte>): (r: Decoded)
    ensures r == NoFrame <==> |fd| == 0
    ensures r == OutOfRange <==> |fd| > 0 && |fd| < MinimumLength(fd[0])
    ensures r.Built? ==> FrameType(r.frame) == fd[0] && WellFormed(r.frame)
    ensures r.Built? ==> (r.frame.Generic? <==> !IsKnownType(fd[0]))
    ensures r.Built? ==> FrameData(r.frame) == if fd[0] == TxStatusFrameType then fd[..3] else fd
  {
    if |fd| == 0 then NoFrame
    else
      var frameType := fd[0];
      if frameType == Tx64FrameType then
        assert [Tx64FrameType] + fd[1..] == fd;
        FromOption(BuildTx64Frame(fd))
      else if frameType == TxStatusFrameType then
        assert |fd| >= 3 ==> [TxStatusFrameType] + fd[1..3] == fd[..3];
        FromOption(BuildTxStatusFrame(fd))
      else if frameType == Rx64FrameType then
        assert [Rx64FrameType] + fd[1..] == fd;
        FromOption(BuildRx64Frame(fd))
      else
        FromOption(BuildGenericFrame(fd))
  }

  /**
   * Decoding the frame data of `f` gives `f` back exactly when `f` is well
   * formed: 8-byte addresses, and a generic frame's type not one of the
   * interpreted ones.
   */
  lemma EncodeDecode(f: Frame)
    ensures BuildFrame(FrameData(f)) == Built(f) <==> WellFormed(f)
  {
    var fd := FrameData(f);
    match f
    case Generic(t, raw) =>
      if !IsKnownType(t) {
        assert fd[1..] == raw;
      }
    case Tx64(id, destination, options, data) =>
      if |destination| == AddressLength {
        assert fd[1] == id;
        assert fd[2..10] == destination;
        assert fd[10] == options;
        assert fd[11..] == data;
      }
    case TxStatus(id, status) =>
    case Rx64(source, rssi, options, data) =>
      if |source| == AddressLength {
        assert fd[1..9] == source;
        assert fd[9] == rssi;
        assert fd[10] == options;
        assert fd[11..] == data;
      }
  }

  /** Frame data with a type the decoder does not interpret is kept whole as a generic frame. */
  lemma UnknownTypeKept(t: Byte, raw: seq<Byte>)
    requires !IsKnownType(t)
    ensures BuildFrame([t] + raw) == Built(Generic(t, raw))
  {
    assert ([t] + raw)[1..] == raw;
  }

  /** The broadcast address is 8 bytes: six zeros then 0xFF 0xFF. */
  lemma BroadcastAddressLayout()
    ensures |BroadcastAddress| == AddressLength
    ensures forall i :: 0 <= i < 6 ==> BroadcastAddress[i] == 0x00
    ensures BroadcastAddress[6] == 0xFF && BroadcastAddress[7] == 0xFF
  {
  }
}
