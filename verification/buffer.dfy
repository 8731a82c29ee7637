/**
 * The frame stream: the envelope `0x7E | length | frame data | checksum`
 * written for each frame, and the reader that scans a byte stream for the
 * next envelope whose checksum verifies.
 */
module FrameStream {
  import opened Wrappers
  import opened Bytes
  import opened Frames

  /** A candidate unit as the reader parses it: delimiter, length, frame data and a received checksum byte. */
  function Unit(fd: seq<Byte>, received: Byte): seq<Byte>
  {
    [FrameHeader] + Uint16ToBytes(|fd|) + fd + [received]
  }

  /** The wire unit carrying frame data `fd`. */
  function Envelope(fd: seq<Byte>): (w: seq<Byte>)
    ensures w == Unit(fd, Checksum(fd))
    ensures |w| == |fd| + 4
  {
    var length, checksum := Uint16ToBytes(|fd|), Checksum(fd);
    var parts := [One(FrameHeader), Many(length), Many(fd), One(checksum)];
    assert parts == [One(FrameHeader)] + parts[1..];
    assert parts[1..] == [Many(length)] + parts[2..];
    assert parts[2..] == [Many(fd)] + parts[3..];
    assert parts[3..] == [One(checksum)] + [];
    PackBytesCons(One(FrameHeader), parts[1..]);
    PackBytesCons(Many(length), parts[2..]);
    PackBytesCons(Many(fd), parts[3..]);
    PackBytesCons(One(checksum), []);
    assert PackBytes([]) == [];
    Regroup([FrameHeader], length, fd, [checksum]);
    PackBytes(parts)
  }

  /**
   * The bytes written for `f`: the delimiter, the frame-data length as a
   * big-endian 16-bit value (truncated when it does not fit), the frame
   * data and a checksum that verifies against it.
   */
  function WriteFrame(f: Frame): (w: seq<Byte>)
    ensures |w| == |FrameData(f)| + 4
    ensures w[0] == FrameHeader
    ensures BytesToUint16(w[1..3]) == |FrameData(f)| % 0x10000
    ensures w[3..|w| - 1] == FrameData(f)
    ensures (Sum(w[3..|w| - 1]) + w[|w| - 1]) % 0x100 == 0xFF
  {
    var fd := FrameData(f);
    var w := Envelope(fd);
    assert w[1..3] == Uint16ToBytes(|fd|);
    assert w[3..|w| - 1] == fd;
    w
  }

  /** No byte of `g` is the frame delimiter. */
  predicate NoDelimiter(g: seq<Byte>)
  {
    forall i :: 0 <= i < |g| ==> g[i] != FrameHeader
  }

  /**
   * Reads the rest of a unit after its delimiter: the 16-bit big-endian
   * length `L`, `L` bytes of frame data and the received checksum byte.
   * `None` when the stream ends first.
   */
  function ParseUnit(s: seq<Byte>): (r: Option<(seq<Byte>, Byte, seq<Byte>)>)
    ensures r.Some? <==> |s| >= 3 + BytesToUint16(s)
    ensures r.Some? ==> |r.value.0| < 0x10000 && [FrameHeader] + s == Unit(r.value.0, r.value.1) + r.value.2
  {
    if |s| < 2 then None
    else
      var length := BytesToUint16(s[..2]);
      if |s| < 3 + length then None
      else
        var frameData, checksum, rest := s[2..2 + length], s[2 + length], s[3 + length..];
        BytesRoundTrip(s[..2]);
        assert s == s[..2] + frameData + [checksum] + rest;
        Some((frameData, checksum, rest))
  }

  /** The parser reads back exactly the frame data and checksum byte a unit was built from. */
  lemma ParseUnitOfUnit(fd: seq<Byte>, received: Byte, tail: seq<Byte>)
    requires |fd| < 0x10000
    ensures ParseUnit((Unit(fd, received) + tail)[1..]) == Some((fd, received, tail))
  {
    var s := (Unit(fd, received) + tail)[1..];
    assert s == Uint16ToBytes(|fd|) + fd + [received] + tail;
    assert s[..2] == Uint16ToBytes(|fd|);
    Uint16RoundTrip(|fd|);
    assert s[2..2 + |fd|] == fd;
    assert s[3 + |fd|..] == tail;
  }

  /** `t` is what is left of `s` after dropping some bytes from its front. */
  predicate IsSuffix(t: seq<Byte>, s: seq<Byte>)
  {
    |t| <= |s| && t == s[|s| - |t|..]
  }

  /**
   * Reads the next frame from a finite byte stream. Bytes before a
   * delimiter are skipped; a unit whose checksum verifies is decoded and
   * returned with the input after it; any other unit is dropped whole and
   * scanning resumes after it. `None` means the stream ended first (the
   * Go reader blocks on its transport instead).
   */
  function ReadFrame(input: seq<Byte>): (r: Option<(Decoded, seq<Byte>)>)
    ensures r.Some? ==> |r.value.1| + 4 <= |input| && IsSuffix(r.value.1, input)
    ensures NoDelimiter(input) ==> r.None?
    ensures r.Some? && r.value.0.Built? ==> WellFormed(r.value.0.frame)
    decreases |input|
  {
    if |input| == 0 then None
    else if input[0] != FrameHeader then
      assert NoDelimiter(input) ==> NoDelimiter(input[1..]);
      ReadFrame(input[1..])
    else
      match ParseUnit(input[1..])
      case None => None
      case Some((frameData, checksum, rest)) =>
        assert input == Unit(frameData, checksum) + rest;
        if VerifyChecksum(frameData, checksum) then Some((BuildFrame(frameData), rest))
        else ReadFrame(rest)
  }

  /** Bytes without a delimiter in front of a stream are skipped without effect. */
  lemma {:induction false} ReadFrameSkipsNoise(g: seq<Byte>, s: seq<Byte>)
    requires NoDelimiter(g)
    ensures ReadFrame(g + s) == ReadFrame(s)
    decreases |g|
  {
    if |g| > 0 {
      assert (g + s)[0] == g[0];
      assert (g + s)[1..] == g[1..] + s;
      ReadFrameSkipsNoise(g[1..], s);
    } else {
      assert g + s == s;
    }
  }

  /** An envelope at the head of the stream is accepted and decoded, and the reader stops right after it. */
  lemma ReadFrameAcceptsEnvelope(fd: seq<Byte>, tail: seq<Byte>)
    requires |fd| < 0x10000
    ensures ReadFrame(Envelope(fd) + tail) == Some((BuildFrame(fd), tail))
  {
    ParseUnitOfUnit(fd, Checksum(fd), tail);
  }

  /**
   * A unit whose checksum byte does not match is consumed whole, delimiter
   * to checksum, and reading continues after it; its frame data is not
   * searched for another delimiter.
   */
  lemma ReadFrameDropsCorrupt(fd: seq<Byte>, received: Byte, tail: seq<Byte>)
    requires |fd| < 0x10000
    requires received != Checksum(fd)
    ensures ReadFrame(Unit(fd, received) + tail) == ReadFrame(tail)
  {
    ParseUnitOfUnit(fd, received, tail);
  }

  /**
   * Loopback: noise without a delimiter, then the bytes written for `f`,
   * read back as the decoding of `f`'s frame data and leave exactly the
   * bytes that followed; a well-formed `f` comes back unchanged.
   */
  lemma Loopback(g: seq<Byte>, f: Frame, tail: seq<Byte>)
    requires NoDelimiter(g)
    requires |FrameData(f)| < 0x10000
    ensures ReadFrame(g + WriteFrame(f) + tail) == Some((BuildFrame(FrameData(f)), tail))
    ensures WellFormed(f) ==> ReadFrame(g + WriteFrame(f) + tail) == Some((Built(f), tail))
  {
    assert g + WriteFrame(f) + tail == g + (Envelope(FrameData(f)) + tail);
    ReadFrameSkipsNoise(g, Envelope(FrameData(f)) + tail);
    ReadFrameAcceptsEnvelope(FrameData(f), tail);
    EncodeDecode(f);
  }

  /** A corrupted unit followed by a valid one: only the valid frame is returned. */
  lemma CorruptThenValid(g: seq<Byte>, fd: seq<Byte>, received: Byte, f: Frame)
    requires NoDelimiter(g)
    requires |fd| < 0x10000 && received != Checksum(fd)
    requires |FrameData(f)| < 0x10000
    ensures ReadFrame(g + Unit(fd, received) + WriteFrame(f)) == Some((BuildFrame(FrameData(f)), []))
  {
    var bad, w := Unit(fd, received), WriteFrame(f);
    ConcatAssociative(g, bad, w);
    EmptyAround(w);
    ReadFrameSkipsNoise(g, bad + w);
    ReadFrameDropsCorrupt(fd, received, w);
    Loopback([], f, []);
  }

  /**
   * `input` is some skipped prefix, then a complete envelope whose frame data
   * decodes to `decoded`, then `rest`.
   */
  ghost predicate Carries(input: seq<Byte>, decoded: Decoded, rest: seq<Byte>)
  {
    exists skipped: seq<Byte>, fd: seq<Byte> ::
      && |fd| < 0x10000
      && input == skipped + Envelope(fd) + rest
      && decoded == BuildFrame(fd)
  }

  /** Prefixing more skipped bytes keeps an envelope carried. */
  lemma CarriesExtend(prefix: seq<Byte>, skipped: seq<Byte>, fd: seq<Byte>, rest: seq<Byte>)
    requires |fd| < 0x10000
    ensures Carries(prefix + (skipped + Envelope(fd) + rest), BuildFrame(fd), rest)
  {
    var e := Envelope(fd);
    ConcatAssociative(prefix, skipped + e, rest);
    ConcatAssociative(prefix, skipped, e);
    assert prefix + (skipped + e + rest) == (prefix + skipped) + e + rest;
  }

  /** A carried envelope stays carried behind any prefix. */
  lemma CarriedBehind(prefix: seq<Byte>, tail: seq<Byte>, decoded: Decoded, rest: seq<Byte>)
    requires Carries(tail, decoded, rest)
    ensures Carries(prefix + tail, decoded, rest)
  {
    var skipped: seq<Byte>, fd: seq<Byte> :| |fd| < 0x10000
      && tail == skipped + Envelope(fd) + rest
      && decoded == BuildFrame(fd);
    CarriesExtend(prefix, skipped, fd, rest);
  }

  /** An envelope at the head of the input is carried with nothing skipped. */
  lemma CarriesHere(input: seq<Byte>, fd: seq<Byte>, rest: seq<Byte>)
    requires |fd| < 0x10000 && input == Envelope(fd) + rest
    ensures Carries(input, BuildFrame(fd), rest)
  {
    var e := Envelope(fd);
    assert input == [] + e + rest;
  }

  /**
   * Every frame the reader returns was carried by a complete envelope with
   * a matching checksum: the input is some skipped prefix, that envelope,
   * and the returned remainder.
   */
  lemma {:induction false} ReadFrameSound(input: seq<Byte>)
    requires ReadFrame(input).Some?
    ensures Carries(input, ReadFrame(input).value.0, ReadFrame(input).value.1)
    decreases |input|
  {
    var decoded, rest := ReadFrame(input).value.0, ReadFrame(input).value.1;
    assert input == [input[0]] + input[1..];
    if input[0] != FrameHeader {
      ReadFrameSound(input[1..]);
      CarriedBehind([input[0]], input[1..], decoded, rest);
    } else {
      var unit := ParseUnit(input[1..]).value;
      var fd, checksum, after := unit.0, unit.1, unit.2;
      if VerifyChecksum(fd, checksum) {
        CarriesHere(input, fd, rest);
      } else {
        ReadFrameSound(after);
        CarriedBehind(Unit(fd, checksum), after, decoded, rest);
      }
    }
  }

  /** The bytes a transport delivers, chunk after chunk. */
  function Flatten(chunks: seq<seq<Byte>>): seq<Byte>
  {
    if |chunks| == 0 then [] else chunks[0] + Flatten(chunks[1..])
  }

  /**
   * One `Read` of the transport into an `n`-byte buffer: it fills the buffer
   * from the chunk at hand and keeps what does not fit for the next read.
   * A zero-length buffer reads nothing; an exhausted transport yields `None`.
   */
  function Read(chunks: seq<seq<Byte>>, n: nat): (r: Option<(seq<Byte>, seq<seq<Byte>>)>)
    ensures r.Some? <==> n == 0 || |chunks| > 0
    ensures r.Some? ==> |r.value.0| <= n && r.value.0 + Flatten(r.value.1) == Flatten(chunks)
    ensures r.Some? && |r.value.0| < n ==> |r.value.1| < |chunks|
  {
    if n == 0 then Some(([], chunks))
    else if |chunks| == 0 then None
    else if |chunks[0]| <= n then Some((chunks[0], chunks[1..]))
    else
      var head, kept := chunks[0][..n], chunks[0][n..];
      assert Flatten([kept] + chunks[1..]) == kept + Flatten(chunks[1..]) by {
        assert ([kept] + chunks[1..])[1..] == chunks[1..];
      }
      assert head + kept == chunks[0];
      Some((head, [kept] + chunks[1..]))
  }

  /** Taking `k` bytes of `x + y` when `k` reaches into `y` (a prover aid over plain variables). */
  lemma SplitConcat(x: seq<Byte>, y: seq<Byte>, k: nat)
    requires |x| <= k <= |x| + |y|
    ensures (x + y)[..k] == x + y[..k - |x|]
    ensures (x + y)[k..] == y[k - |x|..]
  {
  }

  /**
   * Reads exactly `n` bytes, reading again for the missing bytes as long as
   * a read returns fewer than asked. The result is the next `n` bytes of the
   * stream however the transport splits it into chunks.
   */
  function ReadBytes(chunks: seq<seq<Byte>>, n: nat): (r: Option<(seq<Byte>, seq<seq<Byte>>)>)
    ensures r.Some? <==> n <= |Flatten(chunks)|
    ensures r.Some? ==> |r.value.0| == n
    ensures r.Some? ==> r.value.0 == Flatten(chunks)[..n] && Flatten(r.value.1) == Flatten(chunks)[n..]
    decreases |chunks|
  {
    match Read(chunks, n)
    case None => None
    case Some((b, after)) =>
      if |b| < n then
        match ReadBytes(after, n - |b|)
        case None => None
        case Some((slop, rest)) =>
          var parts := [Many(b), Many(slop)];
          assert parts == [Many(b)] + [Many(slop)];
          PackBytesCons(Many(b), [Many(slop)]);
          PackBytesCons(Many(slop), []);
          SplitConcat(b, Flatten(after), n);
          Some((PackBytes(parts), rest))
      else
        SplitConcat(b, Flatten(after), n);
        Some((b, after))
  }

  /** Reads a single byte. */
  function ReadByte(chunks: seq<seq<Byte>>): (r: Option<(Byte, seq<seq<Byte>>)>)
    ensures r.Some? <==> |Flatten(chunks)| > 0
    ensures r.Some? ==> r.value.0 == Flatten(chunks)[0] && Flatten(r.value.1) == Flatten(chunks)[1..]
  {
    match ReadBytes(chunks, 1)
    case None => None
    case Some((b, rest)) => Some((b[0], rest))
  }

  /**
   * Reads the rest of a unit after its delimiter from the transport: 2
   * length bytes, the frame data and the checksum byte. It reads what
   * `ParseUnit` parses from the delivered bytes.
   */
  function ReadUnitFromTransport(chunks: seq<seq<Byte>>): (r: Option<(seq<Byte>, Byte, seq<seq<Byte>>)>)
    ensures r.None? <==> ParseUnit(Flatten(chunks)).None?
    ensures r.Some? ==> var u := ParseUnit(Flatten(chunks)).value;
      r.value.0 == u.0 && r.value.1 == u.1 && Flatten(r.value.2) == u.2
  {
    var s := Flatten(chunks);
    match ReadBytes(chunks, 2)
    case None => None
    case Some((lengthBytes, c1)) =>
      var length := BytesToUint16(lengthBytes);
      match ReadBytes(c1, length)
      case None => None
      case Some((frameData, c2)) =>
        assert frameData == s[2..2 + length] by {
          assert s[2..][..length] == s[2..2 + length];
        }
        assert Flatten(c2) == s[2 + length..];
        match ReadByte(c2)
        case None => None
        case Some((checksum, c3)) =>
          assert Flatten(c3) == s[3 + length..];
          Some((frameData, checksum, c3))
  }

  /**
   * The reader loop over the transport: read a byte until it is the
   * delimiter, then the rest of the unit, decoding the frame data when the
   * checksum verifies and starting over otherwise. It returns what
   * `ReadFrame` returns on the delivered bytes, with the same bytes left
   * unread, whatever the chunking.
   */
  function ReadFrameFromTransport(chunks: seq<seq<Byte>>): (r: Option<(Decoded, seq<seq<Byte>>)>)
    ensures r.None? <==> ReadFrame(Flatten(chunks)).None?
    ensures r.Some? ==>
      r.value.0 == ReadFrame(Flatten(chunks)).value.0 && Flatten(r.value.1) == ReadFrame(Flatten(chunks)).value.1
    decreases |Flatten(chunks)|
  {
    match ReadByte(chunks)
    case None => None
    case Some((delimiter, c1)) =>
      if delimiter != FrameHeader then ReadFrameFromTransport(c1)
      else
        match ReadUnitFromTransport(c1)
        case None => None
        case Some((frameData, checksum, c2)) =>
          if VerifyChecksum(frameData, checksum) then Some((BuildFrame(frameData), c2))
          else ReadFrameFromTransport(c2)
  }

  /**
   * As written, frame data that passes its checksum but is shorter than its
   * type's fixed fields reaches the decoder, which indexes out of range: the
   * unit `7E 00 01 00 FF` carries the single byte 0x00 (a TX64 type with no
   * fields) and a correct checksum.
   */
  lemma ShortFrameReachesDecoder()
    ensures ReadFrame([0x7E, 0x00, 0x01, 0x00, 0xFF]) == Some((OutOfRange, []))
  {
    var e := Envelope([Tx64FrameType]);
    ShortUnit();
    EmptyAround(e);
    ReadFrameAcceptsEnvelope([Tx64FrameType], []);
  }

  /** The bytes `7E 00 01 00 FF` are the envelope of the frame data `00`. */
  lemma ShortUnit()
    ensures Envelope([Tx64FrameType]) == [0x7E, 0x00, 0x01, 0x00, 0xFF]
  {
    var fd: seq<Byte> := [Tx64FrameType];
    assert Checksum(fd) == 0xFF by {
      assert WrappingSum(fd) == 0;
    }
    assert Uint16ToBytes(|fd|) == [0x00, 0x01];
  }

  // SuffixOfSuffix and EmptyAround state facts Dafny knows; they exist to
  // steer the prover on plain variables instead of on function terms.
  lemma SuffixOfSuffix(input: seq<Byte>, rest: seq<Byte>, last: seq<Byte>)
    requires IsSuffix(rest, input) && IsSuffix(last, rest)
    ensures IsSuffix(last, input)
  {
  }

  lemma EmptyAround(w: seq<Byte>)
    ensures [] + w + [] == w && w + [] == w && [] + w == w
  {
  }

  /**
   * The reader with a malformed unit handled like a failed checksum: a unit
   * whose frame data does not decode (empty, or too short for its type) is
   * dropped whole and scanning resumes after it.
   */
  function ReadDecodedFrame(input: seq<Byte>): (r: Option<(Frame, seq<Byte>)>)
    ensures r.Some? ==> WellFormed(r.value.0)
    ensures r.Some? ==> |r.value.1| + 4 <= |input| && IsSuffix(r.value.1, input)
    decreases |input|
  {
    var read := ReadFrame(input);
    if read.None? then None
    else
      var decoded, rest := read.value.0, read.value.1;
      if decoded.Built? then Some((decoded.frame, rest))
      else
        assert |rest| < |input|;
        var r := ReadDecodedFrame(rest);
        if r.None? then None
        else
          SuffixOfSuffix(input, rest, r.value.1);
          r
  }

  /** The corrected reader drops an envelope whose frame data does not decode and reads on after it. */
  lemma ReadDecodedFrameDropsMalformed(fd: seq<Byte>, tail: seq<Byte>)
    requires |fd| < 0x10000 && !BuildFrame(fd).Built?
    ensures ReadDecodedFrame(Envelope(fd) + tail) == ReadDecodedFrame(tail)
  {
    ReadFrameAcceptsEnvelope(fd, tail);
  }

  /** Loopback through the corrected reader: a well-formed frame comes back unchanged after noise. */
  lemma ReadDecodedFrameLoopback(g: seq<Byte>, f: Frame, tail: seq<Byte>)
    requires NoDelimiter(g) && WellFormed(f)
    requires |FrameData(f)| < 0x10000
    ensures ReadDecodedFrame(g + WriteFrame(f) + tail) == Some((f, tail))
  {
    Loopback(g, f, tail);
  }

  /** The unit that reaches the decoder as written is skipped by the corrected reader, and the frame after it is read. */
  lemma ShortFrameSkipped(f: Frame)
    requires WellFormed(f) && |FrameData(f)| < 0x10000
    ensures ReadDecodedFrame([0x7E, 0x00, 0x01, 0x00, 0xFF] + WriteFrame(f)) == Some((f, []))
  {
    var w := WriteFrame(f);
    ShortUnit();
    assert Envelope([Tx64FrameType]) + w == [0x7E, 0x00, 0x01, 0x00, 0xFF] + w;
    EmptyAround(w);
    ReadDecodedFrameDropsMalformed([Tx64FrameType], w);
    ReadDecodedFrameLoopback([], f, []);
  }

  /**
   * End to end: a TX request with id 1, the broadcast destination, no
   * options and the payload "hi" is written and read back unchanged.
   */
  lemma BroadcastHelloLoopback()
    ensures var f := Tx64(0x01, BroadcastAddress, 0x00, [0x68, 0x69]);
      ReadFrame(WriteFrame(f)) == Some((Built(f), []))
  {
    var f := Tx64(0x01, BroadcastAddress, 0x00, [0x68, 0x69]);
    assert WellFormed(f);
    assert |FrameData(f)| == 13;
    EmptyAround(WriteFrame(f));
    Loopback([], f, []);
  }
}
