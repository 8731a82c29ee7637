/**
 * Byte primitives of the XBee API frame codec: the 8-bit checksum, the
 * big-endian 16-bit length field and the concatenation of byte parts.
 */
module Bytes {

  /** One octet of the serial channel. */
  type Byte = b: int | 0 <= b < 0x100

  /** Unbounded sum of the bytes of `d`; the reference the 8-bit arithmetic is measured against. */
  function Sum(d: seq<Byte>): nat
  {
    if |d| == 0 then 0 else d[0] + Sum(d[1..])
  }

  lemma {:induction false} SumAppend(a: seq<Byte>, b: seq<Byte>)
    ensures Sum(a + b) == Sum(a) + Sum(b)
  {
    if |a| == 0 {
      assert a + b == b;
    } else {
      assert (a + b)[1..] == a[1..] + b;
      SumAppend(a[1..], b);
    }
  }

  lemma ModOfQuotientRemainder(x: int, q: int, r: int)
    requires x == 0x100 * q + r && 0 <= r < 0x100
    ensures x % 0x100 == r
  {
  }

  /** Reducing the running sum modulo 256 before adding a byte does not change the result modulo 256. */
  lemma ModAddByte(s: nat, x: Byte)
    ensures (s % 0x100 + x) % 0x100 == (s + x) % 0x100
  {
    var q, r := s / 0x100, s % 0x100;
    if r + x < 0x100 {
      ModOfQuotientRemainder(r + x, 0, r + x);
      ModOfQuotientRemainder(s + x, q, r + x);
    } else {
      ModOfQuotientRemainder(r + x, 1, r + x - 0x100);
      ModOfQuotientRemainder(s + x, q + 1, r + x - 0x100);
    }
  }

  /**
   * The accumulator of the checksum loop: bytes are added left to right
   * into an 8-bit variable, which wraps around at 256.
   */
  function WrappingSum(d: seq<Byte>): (s: Byte)
    ensures s == Sum(d) % 0x100
  {
    if |d| == 0 then 0
    else
      var init, last := d[..|d| - 1], d[|d| - 1];
      assert init + [last] == d;
      assert Sum([last]) == last by {
        assert [last][1..] == [];
      }
      SumAppend(init, [last]);
      ModAddByte(Sum(init), last);
      (WrappingSum(init) + last) % 0x100
  }

  /** The frame checksum: 0xFF minus the 8-bit sum of the frame data. */
  function Checksum(d: seq<Byte>): (c: Byte)
    ensures (Sum(d) + c) % 0x100 == 0xFF
  {
    var w := WrappingSum(d);
    ComplementByte(Sum(d), w, 0xFF - w, 0xFF - w);
    0xFF - w
  }

  /** Arithmetic core of the checksum: with `w` the sum modulo 256, `0xFF - w` is the one byte completing `s` to 0xFF modulo 256. */
  lemma ComplementByte(s: nat, w: Byte, k: Byte, c: Byte)
    requires w == s % 0x100 && k == 0xFF - w
    ensures k == 0xFF - s % 0x100
    ensures (s + k) % 0x100 == 0xFF
    ensures (s + c) % 0x100 == 0xFF <==> c == k
  {
    var q := s / 0x100;
    ModOfQuotientRemainder(s + k, q, 0xFF);
    if w + c < 0x100 {
      ModOfQuotientRemainder(s + c, q, w + c);
    } else {
      ModOfQuotientRemainder(s + c, q + 1, w + c - 0x100);
    }
  }

  /**
   * The checksum complements the sum of the data to 0xFF modulo 256, and no
   * other byte does.
   */
  lemma ChecksumComplement(d: seq<Byte>, c: Byte)
    ensures Checksum(d) == 0xFF - Sum(d) % 0x100
    ensures (Sum(d) + Checksum(d)) % 0x100 == 0xFF
    ensures (Sum(d) + c) % 0x100 == 0xFF <==> c == Checksum(d)
  {
    var w := WrappingSum(d);
    assert Checksum(d) == 0xFF - w;
    ComplementByte(Sum(d), w, 0xFF - w, c);
  }

  /** The checksum of no data is 0xFF. */
  lemma ChecksumOfNothing()
    ensures Checksum([]) == 0xFF
  {
  }

  /**
   * Whether the received checksum byte matches the frame data: exactly when
   * it completes the sum of the data to 0xFF modulo 256.
   */
  function VerifyChecksum(d: seq<Byte>, received: Byte): (ok: bool)
    ensures ok <==> (Sum(d) + received) % 0x100 == 0xFF
  {
    ChecksumComplement(d, received);
    Checksum(d) == received
  }

  /** Verification accepts the computed checksum and no other byte. */
  lemma VerifyChecksumAccepts(d: seq<Byte>, received: Byte)
    ensures VerifyChecksum(d, Checksum(d))
    ensures received != Checksum(d) ==> !VerifyChecksum(d, received)
  {
    ChecksumComplement(d, received);
  }

  /** Big-endian encoding of `n` truncated to 16 bits, as Go's `uint16(n)` conversion does. */
  function Uint16ToBytes(n: int): (r: seq<Byte>)
    ensures |r| == 2
    ensures (r[0] as int) * 0x100 + r[1] == n % 0x10000
  {
    var v := n % 0x10000;
    [v / 0x100, v % 0x100]
  }

  /**
   * Big-endian decoding of the first two bytes of `b`. With fewer than two
   * bytes the read of the 16-bit value fails and the result stays 0.
   */
  function BytesToUint16(b: seq<Byte>): (n: nat)
    ensures n < 0x10000
    ensures |b| >= 2 ==> n == (b[0] as int) * 0x100 + b[1]
    ensures |b| < 2 ==> n == 0
  {
    if |b| < 2 then 0 else (b[0] as int) * 0x100 + b[1]
  }

  /** Encoding then decoding returns the value modulo 2^16, so exactly the value when it fits. */
  lemma Uint16RoundTrip(n: int)
    ensures BytesToUint16(Uint16ToBytes(n)) == n % 0x10000
    ensures 0 <= n < 0x10000 ==> BytesToUint16(Uint16ToBytes(n)) == n
  {
  }

  /** Decoding two bytes then encoding the value gives the same two bytes back. */
  lemma BytesRoundTrip(b: seq<Byte>)
    requires |b| == 2
    ensures Uint16ToBytes(BytesToUint16(b)) == b
  {
    var n := BytesToUint16(b);
    var r := Uint16ToBytes(n);
    assert n % 0x10000 == n;
    assert (r[0] as int) * 0x100 + r[1] == (b[0] as int) * 0x100 + b[1];
    assert r[0] == b[0];
  }

  /** One argument of `PackBytes`: a single byte or a byte slice. */
  datatype Part = One(b: Byte) | Many(bytes: seq<Byte>)

  function PartBytes(p: Part): seq<Byte>
  {
    match p
    case One(b) => [b]
    case Many(bs) => bs
  }

  /** Length a part contributes: 1 for a single byte, the slice length otherwise. */
  function PartLength(p: Part): nat
  {
    match p
    case One(_) => 1
    case Many(bs) => |bs|
  }

  /** Sum of the lengths of `parts`. */
  function TotalLength(parts: seq<Part>): nat
  {
    if |parts| == 0 then 0 else PartLength(parts[0]) + TotalLength(parts[1..])
  }

  lemma {:induction false} TotalLengthAppend(a: seq<Part>, b: seq<Part>)
    ensures TotalLength(a + b) == TotalLength(a) + TotalLength(b)
  {
    if |a| == 0 {
      assert a + b == b;
    } else {
      assert (a + b)[1..] == a[1..] + b;
      TotalLengthAppend(a[1..], b);
    }
  }

  /** Position in the packed result where part `i` begins. */
  function Offset(parts: seq<Part>, i: nat): (o: nat)
    requires i <= |parts|
    ensures i < |parts| ==> o + PartLength(parts[i]) == TotalLength(parts[..i + 1])
    ensures o <= TotalLength(parts)
  {
    TotalLengthAppend(parts[..i], parts[i..]);
    assert parts[..i] + parts[i..] == parts;
    if i < |parts| then
      assert parts[..i + 1] == parts[..i] + [parts[i]];
      TotalLengthAppend(parts[..i], [parts[i]]);
      assert TotalLength([parts[i]]) == PartLength(parts[i]) by {
        assert [parts[i]][1..] == [];
      }
      TotalLength(parts[..i])
    else
      TotalLength(parts[..i])
  }

  /**
   * Concatenation of the parts in argument order; the loop appends each
   * part to the packet built so far.
   */
  function PackBytes(parts: seq<Part>): (packet: seq<Byte>)
    ensures |packet| == TotalLength(parts)
  {
    if |parts| == 0 then []
    else
      var init := parts[..|parts| - 1];
      var last := parts[|parts| - 1];
      assert init + [last] == parts;
      TotalLengthAppend(init, [last]);
      assert TotalLength([last]) == PartLength(last) by {
        assert [last][1..] == [];
      }
      PackBytes(init) + PartBytes(last)
  }

  // A slice of `x + y` inside `x`; a prover aid over plain variables.
  lemma SliceOfConcat(x: seq<Byte>, y: seq<Byte>, a: nat, b: nat)
    requires a <= b <= |x|
    ensures (x + y)[a..b] == x[a..b]
    ensures (x + y)[|x|..] == y
  {
  }

  /** Part `i` occupies the bytes of the packet from its offset on, in argument order. */
  lemma {:induction false} PackBytesParts(parts: seq<Part>, i: nat)
    requires i < |parts|
    ensures Offset(parts, i) + PartLength(parts[i]) <= |PackBytes(parts)|
    ensures PackBytes(parts)[Offset(parts, i)..Offset(parts, i) + PartLength(parts[i])] == PartBytes(parts[i])
    decreases |parts|
  {
    var init, last := parts[..|parts| - 1], parts[|parts| - 1];
    assert parts == init + [last];
    PackBytesSnoc(init, last);
    assert Offset(parts, i + 1) <= TotalLength(parts);
    if i < |init| {
      assert parts[..i] == init[..i];
      assert Offset(init, i + 1) <= TotalLength(init);
      PackBytesParts(init, i);
      SliceOfConcat(PackBytes(init), PartBytes(last), Offset(parts, i), Offset(parts, i) + PartLength(parts[i]));
    } else {
      assert parts[..i] == init;
      SliceOfConcat(PackBytes(init), PartBytes(last), |PackBytes(init)|, |PackBytes(init)|);
    }
  }

  // ConcatAssociative and Regroup state identities Dafny knows; they exist
  // to steer the prover on plain variables instead of on function terms.
  lemma ConcatAssociative(x: seq<Byte>, y: seq<Byte>, z: seq<Byte>)
    ensures x + y + z == x + (y + z)
  {
  }

  lemma Regroup(a: seq<Byte>, b: seq<Byte>, c: seq<Byte>, d: seq<Byte>)
    ensures a + (b + (c + (d + []))) == a + b + c + d
  {
    assert d + [] == d;
    ConcatAssociative(b, c, d);
    ConcatAssociative(a, b + c, d);
    ConcatAssociative(a, b, c);
  }

  /** Packing one more part appends its bytes. */
  lemma PackBytesSnoc(parts: seq<Part>, p: Part)
    ensures PackBytes(parts + [p]) == PackBytes(parts) + PartBytes(p)
  {
    var q := parts + [p];
    assert q[..|q| - 1] == parts;
    assert q[|q| - 1] == p;
  }

  lemma {:induction false} PackBytesAppend(a: seq<Part>, b: seq<Part>)
    ensures PackBytes(a + b) == PackBytes(a) + PackBytes(b)
    decreases |b|
  {
    if |b| == 0 {
      assert a + b == a;
      assert PackBytes(b) == [];
    } else {
      var init, last := b[..|b| - 1], b[|b| - 1];
      assert b == init + [last];
      assert a + b == (a + init) + [last];
      PackBytesSnoc(a + init, last);
      PackBytesSnoc(init, last);
      PackBytesAppend(a, init);
      ConcatAssociative(PackBytes(a), PackBytes(init), PartBytes(last));
    }
  }

  /** Packing a part list that contains an already packed list equals packing the flat list. */
  lemma PackBytesNested(a: seq<Part>, b: seq<Part>, c: seq<Part>)
    ensures PackBytes(a + [Many(PackBytes(b))] + c) == PackBytes(a + b + c)
  {
    var m := [Many(PackBytes(b))];
    assert PackBytes(m) == PackBytes(b) by {
      assert m[..0] == [];
    }
    PackBytesAppend(a + m, c);
    PackBytesAppend(a, m);
    PackBytesAppend(a + b, c);
    PackBytesAppend(a, b);
  }

  /** Packing a part in front of a list puts its bytes in front of the packed list. */
  lemma PackBytesCons(p: Part, ps: seq<Part>)
    ensures PackBytes([p] + ps) == PartBytes(p) + PackBytes(ps)
  {
    PackBytesAppend([p], ps);
    PackBytesSnoc([], p);
    assert [] + [p] == [p];
    assert PackBytes([]) + PartBytes(p) == PartBytes(p);
  }
}
