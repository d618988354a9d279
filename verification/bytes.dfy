/** Fixed-width two's-complement integers and their byte images, as
    `java.nio.ByteBuffer.putInt`/`putShort` lay them out in either byte order. */
module Bytes {

  type byte = x: int | 0 <= x < 256
  type int16 = x: int | -0x8000 <= x < 0x8000
  type uint16 = x: int | 0 <= x < 0x1_0000
  type int32 = x: int | -0x8000_0000 <= x < 0x8000_0000

  const TwoTo16: int := 0x1_0000
  const TwoTo32: int := 0x1_0000_0000

  datatype Endian = LittleEndian | BigEndian

  lemma SmallMod(v: int, p: int)
    requires 0 <= v < p
    ensures v % p == v
  {
  }

  lemma NegativeMod(v: int, p: int)
    requires -p <= v < 0
    ensures v % p == v + p
  {
  }

  /** The number whose bytes, least significant first, are `b0` .. `b3`. */
  function Unsigned32(b0: byte, b1: byte, b2: byte, b3: byte): (u: nat)
    ensures u < TwoTo32
  {
    b0 + 0x100 * b1 + 0x1_0000 * b2 + 0x100_0000 * b3
  }

  function Unsigned16(b0: byte, b1: byte): (u: nat)
    ensures u < TwoTo16
  {
    b0 + 0x100 * b1
  }

  /** The `n` low-order bytes of `u`, least significant first. */
  function LittleEndianBytes(u: nat, n: nat): (bs: seq<byte>)
    ensures |bs| == n
  {
    if n == 0 then [] else [u % 256] + LittleEndianBytes(u / 256, n - 1)
  }

  function Reverse<T>(s: seq<T>): (r: seq<T>)
    ensures |r| == |s|
  {
    if s == [] then [] else Reverse(s[1..]) + [s[0]]
  }

  /** The bytes of `u` in memory order for byte order `e`. */
  function Ordered(le: seq<byte>, e: Endian): (bs: seq<byte>)
    ensures |bs| == |le|
  {
    if e.LittleEndian? then le else Reverse(le)
  }

  /** `ByteBuffer.putInt`: the 32-bit two's-complement image of `v`, most
      significant byte first in big-endian order, last in little-endian. */
  function Int32Bytes(v: int32, e: Endian): (bs: seq<byte>)
    ensures |bs| == 4
  {
    Ordered(LittleEndianBytes(v % TwoTo32, 4), e)
  }

  /** `ByteBuffer.getInt` on four bytes. */
  function DecodeInt32(bs: seq<byte>, e: Endian): int32
    requires |bs| == 4
  {
    Signed32(if e.LittleEndian? then Unsigned32(bs[0], bs[1], bs[2], bs[3]) else Unsigned32(bs[3], bs[2], bs[1], bs[0]))
  }

  /** The two's-complement reading of a 32-bit unsigned value. */
  function Signed32(u: nat): int32
    requires u < TwoTo32
  {
    if u < 0x8000_0000 then u else u - TwoTo32
  }

  /** `ByteBuffer.putShort` of the low 16 bits of `v`; callers pass either a
      signed or an unsigned 16-bit value. */
  function Int16Bytes(v: int, e: Endian): (bs: seq<byte>)
    requires -0x8000 <= v < TwoTo16
    ensures |bs| == 2
  {
    Ordered(LittleEndianBytes(v % TwoTo16, 2), e)
  }

  function DecodeUint16(bs: seq<byte>, e: Endian): uint16
    requires |bs| == 2
  {
    if e.LittleEndian? then Unsigned16(bs[0], bs[1]) else Unsigned16(bs[1], bs[0])
  }

  /** `ByteBuffer.getShort` on two bytes. */
  function DecodeInt16(bs: seq<byte>, e: Endian): int16
    requires |bs| == 2
  {
    Signed16(DecodeUint16(bs, e))
  }

  function Signed16(u: nat): int16
    requires u < TwoTo16
  {
    if u < 0x8000 then u else u - TwoTo16
  }

  lemma FourBytes(u: nat)
    ensures LittleEndianBytes(u, 4) == [u % 256, u / 256 % 256, u / 256 / 256 % 256, u / 256 / 256 / 256 % 256]
  {
    var q1 := u / 256;
    var q2 := q1 / 256;
    var q3 := q2 / 256;
    assert LittleEndianBytes(q3, 1) == [q3 % 256];
    assert LittleEndianBytes(q2, 2) == [q2 % 256] + LittleEndianBytes(q3, 1);
    assert LittleEndianBytes(q1, 3) == [q1 % 256] + LittleEndianBytes(q2, 2);
  }

  lemma TwoBytes(u: nat)
    ensures LittleEndianBytes(u, 2) == [u % 256, u / 256 % 256]
  {
    assert LittleEndianBytes(u / 256, 1) == [u / 256 % 256];
    assert LittleEndianBytes(u, 2) == [u % 256] + LittleEndianBytes(u / 256, 1);
  }

  lemma ReverseFour<T>(a: T, b: T, c: T, d: T)
    ensures Reverse([a, b, c, d]) == [d, c, b, a]
  {
    assert [a, b, c, d][1..] == [b, c, d];
    assert [b, c, d][1..] == [c, d];
    ReverseTwo(c, d);
    assert Reverse([b, c, d]) == [d, c] + [b];
  }

  lemma ReverseTwo<T>(a: T, b: T)
    ensures Reverse([a, b]) == [b, a]
  {
    assert [a, b][1..] == [b];
    assert Reverse([b]) == [] + [b];
  }

  /** Splitting a 32-bit number into base-256 digits and summing them back
      gives the number. */
  lemma Digits32(u: int)
    requires 0 <= u < TwoTo32
    ensures Unsigned32(u % 256, u / 256 % 256, u / 256 / 256 % 256, u / 256 / 256 / 256 % 256) == u
  {
    var q1 := u / 256;
    var q2 := q1 / 256;
    var q3 := q2 / 256;
    assert u == u % 256 + 256 * q1;
    assert q1 == q1 % 256 + 256 * q2;
    assert q2 == q2 % 256 + 256 * q3;
    assert q3 < 256;
  }

  /** Each base-256 digit of a 32-bit number can be read back from it. */
  lemma Undigits32(b0: byte, b1: byte, b2: byte, b3: byte)
    ensures var u := Unsigned32(b0, b1, b2, b3);
            && u % 256 == b0 && u / 256 % 256 == b1
            && u / 256 / 256 % 256 == b2 && u / 256 / 256 / 256 % 256 == b3
  {
    var u := Unsigned32(b0, b1, b2, b3);
    var r1 := b1 + 256 * b2 + 0x1_0000 * b3;
    var r2 := b2 + 256 * b3;
    assert u == b0 + 256 * r1;
    assert u / 256 == r1;
    assert r1 == b1 + 256 * r2;
    assert r1 / 256 == r2;
    assert r2 / 256 == b3;
  }

  lemma DecodeOrdered32(b0: byte, b1: byte, b2: byte, b3: byte, e: Endian)
    ensures DecodeInt32(Ordered([b0, b1, b2, b3], e), e) == Signed32(Unsigned32(b0, b1, b2, b3))
  {
    ReverseFour(b0, b1, b2, b3);
  }

  lemma DecodeOrdered16(b0: byte, b1: byte, e: Endian)
    ensures DecodeUint16(Ordered([b0, b1], e), e) == Unsigned16(b0, b1)
  {
    ReverseTwo(b0, b1);
  }

  /** Reducing an int32 modulo 2^32 and reading it back as signed is the
      identity. */
  lemma Signed32OfMod(v: int32)
    ensures Signed32(v % TwoTo32) == v
  {
    if v < 0 {
      NegativeMod(v, TwoTo32);
    } else {
      SmallMod(v, TwoTo32);
    }
  }

  lemma Signed16OfMod(v: int16)
    ensures Signed16(v % TwoTo16) == v
  {
    if v < 0 {
      NegativeMod(v, TwoTo16);
    } else {
      SmallMod(v, TwoTo16);
    }
  }

  /** The byte orders as `ByteBuffer` lays them out: little-endian puts the
      least significant byte first, big-endian puts it last, and each is
      the other read backwards. */
  lemma Int32ByteOrder(v: int32)
    ensures Int32Bytes(v, LittleEndian)[0] == v % 256
    ensures Int32Bytes(v, BigEndian)[3] == v % 256
    ensures forall i :: 0 <= i < 4 ==> Int32Bytes(v, BigEndian)[i] == Int32Bytes(v, LittleEndian)[3 - i]
  {
    var u := v % TwoTo32;
    var b0: byte, b1: byte, b2: byte, b3: byte := u % 256, u / 256 % 256, u / 256 / 256 % 256, u / 256 / 256 / 256 % 256;
    FourBytes(u);
    ReverseFour(b0, b1, b2, b3);
    assert Int32Bytes(v, LittleEndian) == [b0, b1, b2, b3];
    assert Int32Bytes(v, BigEndian) == [b3, b2, b1, b0];
    assert b0 == v % 256;
  }

  /** The 4-byte image of an int32 reads back as the same int32, in either order. */
  lemma Int32RoundTrip(v: int32, e: Endian)
    ensures DecodeInt32(Int32Bytes(v, e), e) == v
  {
    var u := v % TwoTo32;
    FourBytes(u);
    DecodeOrdered32(u % 256, u / 256 % 256, u / 256 / 256 % 256, u / 256 / 256 / 256 % 256, e);
    Digits32(u);
    Signed32OfMod(v);
  }

  /** Every four bytes are the image of the int32 they read as: the image is
      a bijection between int32 values and 4-byte sequences. */
  lemma Int32BytesOfDecode(bs: seq<byte>, e: Endian)
    requires |bs| == 4
    ensures Int32Bytes(DecodeInt32(bs, e), e) == bs
  {
    var le := if e.LittleEndian? then bs else [bs[3], bs[2], bs[1], bs[0]];
    var u := Unsigned32(le[0], le[1], le[2], le[3]);
    assert DecodeInt32(bs, e) % TwoTo32 == u;
    Undigits32(le[0], le[1], le[2], le[3]);
    FourBytes(u);
    ReverseFour(le[0], le[1], le[2], le[3]);
  }

  lemma Digits16(u: int)
    requires 0 <= u < TwoTo16
    ensures Unsigned16(u % 256, u / 256 % 256) == u
  {
    assert u == u % 256 + 256 * (u / 256);
  }

  lemma Int16RoundTrip(v: int16, e: Endian)
    ensures DecodeInt16(Int16Bytes(v, e), e) == v
  {
    var u := v % TwoTo16;
    TwoBytes(u);
    DecodeOrdered16(u % 256, u / 256 % 256, e);
    Digits16(u);
    Signed16OfMod(v);
  }

  lemma Uint16RoundTrip(v: uint16, e: Endian)
    ensures DecodeUint16(Int16Bytes(v, e), e) == v
  {
    SmallMod(v, TwoTo16);
    TwoBytes(v);
    DecodeOrdered16(v % 256, v / 256 % 256, e);
    Digits16(v);
  }

  /** Every two bytes are the image of the unsigned short they read as. */
  lemma Uint16BytesOfDecode(bs: seq<byte>, e: Endian)
    requires |bs| == 2
    ensures Int16Bytes(DecodeUint16(bs, e), e) == bs
  {
    var le := if e.LittleEndian? then bs else [bs[1], bs[0]];
    var u := Unsigned16(le[0], le[1]);
    SmallMod(u, TwoTo16);
    assert u % 256 == le[0] && u / 256 % 256 == le[1];
    TwoBytes(u);
    ReverseTwo(le[0], le[1]);
  }

  /** Every two bytes are the image of the signed short they read as. */
  lemma Int16BytesOfDecode(bs: seq<byte>, e: Endian)
    requires |bs| == 2
    ensures Int16Bytes(DecodeInt16(bs, e), e) == bs
  {
    var u := DecodeUint16(bs, e);
    var v := DecodeInt16(bs, e);
    if u < 0x8000 {
      assert v == u;
    } else {
      assert v == u - TwoTo16;
      assert v % TwoTo16 == u % TwoTo16;
    }
    SmallMod(u, TwoTo16);
    assert Int16Bytes(v, e) == Int16Bytes(u, e);
    Uint16BytesOfDecode(bs, e);
  }

  // ---- placing byte images inside a larger buffer ----

  /** `img` occurs in `data` starting at `pos`. */
  predicate At(data: seq<byte>, pos: nat, img: seq<byte>)
  {
    pos + |img| <= |data| && data[pos..pos + |img|] == img
  }

  lemma AtSplit(data: seq<byte>, pos: nat, a: seq<byte>, b: seq<byte>)
    requires At(data, pos, a + b)
    ensures At(data, pos, a) && At(data, pos + |a|, b)
  {
    assert data[pos..pos + |a|] == (a + b)[..|a|];
    assert data[pos + |a|..pos + |a| + |b|] == (a + b)[|a|..];
  }

  lemma AtJoin(data: seq<byte>, pos: nat, a: seq<byte>, b: seq<byte>)
    requires At(data, pos, a) && At(data, pos + |a|, b)
    ensures At(data, pos, a + b)
  {
    assert data[pos..pos + |a| + |b|] == data[pos..pos + |a|] + data[pos + |a|..pos + |a| + |b|];
  }

  /** Bytes appended after an image do not move it. */
  lemma AtExtend(data: seq<byte>, tail: seq<byte>, pos: nat, img: seq<byte>)
    requires At(data, pos, img)
    ensures At(data + tail, pos, img)
  {
    assert (data + tail)[pos..pos + |img|] == data[pos..pos + |img|];
  }

  lemma AtWhole(data: seq<byte>)
    ensures At(data, 0, data)
  {
    assert data[0..|data|] == data;
  }

  /** Two adjacent slices make up the slice that spans both. */
  lemma SliceJoin<T>(data: seq<T>, a: nat, b: nat, c: nat)
    requires a <= b <= c <= |data|
    ensures data[a..b] + data[b..c] == data[a..c]
  {
  }

  lemma AppendAssoc<T>(a: seq<T>, b: seq<T>, c: seq<T>)
    ensures a + (b + c) == (a + b) + c
  {
  }

  /** A suffix is its first element, then the next suffix. */
  lemma DropCons<T>(s: seq<T>, k: nat)
    requires k < |s|
    ensures s[k..] == [s[k]] + s[k + 1..]
  {
  }

  /** Java `int` arithmetic: the int32 congruent to `x` modulo 2^32. */
  function Wrap32(x: int): int32
  {
    var u := x % 0x1_0000_0000;
    if u >= 0x8000_0000 then u - 0x1_0000_0000 else u
  }

  /** The wrapped value differs from `x` by a whole multiple of 2^32. */
  lemma WrapCongruent(x: int)
    ensures (Wrap32(x) - x) % TwoTo32 == 0
  {
  }

  /** Adding one to a wrapped value wraps like adding one before wrapping. */
  lemma WrapStep(x: int)
    ensures Wrap32(Wrap32(x) + 1) == Wrap32(x + 1)
  {
    var w := Wrap32(x);
    WrapCongruent(x);
    var q := (w - x) / TwoTo32;
    assert w + 1 == (x + 1) + q * TwoTo32;
    ModShift(x + 1, q);
  }

  lemma ModShift(y: int, q: int)
    ensures (y + q * TwoTo32) % TwoTo32 == y % TwoTo32
  {
  }
}
