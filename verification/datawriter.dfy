/** The append-only byte cursor that every `save` writes through. The
    receiver is an in-memory byte sequence, so no write can fail for I/O
    reasons; the writer index is the number of bytes written so far. */
module DataWriter {
  import opened Wrappers
  import opened Bytes

  /** The null byte that terminates strings by default. */
  const NullByte: byte := 0
  const IntegerSize: nat := 4

  datatype Writer = Writer(data: seq<byte>, endian: Endian)

  datatype WriteError =
    | NegativeAmount(amount: int)
    | BackwardJump(address: int, index: nat)

  /** A fresh writer: nothing written yet, little-endian. */
  function NewWriter(): (w: Writer)
    ensures Index(w) == 0 && w.endian == LittleEndian
  {
    Writer([], LittleEndian)
  }

  /** The writer index: where the next byte will land. */
  function Index(w: Writer): nat
  {
    |w.data|
  }

  function Zeros(n: nat): (z: seq<byte>)
    ensures |z| == n
    ensures forall i :: 0 <= i < n ==> z[i] == 0
  {
    seq(n, _ => 0)
  }

  function WriteByte(w: Writer, b: byte): (w': Writer)
    ensures Index(w') == Index(w) + 1
    ensures w'.data[..Index(w)] == w.data && w'.data[Index(w)] == b
    ensures w'.endian == w.endian
  {
    Writer(w.data + [b], w.endian)
  }

  function WriteBytes(w: Writer, bytes: seq<byte>): (w': Writer)
    ensures Index(w') == Index(w) + |bytes|
    ensures w'.data[..Index(w)] == w.data && w'.data[Index(w)..] == bytes
    ensures w'.endian == w.endian
  {
    Writer(w.data + bytes, w.endian)
  }

  /** Java's `new byte[amount]` refuses a negative amount. */
  function WriteNull(w: Writer, amount: int): (r: Result<Writer, WriteError>)
    ensures r.Err? <==> amount < 0
    ensures r.Err? ==> r.error == NegativeAmount(amount)
    ensures r.Ok? ==> Index(r.value) == Index(w) + amount
    ensures r.Ok? ==> r.value.data[..Index(w)] == w.data && r.value.endian == w.endian
    ensures r.Ok? ==> forall i :: Index(w) <= i < Index(r.value) ==> r.value.data[i] == 0
  {
    if amount < 0 then Err(NegativeAmount(amount)) else Ok(WriteBytes(w, Zeros(amount)))
  }

  /** Seeks forward only: the gap is filled with null bytes. */
  function JumpTo(w: Writer, address: int): (r: Result<Writer, WriteError>)
    ensures r.Err? <==> address < Index(w)
    ensures r.Err? ==> r.error == BackwardJump(address, Index(w))
    ensures r.Ok? ==> Index(r.value) == address
    ensures r.Ok? ==> r.value.data[..Index(w)] == w.data && r.value.endian == w.endian
    ensures r.Ok? ==> forall i :: Index(w) <= i < address ==> r.value.data[i] == 0
  {
    var index := Index(w);
    if address < index then Err(BackwardJump(address, index)) else WriteNull(w, address - index)
  }

  /** Appends the 4-byte two's-complement image of `value` in the writer's
      byte order. */
  function WriteInt(w: Writer, value: int32): (w': Writer)
    ensures w' == Writer(w.data + Int32Bytes(value, w.endian), w.endian)
    ensures DecodeInt32(w'.data[Index(w)..], w.endian) == value
  {
    Int32RoundTrip(value, w.endian);
    WriteBytes(w, Int32Bytes(value, w.endian))
  }

  /** Appends the 2-byte two's-complement image of `value`; read back as a
      signed short it is `value` again. */
  function WriteShort(w: Writer, value: int16): (w': Writer)
    ensures w' == Writer(w.data + Int16Bytes(value, w.endian), w.endian)
    ensures DecodeInt16(w'.data[Index(w)..], w.endian) == value
  {
    Int16RoundTrip(value, w.endian);
    WriteBytes(w, Int16Bytes(value, w.endian))
  }

  /** Appends the 2-byte image of an unsigned `value`; read back as an
      unsigned short it is `value` again. */
  function WriteUnsignedShort(w: Writer, value: uint16): (w': Writer)
    ensures w' == Writer(w.data + Int16Bytes(value, w.endian), w.endian)
    ensures DecodeUint16(w'.data[Index(w)..], w.endian) == value
  {
    Uint16RoundTrip(value, w.endian);
    WriteBytes(w, Int16Bytes(value, w.endian))
  }

  /** The string's bytes under `charset` (Java's `String.getBytes()`), then
      the terminator. */
  function WriteTerminatorString(w: Writer, s: string, terminator: byte, charset: string -> seq<byte>): (w': Writer)
    ensures Index(w') == Index(w) + |charset(s)| + 1
    ensures w'.data[..Index(w)] == w.data && w'.endian == w.endian
    ensures w'.data[Index(w)..Index(w') - 1] == charset(s)
    ensures w'.data[Index(w') - 1] == terminator
  {
    WriteByte(WriteBytes(w, charset(s)), terminator)
  }

  function WriteNullTerminatedString(w: Writer, s: string, charset: string -> seq<byte>): (w': Writer)
    ensures Index(w') == Index(w) + |charset(s)| + 1
    ensures w'.data[..Index(w)] == w.data && w'.endian == w.endian
    ensures w'.data[Index(w)..Index(w') - 1] == charset(s)
    ensures w'.data[Index(w') - 1] == NullByte
  {
    WriteTerminatorString(w, s, NullByte, charset)
  }

  // ---- the index over a run of writes ----

  /** A run of `writeBytes` calls, in order. */
  function WriteAll(w: Writer, chunks: seq<seq<byte>>): Writer
    decreases |chunks|
  {
    if chunks == [] then w else WriteAll(WriteBytes(w, chunks[0]), chunks[1..])
  }

  function Concat(chunks: seq<seq<byte>>): seq<byte>
    decreases |chunks|
  {
    if chunks == [] then [] else chunks[0] + Concat(chunks[1..])
  }

  /** The writer index counts every byte written: after a run of writes it
      has grown by their total, and the written bytes are the chunks in
      order after the earlier ones. */
  lemma {:induction false} IndexCountsWrites(w: Writer, chunks: seq<seq<byte>>)
    ensures WriteAll(w, chunks).data == w.data + Concat(chunks)
    ensures Index(WriteAll(w, chunks)) == Index(w) + |Concat(chunks)|
    decreases |chunks|
  {
    if chunks != [] {
      IndexCountsWrites(WriteBytes(w, chunks[0]), chunks[1..]);
      AppendAssoc(w.data, chunks[0], Concat(chunks[1..]));
    } else {
      assert w.data + [] == w.data;
    }
  }
}
