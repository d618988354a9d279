/** The read-side cursor over an in-memory byte buffer: the mirror of the
    writer. Reading past the end, or a negative length, fails. */
module DataReader {
  import opened Wrappers
  import opened Bytes
  import opened DataWriter

  datatype Reader = Reader(data: seq<byte>, pos: nat, endian: Endian)

  datatype ReadError =
    | EndOfData(pos: nat, wanted: int)
    | NegativeLength(length: int)

  function ReadBytes(r: Reader, n: int): (res: Result<(seq<byte>, Reader), ReadError>)
    ensures res.Ok? <==> 0 <= n && r.pos + n <= |r.data|
    ensures res.Ok? ==> res.value.0 == r.data[r.pos..r.pos + n] && res.value.1 == r.(pos := r.pos + n)
  {
    if n < 0 then Err(NegativeLength(n))
    else if r.pos + n > |r.data| then Err(EndOfData(r.pos, n))
    else Ok((r.data[r.pos..r.pos + n], r.(pos := r.pos + n)))
  }

  function ReadInt(r: Reader): (res: Result<(int32, Reader), ReadError>)
    ensures res.Ok? <==> r.pos + 4 <= |r.data|
    ensures res.Ok? ==> res.value.0 == DecodeInt32(r.data[r.pos..r.pos + 4], r.endian)
    ensures res.Ok? ==> res.value.1 == r.(pos := r.pos + 4)
  {
    var (bytes, r') :- ReadBytes(r, 4);
    Ok((DecodeInt32(bytes, r.endian), r'))
  }

  /** Reads an int and discards it. */
  function SkipInt(r: Reader): (res: Result<Reader, ReadError>)
    ensures res.Ok? <==> r.pos + 4 <= |r.data|
    ensures res.Ok? ==> res.value == r.(pos := r.pos + 4)
  {
    var (_, r') :- ReadInt(r);
    Ok(r')
  }

  function ReadShort(r: Reader): (res: Result<(int16, Reader), ReadError>)
    ensures res.Ok? <==> r.pos + 2 <= |r.data|
    ensures res.Ok? ==> res.value.0 == DecodeInt16(r.data[r.pos..r.pos + 2], r.endian)
    ensures res.Ok? ==> res.value.1 == r.(pos := r.pos + 2)
  {
    var (bytes, r') :- ReadBytes(r, 2);
    Ok((DecodeInt16(bytes, r.endian), r'))
  }

  function ReadUnsignedShort(r: Reader): (res: Result<(uint16, Reader), ReadError>)
    ensures res.Ok? <==> r.pos + 2 <= |r.data|
    ensures res.Ok? ==> res.value.0 == DecodeUint16(r.data[r.pos..r.pos + 2], r.endian)
    ensures res.Ok? ==> res.value.1 == r.(pos := r.pos + 2)
  {
    var (bytes, r') :- ReadBytes(r, 2);
    Ok((DecodeUint16(bytes, r.endian), r'))
  }

  /** What `writeInt` appended reads back as the same int, whatever follows. */
  lemma ReadIntAfterWriteInt(w: Writer, value: int32, tail: seq<byte>)
    ensures var w' := WriteInt(w, value);
            ReadInt(Reader(w'.data + tail, Index(w), w.endian)) == Ok((value, Reader(w'.data + tail, Index(w'), w.endian)))
  {
    var w' := WriteInt(w, value);
    var data := w'.data + tail;
    assert data[Index(w)..Index(w) + 4] == Int32Bytes(value, w.endian);
    Int32RoundTrip(value, w.endian);
  }

  /** Reading an int where its image lies gives it back. */
  lemma ReadIntAt(data: seq<byte>, pos: nat, e: Endian, value: int32)
    requires pos + 4 <= |data| && data[pos..pos + 4] == Int32Bytes(value, e)
    ensures ReadInt(Reader(data, pos, e)) == Ok((value, Reader(data, pos + 4, e)))
  {
    Int32RoundTrip(value, e);
  }

  lemma ReadShortAt(data: seq<byte>, pos: nat, e: Endian, value: int16)
    requires pos + 2 <= |data| && data[pos..pos + 2] == Int16Bytes(value, e)
    ensures ReadShort(Reader(data, pos, e)) == Ok((value, Reader(data, pos + 2, e)))
  {
    Int16RoundTrip(value, e);
  }

  lemma ReadUnsignedShortAt(data: seq<byte>, pos: nat, e: Endian, value: uint16)
    requires pos + 2 <= |data| && data[pos..pos + 2] == Int16Bytes(value, e)
    ensures ReadUnsignedShort(Reader(data, pos, e)) == Ok((value, Reader(data, pos + 2, e)))
  {
    Uint16RoundTrip(value, e);
  }

  // ---- terminated strings ----

  /** The bytes from `pos` up to (not including) the first `terminator`, and
      the position just past it; `None` when no terminator follows. */
  function ReadUntil(data: seq<byte>, pos: nat, terminator: byte): (r: Option<(seq<byte>, nat)>)
    ensures r.Some? ==> pos <= r.value.1 - 1 < |data| && data[r.value.1 - 1] == terminator
    ensures r.Some? ==> r.value.0 == data[pos..r.value.1 - 1] && terminator !in r.value.0
    decreases |data| - pos
  {
    if pos >= |data| then None
    else if data[pos] == terminator then Some(([], pos + 1))
    else match ReadUntil(data, pos + 1, terminator)
      case None => None
      case Some((rest, end)) => Some(([data[pos]] + rest, end))
  }

  /** A terminated string reads back up to its terminator, provided the
      terminator does not occur in the string's own bytes. */
  lemma {:induction false} TerminatorStringReadsBack(w: Writer, s: string, terminator: byte, charset: string -> seq<byte>, tail: seq<byte>)
    requires terminator !in charset(s)
    ensures var w' := WriteTerminatorString(w, s, terminator, charset);
            ReadUntil(w'.data + tail, Index(w), terminator) == Some((charset(s), Index(w')))
  {
    var w' := WriteTerminatorString(w, s, terminator, charset);
    var data := w'.data + tail;
    assert data[Index(w)..Index(w') - 1] == charset(s);
    ReadUntilSpan(data, Index(w), Index(w') - 1, terminator);
  }

  lemma {:induction false} ReadUntilSpan(data: seq<byte>, pos: nat, stop: nat, terminator: byte)
    requires pos <= stop < |data| && data[stop] == terminator
    requires terminator !in data[pos..stop]
    ensures ReadUntil(data, pos, terminator) == Some((data[pos..stop], stop + 1))
    decreases stop - pos
  {
    if pos < stop {
      assert data[pos] == data[pos..stop][0];
      assert data[pos + 1..stop] == data[pos..stop][1..];
      ReadUntilSpan(data, pos + 1, stop, terminator);
      assert data[pos..stop] == [data[pos]] + data[pos + 1..stop];
    }
  }
}
