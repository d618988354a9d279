/** Reading the saved layout back: whatever the saver writes frames back,
    record by record, into exactly the records it wrote. This is the half
    of the archive's round trip that does not depend on the variants. */
module WadReadBack {
  import opened Wrappers
  import opened Bytes
  import opened DataWriter
  import opened DataReader
  import opened WadModel
  import opened WadDecode
  import opened WadEncode

  /** A header image reads back as the same file type and size, and the
      reader skips the padding after them. */
  lemma ReadHeaderAt(data: seq<byte>, pos: nat, fileType: int32, size: int32)
    requires At(data, pos, HeaderImage(fileType, size, LittleEndian))
    ensures ReadHeader(Reader(data, pos, LittleEndian)) == Ok((Header(fileType, size), Reader(data, pos + 12, LittleEndian)))
  {
    AtSplit(data, pos, Int32Bytes(fileType, LittleEndian) + Int32Bytes(size, LittleEndian), Zeros(IntegerSize));
    AtSplit(data, pos, Int32Bytes(fileType, LittleEndian), Int32Bytes(size, LittleEndian));
    ReadIntAt(data, pos, LittleEndian, fileType);
    ReadIntAt(data, pos + 4, LittleEndian, size);
  }

  /** The id, header and payload of a record image, each read back on
      its own. */
  lemma RecordImageParts(raw: RawRecord, data: seq<byte>, pos: nat)
    requires Fits(raw)
    requires At(data, pos, RecordImage(raw, LittleEndian))
    ensures ReadInt(Reader(data, pos, LittleEndian)) == Ok((raw.resourceId, Reader(data, pos + 4, LittleEndian)))
    ensures ReadHeader(Reader(data, pos + 4, LittleEndian)) == Ok((Header(raw.fileType, |raw.payload|), Reader(data, pos + 16, LittleEndian)))
    ensures pos + 16 + |raw.payload| <= |data| && raw.payload == data[pos + 16..pos + 16 + |raw.payload|]
  {
    var id := Int32Bytes(raw.resourceId, LittleEndian);
    var header := HeaderImage(raw.fileType, |raw.payload|, LittleEndian);
    AtSplit(data, pos, id + header, raw.payload);
    AtSplit(data, pos, id, header);
    ReadIntAt(data, pos, LittleEndian, raw.resourceId);
    ReadHeaderAt(data, pos + 4, raw.fileType, |raw.payload|);
  }

  /** A record image reads back as the record it was made from, and the
      reader stops right after it. */
  lemma ReadRecordAt(raw: RawRecord, data: seq<byte>, pos: nat, next: nat)
    requires Fits(raw) && raw.resourceId != Terminator
    requires At(data, pos, RecordImage(raw, LittleEndian))
    requires next == pos + 16 + |raw.payload|
    ensures ReadRecord(Reader(data, pos, LittleEndian)) == Ok(Some((raw, Reader(data, next, LittleEndian))))
  {
    RecordImageParts(raw, data, pos);
    ReadRecordOf(Reader(data, pos, LittleEndian), raw, Reader(data, pos + 4, LittleEndian), Reader(data, pos + 16, LittleEndian), Reader(data, next, LittleEndian));
  }

  /** The terminator id reads back as the end of the records. */
  lemma ReadTrailerAt(data: seq<byte>, pos: nat)
    requires At(data, pos, Int32Bytes(Terminator, LittleEndian))
    ensures ReadRecord(Reader(data, pos, LittleEndian)) == Ok(None)
  {
    Int32RoundTrip(Terminator, LittleEndian);
  }

  /** Records laid out one after another from `pos`, each fitting and none
      using the terminator id, with the terminator id after the last. */
  predicate Laid(data: seq<byte>, pos: nat, raws: seq<RawRecord>)
    decreases |raws|
  {
    if raws == [] then At(data, pos, Int32Bytes(Terminator, LittleEndian))
    else
      && Fits(raws[0]) && raws[0].resourceId != Terminator
      && At(data, pos, RecordImage(raws[0], LittleEndian))
      && Laid(data, pos + 16 + |raws[0].payload|, raws[1..])
  }

  /** The records read one after another from `r`, then the terminator
      id. */
  predicate Chained(r: Reader, raws: seq<RawRecord>)
    decreases |raws|
  {
    if raws == [] then ReadRecord(r) == Ok(None)
    else
      var next := r.(pos := r.pos + 16 + |raws[0].payload|);
      ReadRecord(r) == Ok(Some((raws[0], next))) && Chained(next, raws[1..])
  }

  /** The stream image followed by the terminator id lays the records
      out. */
  lemma {:induction false} StreamLaid(raws: seq<RawRecord>, data: seq<byte>, pos: nat)
    requires forall i :: 0 <= i < |raws| ==> Fits(raws[i]) && raws[i].resourceId != Terminator
    requires At(data, pos, StreamImage(raws, LittleEndian) + Int32Bytes(Terminator, LittleEndian))
    ensures Laid(data, pos, raws)
    decreases |raws|
  {
    if raws == [] {
      assert StreamImage(raws, LittleEndian) + Int32Bytes(Terminator, LittleEndian) == Int32Bytes(Terminator, LittleEndian);
    } else {
      StreamTailAt(raws, data, pos, Int32Bytes(Terminator, LittleEndian));
      StreamLaid(raws[1..], data, pos + 16 + |raws[0].payload|);
    }
  }

  /** A record read from `r`, then a chain from where the reader stopped,
      is a chain from `r`. */
  lemma ChainedCons(r: Reader, next: Reader, raws: seq<RawRecord>, rest: seq<RawRecord>)
    requires raws != [] && rest == raws[1..]
    requires next == r.(pos := r.pos + 16 + |raws[0].payload|)
    requires ReadRecord(r) == Ok(Some((raws[0], next)))
    requires Chained(next, rest)
    ensures Chained(r, raws)
  {
  }

  /** Laid-out records read back one after another. */
  lemma {:induction false} LaidChained(data: seq<byte>, pos: nat, raws: seq<RawRecord>)
    requires Laid(data, pos, raws)
    ensures Chained(Reader(data, pos, LittleEndian), raws)
    decreases |raws|
  {
    if raws == [] {
      ReadTrailerAt(data, pos);
    } else {
      var next := pos + 16 + |raws[0].payload|;
      LaidChained(data, next, raws[1..]);
      ReadRecordAt(raws[0], data, pos, next);
      ChainedCons(Reader(data, pos, LittleEndian), Reader(data, next, LittleEndian), raws, raws[1..]);
    }
  }

  /** Framing a chain of records gives them back. */
  lemma {:induction false} FrameChained(r: Reader, raws: seq<RawRecord>)
    requires Chained(r, raws)
    ensures FrameFrom(r) == Ok(raws)
    decreases |raws|
  {
    if raws != [] {
      var next := r.(pos := r.pos + 16 + |raws[0].payload|);
      FrameChained(next, raws[1..]);
      FrameCons(r, raws[0], next, raws[1..]);
      DropCons(raws, 0);
    }
  }

  /** A non-empty stream image is its first record, then the rest of the
      stream; `after` is whatever follows the stream. */
  lemma StreamTailAt(raws: seq<RawRecord>, data: seq<byte>, pos: nat, after: seq<byte>)
    requires raws != [] && forall i :: 0 <= i < |raws| ==> Fits(raws[i])
    requires At(data, pos, StreamImage(raws, LittleEndian) + after)
    ensures At(data, pos, RecordImage(raws[0], LittleEndian))
    ensures At(data, pos + 16 + |raws[0].payload|, StreamImage(raws[1..], LittleEndian) + after)
  {
    var img := RecordImage(raws[0], LittleEndian);
    var rest := StreamImage(raws[1..], LittleEndian) + after;
    StreamSplit(raws, after);
    AtSplit(data, pos, img, rest);
  }

  lemma StreamSplit(raws: seq<RawRecord>, after: seq<byte>)
    requires raws != [] && forall i :: 0 <= i < |raws| ==> Fits(raws[i])
    ensures StreamImage(raws, LittleEndian) + after
            == RecordImage(raws[0], LittleEndian) + (StreamImage(raws[1..], LittleEndian) + after)
  {
    AppendAssoc(RecordImage(raws[0], LittleEndian), StreamImage(raws[1..], LittleEndian), after);
  }

  /** What the saver writes frames back into exactly the records it wrote,
      provided no entry uses the terminator as its id; whatever follows
      the terminator id is never read. */
  lemma EncodeThenFrame(env: Env, es: seq<WadEntry>, tail: seq<byte>)
    requires forall i :: 0 <= i < |es| ==> env.resourceEntry(es[i].resourceId).Some? && Saves(env, es[i])
    requires forall i :: 0 <= i < |es| ==> es[i].resourceId != Terminator
    ensures Encode(env, es).Ok?
    ensures FrameFrom(Reader(Encode(env, es).value + tail, 0, LittleEndian)) == Ok(RawsOf(env, es))
  {
    EncodedStream(env, es);
    var raws := RawsOf(env, es);
    var data := Encode(env, es).value + tail;
    AtExtend(Encode(env, es).value, tail, 0, StreamImage(raws, LittleEndian) + Int32Bytes(Terminator, LittleEndian));
    StreamLaid(raws, data, 0);
    LaidChained(data, 0, raws);
    FrameChained(Reader(data, 0, LittleEndian), raws);
  }

  /** The saved archive starts with the stream image and the terminator
      id. */
  lemma EncodedStream(env: Env, es: seq<WadEntry>)
    requires forall i :: 0 <= i < |es| ==> env.resourceEntry(es[i].resourceId).Some? && Saves(env, es[i])
    ensures Encode(env, es).Ok?
    ensures At(Encode(env, es).value, 0, StreamImage(RawsOf(env, es), LittleEndian) + Int32Bytes(Terminator, LittleEndian))
  {
    assert forall i :: 0 <= i < |es| ==> Savable(env, es[i]);
    var data := Encode(env, es).value;
    var stream := StreamImage(RawsOf(env, es), LittleEndian);
    var t := Int32Bytes(Terminator, LittleEndian);
    assert data == stream + (t + Zeros(TrailerPadding));
    AtWhole(data);
    AtSplit(data, 0, stream, t + Zeros(TrailerPadding));
    AtSplit(data, |stream|, t, Zeros(TrailerPadding));
    AtJoin(data, 0, stream, t);
  }
}
