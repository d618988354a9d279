/** Writing a WAD archive (`WADFile.save`): per entry, in list order, the
    resource id, the file type, the payload length, four zero bytes and the
    payload, which is the variant's saved bytes, packed when the entry was
    recorded as compressed. After the last entry come the terminator id -1
    and twelve zero bytes. */
module WadEncode {
  import opened Wrappers
  import opened Bytes
  import opened DataWriter
  import opened DataReader
  import opened WadModel
  import opened WadDecode

  /** The number of zero bytes after the terminator id. */
  const TrailerPadding: nat := 3 * IntegerSize

  /** The saver dereferences the entry's registry entry (for its name) and
      its file, either of which may be missing, and then runs the file's own
      save, which may throw. */
  datatype EncodeError = UnregisteredEntry(resourceId: int32) | NoFile(resourceId: int32) | SaveFailed(resourceId: int32)

  /** The entry has a file, and that file's own save succeeds. */
  predicate Saves(env: Env, e: WadEntry)
  {
    e.file.Some? && env.save(e.file.value).Some?
  }

  /** The bytes a file is stored as: what it saved, packed when the entry
      was read compressed. The flag is reused, never re-detected. */
  function Payload(env: Env, compressed: bool, saved: ByteArray): ByteArray
  {
    if compressed then env.pack(saved) else saved
  }

  predicate Savable(env: Env, e: WadEntry)
  {
    env.resourceEntry(e.resourceId).Some? && Saves(env, e)
  }

  /** The framed record an entry is written as. */
  function RawOf(env: Env, e: WadEntry): (raw: RawRecord)
    requires Saves(env, e)
    ensures |raw.payload| < 0x8000_0000
  {
    RawRecord(e.resourceId, e.fileType, Payload(env, e.compressed, env.save(e.file.value).value))
  }

  function RawsOf(env: Env, es: seq<WadEntry>): (raws: seq<RawRecord>)
    requires forall i :: 0 <= i < |es| ==> Saves(env, es[i])
    ensures |raws| == |es|
    ensures forall i :: 0 <= i < |es| ==> raws[i] == RawOf(env, es[i])
  {
    seq(|es|, i requires 0 <= i < |es| => RawOf(env, es[i]))
  }

  // ---- the byte layout ----

  predicate Fits(raw: RawRecord)
  {
    |raw.payload| < 0x8000_0000
  }

  /** The header after the id: file type, payload length, four zero bytes. */
  function HeaderImage(fileType: int32, size: int32, e: Endian): (img: seq<byte>)
    ensures |img| == 12
  {
    Int32Bytes(fileType, e) + Int32Bytes(size, e) + Zeros(IntegerSize)
  }

  /** Reference layout of one record: id, header, payload. */
  function RecordImage(raw: RawRecord, e: Endian): (img: seq<byte>)
    requires Fits(raw)
    ensures |img| == 16 + |raw.payload|
  {
    Int32Bytes(raw.resourceId, e) + HeaderImage(raw.fileType, |raw.payload|, e) + raw.payload
  }

  function StreamImage(raws: seq<RawRecord>, e: Endian): seq<byte>
    requires forall i :: 0 <= i < |raws| ==> Fits(raws[i])
  {
    if raws == [] then [] else RecordImage(raws[0], e) + StreamImage(raws[1..], e)
  }

  /** The terminator id followed by twelve zero bytes. */
  function TrailerImage(e: Endian): (img: seq<byte>)
    ensures |img| == 16
  {
    Int32Bytes(Terminator, e) + Zeros(TrailerPadding)
  }

  // ---- the saver ----

  function SaveEntry(env: Env, w: Writer, entry: WadEntry): (res: Result<Writer, EncodeError>)
    ensures res.Ok? <==> Savable(env, entry)
    ensures res.Err? ==> res.error == if env.resourceEntry(entry.resourceId).None? then UnregisteredEntry(entry.resourceId)
                                      else if entry.file.None? then NoFile(entry.resourceId)
                                      else SaveFailed(entry.resourceId)
    ensures res.Ok? ==> res.value == Writer(w.data + RecordImage(RawOf(env, entry), w.endian), w.endian)
  {
    var w1 := WriteInt(w, entry.resourceId);
    var w2 := WriteInt(w1, entry.fileType);
    if env.resourceEntry(entry.resourceId).None? then Err(UnregisteredEntry(entry.resourceId))
    else if entry.file.None? then Err(NoFile(entry.resourceId))
    else if env.save(entry.file.value).None? then Err(SaveFailed(entry.resourceId))
    else
      var payload := Payload(env, entry.compressed, env.save(entry.file.value).value);
      var w3 := WriteInt(w2, |payload|);
      var w4 := WriteNull(w3, IntegerSize).value;
      var w5 := WriteBytes(w4, payload);
      RecordWrite(w, RawOf(env, entry));
      Ok(w5)
  }

  /** The writes of one record append its image. */
  lemma RecordWrite(w: Writer, raw: RawRecord)
    requires Fits(raw)
    ensures WriteBytes(WriteNull(WriteInt(WriteInt(WriteInt(w, raw.resourceId), raw.fileType), |raw.payload|), IntegerSize).value, raw.payload)
            == Writer(w.data + RecordImage(raw, w.endian), w.endian)
  {
    var id := Int32Bytes(raw.resourceId, w.endian);
    var fileType := Int32Bytes(raw.fileType, w.endian);
    var size := Int32Bytes(|raw.payload|, w.endian);
    var header := HeaderImage(raw.fileType, |raw.payload|, w.endian);
    AppendAssoc(w.data + id, fileType + size, Zeros(IntegerSize));
    AppendAssoc(w.data + id, fileType, size);
    AppendAssoc(w.data, id, header);
    AppendAssoc(w.data, id + header, raw.payload);
  }

  function SaveEntries(env: Env, w: Writer, es: seq<WadEntry>): Result<Writer, EncodeError>
    decreases |es|
  {
    if es == [] then Ok(w)
    else
      var w1 :- SaveEntry(env, w, es[0]);
      SaveEntries(env, w1, es[1..])
  }

  /** The saver succeeds exactly when every entry is registered and has a
      file whose own save succeeds. */
  lemma {:induction false} SaveEntriesOk(env: Env, w: Writer, es: seq<WadEntry>)
    ensures SaveEntries(env, w, es).Ok? <==> forall i :: 0 <= i < |es| ==> Savable(env, es[i])
    decreases |es|
  {
    if es != [] {
      var first := SaveEntry(env, w, es[0]);
      if first.Ok? {
        assert SaveEntries(env, w, es) == SaveEntries(env, first.value, es[1..]);
        SaveEntriesOk(env, first.value, es[1..]);
      } else {
        assert SaveEntries(env, w, es).Err?;
      }
      SavableCons(env, es);
    }
  }

  lemma SavableCons(env: Env, es: seq<WadEntry>)
    requires es != []
    ensures (forall i :: 0 <= i < |es| ==> Savable(env, es[i])) <==>
              Savable(env, es[0]) && forall i :: 0 <= i < |es[1..]| ==> Savable(env, es[1..][i])
  {
    assert forall i :: 0 < i < |es| ==> es[i] == es[1..][i - 1];
  }

  lemma StreamOfEntries(env: Env, es: seq<WadEntry>, e: Endian)
    requires es != [] && forall i :: 0 <= i < |es| ==> Saves(env, es[i])
    ensures StreamImage(RawsOf(env, es), e) == RecordImage(RawOf(env, es[0]), e) + StreamImage(RawsOf(env, es[1..]), e)
  {
    assert RawsOf(env, es)[1..] == RawsOf(env, es[1..]);
  }

  /** A successful save writes the records in list order. */
  lemma {:induction false} SaveEntriesImage(env: Env, w: Writer, es: seq<WadEntry>)
    requires forall i :: 0 <= i < |es| ==> env.resourceEntry(es[i].resourceId).Some? && Saves(env, es[i])
    ensures SaveEntries(env, w, es) == Ok(Writer(w.data + StreamImage(RawsOf(env, es), w.endian), w.endian))
    decreases |es|
  {
    if es != [] {
      var img := RecordImage(RawOf(env, es[0]), w.endian);
      var w1 := Writer(w.data + img, w.endian);
      assert SaveEntry(env, w, es[0]) == Ok(w1);
      assert SaveEntries(env, w, es) == SaveEntries(env, w1, es[1..]);
      SaveEntriesImage(env, w1, es[1..]);
      StreamOfEntries(env, es, w.endian);
      AppendAssoc(w.data, img, StreamImage(RawsOf(env, es[1..]), w.endian));
    } else {
      assert RawsOf(env, es) == [];
      assert w.data + [] == w.data;
    }
  }

  /** `WADFile.save` into a fresh little-endian writer. The archive is the
      records in list order, then the trailer; saving fails exactly when
      some entry is unregistered, has no file, or its file's save fails. */
  function Encode(env: Env, es: seq<WadEntry>): (res: Result<seq<byte>, EncodeError>)
    ensures res.Ok? <==> forall i :: 0 <= i < |es| ==> Savable(env, es[i])
    ensures res.Ok? ==> res.value == StreamImage(RawsOf(env, es), LittleEndian) + TrailerImage(LittleEndian)
  {
    SaveEntriesOk(env, NewWriter(), es);
    var w :- SaveEntries(env, NewWriter(), es);
    SaveEntriesImage(env, NewWriter(), es);
    var stream := StreamImage(RawsOf(env, es), LittleEndian);
    assert [] + stream == stream;
    AppendAssoc(stream, Int32Bytes(Terminator, LittleEndian), Zeros(TrailerPadding));
    var w1 := WriteInt(w, Terminator);
    Ok(WriteNull(w1, TrailerPadding).value.data)
  }
}
