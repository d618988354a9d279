/** Reading a WAD archive (`WADFile.load`). Each record is a 16-byte header
    (resource id, file type, payload size, an ignored padding int) followed
    by the payload; a resource id of -1 ends the stream. A payload that the
    codec recognises as compressed is unpacked, a variant is chosen for it,
    and the variant parses it. A truncated stream, an id the registry does
    not know, or a payload that fails to unpack aborts the whole load; a
    variant that fails to parse is kept, marked failed, and loading goes on. */
module WadDecode {
  import opened Wrappers
  import opened Bytes
  import opened DataReader
  import opened WadModel

  /** One framed record, before the registry or the codec is consulted. */
  datatype RawRecord = RawRecord(resourceId: int32, fileType: int32, payload: seq<byte>)

  datatype DecodeError =
    | ReadFailed(cause: ReadError)
    | UnknownResource(resourceId: int32)
    | UnpackFailed(resourceId: int32)

  // ---- framing ----

  /** The part of a record header after the resource id. */
  datatype Header = Header(fileType: int32, size: int32)

  /** Reads the file type and the payload size, then skips the padding int. */
  function ReadHeader(r: Reader): (res: Result<(Header, Reader), DecodeError>)
    ensures res.Ok? <==> r.pos + 12 <= |r.data|
    ensures res.Ok? ==> res.value.1 == r.(pos := r.pos + 12)
    ensures res.Ok? ==> res.value.0.fileType == DecodeInt32(r.data[r.pos..r.pos + 4], r.endian)
    ensures res.Ok? ==> res.value.0.size == DecodeInt32(r.data[r.pos + 4..r.pos + 8], r.endian)
  {
    match ReadInt(r)
    case Err(cause) => Err(ReadFailed(cause))
    case Ok((fileType, r1)) =>
      match ReadInt(r1)
      case Err(cause) => Err(ReadFailed(cause))
      case Ok((size, r2)) =>
        match SkipInt(r2)
        case Err(cause) => Err(ReadFailed(cause))
        case Ok(r3) => Ok((Header(fileType, size), r3))
  }

  /** The int stored `offset` bytes after the reader's position. */
  function IntAt(r: Reader, offset: nat): int32
    requires r.pos + offset + 4 <= |r.data|
  {
    DecodeInt32(r.data[r.pos + offset..r.pos + offset + 4], r.endian)
  }

  /** `raw` is what the 16 bytes at `r` say, and `r'` is just past its
      `size` payload bytes, which are `raw`'s payload. */
  predicate HeaderHolds(r: Reader, raw: RawRecord, r': Reader)
  {
    && r.pos + 16 + |raw.payload| <= |r.data|
    && r'.pos == r.pos + 16 + |raw.payload|
    && raw.resourceId == IntAt(r, 0)
    && raw.fileType == IntAt(r, 4)
    && |raw.payload| == IntAt(r, 8)
    && raw.payload == r.data[r.pos + 16..r'.pos]
  }

  /** One record at `r`: `None` at the terminator id, otherwise the id,
      the header and exactly `size` payload bytes. The padding int is
      skipped whatever it holds. */
  function ReadRecord(r: Reader): (res: Result<Option<(RawRecord, Reader)>, DecodeError>)
    ensures res.Ok? <==>
              r.pos + 4 <= |r.data| &&
              (IntAt(r, 0) == Terminator || (r.pos + 16 <= |r.data| && 0 <= IntAt(r, 8) && r.pos + 16 + IntAt(r, 8) <= |r.data|))
    ensures res.Ok? && res.value.None? <==> r.pos + 4 <= |r.data| && IntAt(r, 0) == Terminator
    ensures res.Ok? && res.value.Some? ==>
              var (raw, r') := res.value.value;
              && raw.resourceId != Terminator
              && r'.data == r.data && r'.endian == r.endian && r.pos + 16 <= r'.pos <= |r.data|
              && HeaderHolds(r, raw, r')
  {
    match ReadInt(r)
    case Err(cause) => Err(ReadFailed(cause))
    case Ok((id, r1)) =>
      if id == Terminator then Ok(None)
      else
        match ReadHeader(r1)
        case Err(e) => Err(e)
        case Ok((header, r2)) =>
          match ReadBytes(r2, header.size)
          case Err(cause) => Err(ReadFailed(cause))
          case Ok((payload, r3)) => Ok(Some((RawRecord(id, header.fileType, payload), r3)))
  }

  /** A record is read when its id, header and payload each are. */
  lemma ReadRecordOf(r: Reader, raw: RawRecord, r1: Reader, r2: Reader, r3: Reader)
    requires raw.resourceId != Terminator && |raw.payload| < 0x8000_0000
    requires ReadInt(r) == Ok((raw.resourceId, r1))
    requires ReadHeader(r1) == Ok((Header(raw.fileType, |raw.payload|), r2))
    requires r2.pos + |raw.payload| <= |r2.data| && raw.payload == r2.data[r2.pos..r2.pos + |raw.payload|]
    requires r3 == r2.(pos := r2.pos + |raw.payload|)
    ensures ReadRecord(r) == Ok(Some((raw, r3)))
  {
  }

  /** The records from `r` up to the terminator, which is not one of them. */
  function FrameFrom(r: Reader): (res: Result<seq<RawRecord>, DecodeError>)
    ensures res.Ok? ==> forall i :: 0 <= i < |res.value| ==> res.value[i].resourceId != Terminator
    decreases |r.data| - r.pos
  {
    match ReadRecord(r)
    case Err(e) => Err(e)
    case Ok(None) => Ok([])
    case Ok(Some((raw, r'))) =>
      match FrameFrom(r')
      case Err(e) => Err(e)
      case Ok(rest) =>
        assert forall i :: 0 < i < |rest| + 1 ==> ([raw] + rest)[i] == rest[i - 1];
        Ok([raw] + rest)
  }

  /** Framing continues after a record with the records that follow it. */
  lemma FrameCons(r: Reader, raw: RawRecord, r': Reader, rest: seq<RawRecord>)
    requires ReadRecord(r) == Ok(Some((raw, r')))
    requires FrameFrom(r') == Ok(rest)
    ensures FrameFrom(r) == Ok([raw] + rest)
  {
  }

  // ---- one record ----

  /** The registry's display name for `id`; null when the id is unknown or
      has no name. */
  function NameOf(env: Env, id: int32): Option<string>
  {
    match env.resourceEntry(id)
    case Some(fe) => fe.displayName
    case None => None
  }

  predicate Resolves(env: Env, raw: RawRecord)
  {
    env.resourceEntry(raw.resourceId).Some?
  }

  /** The payload is plain, or it is compressed and unpacks. */
  predicate Unpacks(env: Env, raw: RawRecord)
  {
    env.isCompressed(raw.payload) ==> env.unpack(raw.payload).Some?
  }

  /** The bytes the variant parses: the payload, unpacked when compressed. */
  function Contents(env: Env, raw: RawRecord): seq<byte>
    requires Unpacks(env, raw)
  {
    if env.isCompressed(raw.payload) then env.unpack(raw.payload).value else raw.payload
  }

  function Resolve(env: Env, id: int32): (res: Result<FileEntry, DecodeError>)
    ensures res.Ok? <==> env.resourceEntry(id).Some?
    ensures res.Ok? ==> res.value.displayName == NameOf(env, id)
    ensures res.Err? ==> res.error == UnknownResource(id)
  {
    match env.resourceEntry(id)
    case Some(fe) => Ok(fe)
    case None => Err(UnknownResource(id))
  }

  /** The variant's own `load`: it either parses or is kept as failed. */
  function LoadVariant(env: Env, shell: GameFile, data: seq<byte>): (f: GameFile)
    ensures f.WithState(shell.state) == shell
    ensures f.state.Loaded? <==> env.parse(shell, data).Some?
    ensures f.state.Loaded? ==> f.state.parsed == env.parse(shell, data).value
    ensures f.state.Failed? <==> env.parse(shell, data).None?
  {
    match env.parse(shell, data)
    case Some(p) => shell.WithState(Loaded(p))
    case None => shell.WithState(Failed)
  }

  /** The entry for a record whose registry name is `name`, when the last
      complete MOF so far is `last`: the record's id, type and detected
      compression, and the variant its type and name select, built with
      its parent (for a MOF) or payload length (for a dummy) and parsed
      from the unpacked contents. */
  function Build(env: Env, name: Option<string>, raw: RawRecord, last: Option<nat>): WadEntry
    requires Unpacks(env, raw)
  {
    var data := Contents(env, raw);
    var shell := Shell(Dispatch(env, raw.fileType, name), ChooseParent(env, name, last), |data|);
    WadEntry(raw.resourceId, raw.fileType, env.isCompressed(raw.payload), Some(LoadVariant(env, shell, data)))
  }

  /** The loader's step for the record at position `index`: a payload that
      is compressed but does not unpack is fatal; otherwise the entry is
      built, and it becomes the last complete MOF when it is one. */
  function LoadRecord(env: Env, name: Option<string>, raw: RawRecord, index: nat, last: Option<nat>)
    : (res: Result<(WadEntry, Option<nat>), DecodeError>)
    ensures res.Ok? <==> Unpacks(env, raw)
    ensures res.Err? ==> res.error == UnpackFailed(raw.resourceId)
  {
    if !Unpacks(env, raw) then Err(UnpackFailed(raw.resourceId))
    else
      var entry := Build(env, name, raw, last);
      Ok((entry, if IsCompleteEntry(env, entry) then Some(index) else last))
  }

  /** The loader's accumulator stays the last complete MOF of the entries
      loaded so far: if it is that before a record, it is that after the
      record's entry is appended. */
  lemma LoadRecordTracksLast(env: Env, name: Option<string>, raw: RawRecord, before: seq<WadEntry>, last: Option<nat>)
    requires last == LastComplete(env, before)
    ensures LoadRecord(env, name, raw, |before|, last).Ok? <==> Unpacks(env, raw)
    ensures LoadRecord(env, name, raw, |before|, last).Ok? ==>
              var (entry, last') := LoadRecord(env, name, raw, |before|, last).value;
              last' == LastComplete(env, before + [entry])
  {
    if Unpacks(env, raw) {
      LastCompleteSnoc(env, before, LoadRecord(env, name, raw, |before|, last).value.0);
    }
  }

  // ---- the loader, in the order it reads and fails ----

  function DecodeFrom(env: Env, r: Reader, entries: seq<WadEntry>, last: Option<nat>)
    : (res: Result<seq<WadEntry>, DecodeError>)
    decreases |r.data| - r.pos
  {
    match ReadInt(r)
    case Err(cause) => Err(ReadFailed(cause))
    case Ok((id, r1)) =>
      if id == Terminator then Ok(entries)
      else
        match ReadHeader(r1)
        case Err(e) => Err(e)
        case Ok((header, r2)) =>
          var fileEntry :- Resolve(env, id);
          match ReadBytes(r2, header.size)
          case Err(cause) => Err(ReadFailed(cause))
          case Ok((payload, r3)) =>
            var (entry, last') :- LoadRecord(env, fileEntry.displayName, RawRecord(id, header.fileType, payload), |entries|, last);
            DecodeFrom(env, r3, entries + [entry], last')
  }

  /** `WADFile.load` on a whole archive, read little-endian from the start,
      with no complete MOF seen yet. */
  function Decode(env: Env, data: seq<byte>): (res: Result<seq<WadEntry>, DecodeError>)
    ensures var frames := FrameFrom(Reader(data, 0, LittleEndian));
            && (frames.Err? ==> res.Err?)
            && (frames.Ok? ==> res == DecodeRecords(env, frames.value, [], None))
  {
    DecodeIsFramedFold(env, Reader(data, 0, LittleEndian), [], None);
    DecodeFrom(env, Reader(data, 0, LittleEndian), [], None)
  }

  // ---- the same load as a fold over framed records ----

  /** One record of the fold: resolve its id, then load it. */
  function Step(env: Env, raw: RawRecord, index: nat, last: Option<nat>)
    : (res: Result<(WadEntry, Option<nat>), DecodeError>)
    ensures res.Ok? <==> Resolves(env, raw) && Unpacks(env, raw)
    ensures res.Ok? ==> res == LoadRecord(env, NameOf(env, raw.resourceId), raw, index, last)
  {
    var fileEntry :- Resolve(env, raw.resourceId);
    LoadRecord(env, fileEntry.displayName, raw, index, last)
  }

  function DecodeRecords(env: Env, raws: seq<RawRecord>, entries: seq<WadEntry>, last: Option<nat>)
    : (res: Result<seq<WadEntry>, DecodeError>)
    decreases |raws|
  {
    if raws == [] then Ok(entries)
    else match Step(env, raws[0], |entries|, last)
      case Err(e) => Err(e)
      case Ok((entry, last')) => DecodeRecords(env, raws[1..], entries + [entry], last')
  }

  /** One turn of the loader is one framed record and one fold step; the
      loader fails wherever framing fails. */
  lemma DecodeFromStep(env: Env, r: Reader, entries: seq<WadEntry>, last: Option<nat>)
    ensures ReadRecord(r).Err? ==> DecodeFrom(env, r, entries, last).Err?
    ensures ReadRecord(r) == Ok(None) ==> DecodeFrom(env, r, entries, last) == Ok(entries)
    ensures ReadRecord(r).Ok? && ReadRecord(r).value.Some? ==>
              var (raw, r') := ReadRecord(r).value.value;
              DecodeFrom(env, r, entries, last)
                == match Step(env, raw, |entries|, last)
                   case Err(e) => Err(e)
                   case Ok((entry, last')) => DecodeFrom(env, r', entries + [entry], last')
  {
    var f1 := ReadInt(r);
    if f1.Ok? && f1.value.0 != Terminator {
      var h := ReadHeader(f1.value.1);
      if h.Ok? {
        var p := ReadBytes(h.value.1, h.value.0.size);
        if p.Ok? {
          assert ReadRecord(r) == Ok(Some((RawRecord(f1.value.0, h.value.0.fileType, p.value.0), p.value.1)));
        }
      }
    }
  }

  /** Reading in the loader's order and failing early is the same as framing
      the stream first and folding over its records; when framing fails,
      the loader fails too. */
  lemma {:induction false} DecodeIsFramedFold(env: Env, r: Reader, entries: seq<WadEntry>, last: Option<nat>)
    ensures FrameFrom(r).Ok? ==> DecodeFrom(env, r, entries, last) == DecodeRecords(env, FrameFrom(r).value, entries, last)
    ensures FrameFrom(r).Err? ==> DecodeFrom(env, r, entries, last).Err?
    decreases |r.data| - r.pos
  {
    DecodeFromStep(env, r, entries, last);
    var record := ReadRecord(r);
    if record.Ok? && record.value.Some? {
      var (raw, r') := record.value.value;
      var step := Step(env, raw, |entries|, last);
      if step.Ok? {
        DecodeIsFramedFold(env, r', entries + [step.value.0], step.value.1);
        var rest := FrameFrom(r');
        if rest.Ok? {
          assert ([raw] + rest.value)[1..] == rest.value;
        }
      }
    }
  }

  // ---- what the fold produces ----

  /** Reference definition of entry `e` decoded from `raw` after the entries
      `before`: the id, type and detected compression of the record, and
      the variant chosen for the record's type and name, built with the
      last complete MOF among `before` and parsed from the contents. */
  predicate Decoded(env: Env, raw: RawRecord, before: seq<WadEntry>, e: WadEntry)
    requires Unpacks(env, raw)
  {
    e == Build(env, NameOf(env, raw.resourceId), raw, LastComplete(env, before))
  }

  /** The fold succeeds exactly when every record resolves in the registry
      and, when compressed, unpacks. */
  lemma {:induction false} DecodeRecordsSucceeds(env: Env, raws: seq<RawRecord>, entries: seq<WadEntry>, last: Option<nat>)
    ensures DecodeRecords(env, raws, entries, last).Ok? <==>
              forall i :: 0 <= i < |raws| ==> Resolves(env, raws[i]) && Unpacks(env, raws[i])
    decreases |raws|
  {
    if raws != [] {
      var raw := raws[0];
      if Resolves(env, raw) && Unpacks(env, raw) {
        var (entry, last') := Step(env, raw, |entries|, last).value;
        DecodeRecordsSucceeds(env, raws[1..], entries + [entry], last');
        if !DecodeRecords(env, raws[1..], entries + [entry], last').Ok? {
          var k :| 0 <= k < |raws[1..]| && !(Resolves(env, raws[1..][k]) && Unpacks(env, raws[1..][k]));
          assert raws[k + 1] == raws[1..][k];
        } else {
          forall i | 0 <= i < |raws|
            ensures Resolves(env, raws[i]) && Unpacks(env, raws[i])
          {
            if i > 0 {
              assert raws[i] == raws[1..][i - 1];
            }
          }
        }
      }
    }
  }

  /** Appending an entry moves the last complete MOF to it exactly when it
      is one. */
  lemma LastCompleteSnoc(env: Env, entries: seq<WadEntry>, e: WadEntry)
    ensures LastComplete(env, entries + [e]) == if IsCompleteEntry(env, e) then Some(|entries|) else LastComplete(env, entries)
  {
    assert (entries + [e])[..|entries|] == entries;
  }

  /** Reference definition of the fold: every record in turn, each built
      with the last complete MOF among the entries before it. */
  function Expected(env: Env, raws: seq<RawRecord>, entries: seq<WadEntry>): (out: seq<WadEntry>)
    requires forall i :: 0 <= i < |raws| ==> Unpacks(env, raws[i])
    ensures |out| == |entries| + |raws| && out[..|entries|] == entries
    decreases |raws|
  {
    if raws == [] then entries
    else
      var entry := Build(env, NameOf(env, raws[0].resourceId), raws[0], LastComplete(env, entries));
      var out := Expected(env, raws[1..], entries + [entry]);
      assert out[..|entries|] == out[..|entries| + 1][..|entries|];
      out
  }

  /** The loader's accumulator always equals the reference one, so a
      successful fold produces the reference entries. */
  lemma {:induction false} DecodeRecordsIsExpected(env: Env, raws: seq<RawRecord>, entries: seq<WadEntry>, last: Option<nat>)
    requires last == LastComplete(env, entries)
    requires DecodeRecords(env, raws, entries, last).Ok?
    ensures forall i :: 0 <= i < |raws| ==> Unpacks(env, raws[i])
    ensures DecodeRecords(env, raws, entries, last).value == Expected(env, raws, entries)
    decreases |raws|
  {
    DecodeRecordsSucceeds(env, raws, entries, last);
    if raws != [] {
      var raw := raws[0];
      var (entry, last') := Step(env, raw, |entries|, last).value;
      LastCompleteSnoc(env, entries, entry);
      DecodeRecordsIsExpected(env, raws[1..], entries + [entry], last');
    }
  }

  /** The first record's entry is built after the entries already there. */
  lemma ExpectedHead(env: Env, raws: seq<RawRecord>, entries: seq<WadEntry>)
    requires forall k :: 0 <= k < |raws| ==> Unpacks(env, raws[k])
    requires raws != []
    ensures var out := Expected(env, raws, entries);
            Decoded(env, raws[0], out[..|entries|], out[|entries|])
  {
    var entry := Build(env, NameOf(env, raws[0].resourceId), raws[0], LastComplete(env, entries));
    var out := Expected(env, raws[1..], entries + [entry]);
    assert out[..|entries|] == entries by {
      assert out[..|entries|] == out[..|entries| + 1][..|entries|];
    }
  }

  /** Entry `i` of the reference fold is record `i`'s entry built after the
      entries before it. */
  lemma {:induction false} ExpectedAt(env: Env, raws: seq<RawRecord>, entries: seq<WadEntry>, i: nat)
    requires forall k :: 0 <= k < |raws| ==> Unpacks(env, raws[k])
    requires i < |raws|
    ensures var out := Expected(env, raws, entries);
            Decoded(env, raws[i], out[..|entries| + i], out[|entries| + i])
    decreases i
  {
    if i == 0 {
      ExpectedHead(env, raws, entries);
    } else {
      var entry := Build(env, NameOf(env, raws[0].resourceId), raws[0], LastComplete(env, entries));
      var entries' := entries + [entry];
      ExpectedAt(env, raws[1..], entries', i - 1);
      assert raws[1..][i - 1] == raws[i];
      assert |entries'| + (i - 1) == |entries| + i;
    }
  }

  /** Each entry of the reference fold is the record's entry built after
      the entries before it. */
  lemma ExpectedFacts(env: Env, raws: seq<RawRecord>, entries: seq<WadEntry>)
    requires forall i :: 0 <= i < |raws| ==> Unpacks(env, raws[i])
    ensures var out := Expected(env, raws, entries);
            forall i :: 0 <= i < |raws| ==> Decoded(env, raws[i], out[..|entries| + i], out[|entries| + i])
  {
    forall i | 0 <= i < |raws|
      ensures var out := Expected(env, raws, entries);
              Decoded(env, raws[i], out[..|entries| + i], out[|entries| + i])
    {
      ExpectedAt(env, raws, entries, i);
    }
  }

  /** In a successful fold, each record's entry is built with the last
      complete MOF among the entries before it. */
  lemma DecodeRecordsFacts(env: Env, raws: seq<RawRecord>, entries: seq<WadEntry>, last: Option<nat>)
    requires last == LastComplete(env, entries)
    requires DecodeRecords(env, raws, entries, last).Ok?
    ensures forall i :: 0 <= i < |raws| ==> Unpacks(env, raws[i])
    ensures var out := DecodeRecords(env, raws, entries, last).value;
            && |out| == |entries| + |raws| && out[..|entries|] == entries
            && forall i :: 0 <= i < |raws| ==> Decoded(env, raws[i], out[..|entries| + i], out[|entries| + i])
  {
    DecodeRecordsIsExpected(env, raws, entries, last);
    ExpectedFacts(env, raws, entries);
  }
}
