# FrogLord WAD archive, data writer and map polygon: a Dafny model

This project models the core of FrogLord's handling of Frogger's WAD
archives, in Dafny 4.11, and proves properties of the model.

- **WAD archive** (`WADFile`). An archive is a stream of records, each made of:
  - a 16-byte header: resource id, file type, payload size and a padding int;
  - then the payload.

  A resource id of -1 ends the stream.
  - **Loading** checks whether each payload is compressed and unpacks it if so. It then picks the resource variant from the file type and the registry name (MAP, VLO, MOF holder, demo or dummy). A MOF holder's parent is the registry's parent override, or else the last complete MOF loaded so far in this archive. Finally the variant parses the contents.
  - **Saving** writes every entry back in list order. The payload is packed exactly when the entry was loaded compressed. The stream ends with -1 and twelve zero bytes.
  - **Entry helpers**: `isDummy`, `getDisplayName` and `setVLO`.
- **`DataWriter`**: the append-only byte cursor that saving writes through. It covers `writeByte`, `writeBytes`, `writeNull`, `jumpTo`, `writeInt` (in the writer's byte order, little-endian by default) and `writeTerminatorString`.
- **`MAPPolygon`**: the on-disk polygon record, where a triangle carries one extra padding short, and its Wavefront `.obj` face line.

The parts the archive only calls out to are fields of one `Env` value, an uninterpreted function each. These are:
- the resource registry;
- the PP20 codec (detect, unpack, pack);
- each variant's own `load`, `save`, `isIncomplete` and `isDummy`.

Modules, one per file:

| file | module | models |
|---|---|---|
| `wrappers.dfy` | `Wrappers` | `Option`, `Result` |
| `bytes.dfy` | `Bytes` | byte and int types, `ByteBuffer` int/short images in both byte orders, 32-bit wrap-around |
| `datawriter.dfy` | `DataWriter` | `DataWriter` |
| `datareader.dfy` | `DataReader` | the reading cursor that `load` uses (its mirror) |
| `wad_model.dfy` | `WadModel` | entries, variants, `Env`, type dispatch, MOF parent choice |
| `wad_decode.dfy` | `WadDecode` | `WADFile.load`, in the order it reads and fails, and as a fold over framed records |
| `wad_encode.dfy` | `WadEncode` | `WADFile.save` and the byte layout it produces |
| `wad_readback.dfy` | `WadReadBack` | the saved layout frames back into the saved records |
| `wad_roundtrip.dfy` | `WadRoundTrip` | save then load |
| `wad_entry.dfy` | `WadEntryOps` | `isDummy`, `getDisplayName`, `setVLO` |
| `mappolygon.dfy` | `MapPolygon` | `MAPPolygon` load/save, `toObjFaceCommand`, `getOrderId` |

Behaviours of the loader and saver worth stating on their own:
- **Unknown id or failed unpack.** An unknown resource id, or a compressed payload that fails to unpack, aborts the whole load, because both happen before the `try` (WADFile.java:61-69).
- **Parse failure.** A variant that fails to parse stays in the entry, marked `Failed`, and loading goes on: the entry is added to the list before `load` is called inside the `try` (WADFile.java:107-122).
- **Dummy size.** A dummy is sized to the unpacked contents (`data.length` after unpacking), not to the stored payload size (WADFile.java:102).
- **Typed formats switched off.** The switch that turns typed variants off is a field of `Env`. When it is off, every record becomes a dummy. The code has no branch that assigns the file in that case (WADFile.java:75-105).
- **The compression flag after a round trip.** Saving reuses each entry's stored flag. Loading again re-detects the flag from the payload, so it survives a round trip only when the codec cooperates (`WadRoundTrip.SaveThenLoad`, `WadRoundTrip.PlainMistakenForPacked`).

## Model

| member | source | states |
|---|---|---|
| `DataWriter.NewWriter` | src/net/highwayfrogs/editor/file/writer/DataWriter.java:18-25 | a new writer has written nothing and is little-endian |
| `DataWriter.IndexCountsWrites` | src/net/highwayfrogs/editor/file/writer/DataWriter.java:49-55 | the writer index is the number of bytes written: after a run of writes it has grown by their total, and the bytes are those writes in order |
| `DataWriter.WriteByte` | src/net/highwayfrogs/editor/file/writer/DataWriter.java:61-67 | exactly one byte is appended; the earlier bytes and the byte order are unchanged |
| `DataWriter.WriteBytes` | src/net/highwayfrogs/editor/file/writer/DataWriter.java:73-79 | the bytes are appended in order after the earlier ones, and the index grows by their count |
| `DataWriter.WriteNull` | src/net/highwayfrogs/editor/file/writer/DataWriter.java:31-33 | a negative amount fails (as `new byte[amount]` does); otherwise exactly `amount` zero bytes are appended and nothing else changes |
| `DataWriter.JumpTo` | src/net/highwayfrogs/editor/file/writer/DataWriter.java:39-43 | fails exactly when the address is before the index; otherwise the index becomes the address, the gap is zero bytes and earlier bytes are unchanged |
| `DataWriter.WriteInt` | src/net/highwayfrogs/editor/file/writer/DataWriter.java:85-88 | four bytes are appended after the earlier ones, and read in the writer's byte order they are the int again |
| `DataWriter.WriteShort` | src/net/highwayfrogs/editor/file/map/poly/polygon/MAPPolygon.java:44-45 | two bytes are appended after the earlier ones, and read as a signed short they are the padding value again |
| `DataWriter.WriteTerminatorString` | src/net/highwayfrogs/editor/file/writer/DataWriter.java:103-106 | the string's encoded bytes, then exactly one terminator byte, are appended after the earlier bytes |
| `DataWriter.WriteNullTerminatedString` | src/net/highwayfrogs/editor/file/writer/DataWriter.java:94-96 | the one-argument form ends the string with the null byte |
| `DataReader.TerminatorStringReadsBack` | src/net/highwayfrogs/editor/file/writer/DataWriter.java:103-106 | a terminated string reads back, up to its terminator, as the string's bytes, whenever the terminator is not among them |
| `DataReader.ReadIntAfterWriteInt` | src/net/highwayfrogs/editor/file/writer/DataWriter.java:85-88 | the four bytes `writeInt` appends read back as the same int in the same byte order, whatever follows them |
| `Bytes.Int32ByteOrder` | src/net/highwayfrogs/editor/file/writer/DataWriter.java:85-88 | little-endian puts the least significant byte first, big-endian puts it last, and each order is the other reversed |
| `Bytes.Int32RoundTrip` | src/net/highwayfrogs/editor/file/writer/DataWriter.java:85-88 | every int32's 4-byte image decodes back to it, in either byte order |
| `Bytes.Int32BytesOfDecode` | src/net/highwayfrogs/editor/file/writer/DataWriter.java:85-88 | every 4 bytes are the image of the int they decode to, so the image is a bijection |
| `WadDecode.ReadHeader` | src/net/highwayfrogs/editor/file/WADFile.java:57-59 | the header is read exactly when 12 bytes remain; the type and size are the first two ints there, and the padding int is skipped whatever it holds |
| `WadDecode.ReadRecord` | src/net/highwayfrogs/editor/file/WADFile.java:53-66 | a record reads exactly when its id can be read and is -1, or its header fits and `size` is non-negative and fits; -1 ends the stream; otherwise the id, type and size are the decoded ints, the payload is exactly the `size` bytes after the 16 header bytes, whatever the padding holds, and reading resumes right after them |
| `WadDecode.FrameFrom` | src/net/highwayfrogs/editor/file/WADFile.java:52-66 | no framed record has the terminator id: framing stops at the first -1 |
| `WadDecode.Resolve` | src/net/highwayfrogs/editor/file/WADFile.java:61-62 | the registry lookup succeeds exactly when the id is registered, and otherwise fails with that id |
| `WadDecode.LoadVariant` | src/net/highwayfrogs/editor/file/WADFile.java:107-122 | the variant is kept whatever happens; it is loaded exactly when its parse succeeds, and marked failed exactly when it does not |
| `WadDecode.LoadRecordTracksLast` | src/net/highwayfrogs/editor/file/WADFile.java:66-118 | a record loads exactly when its payload is plain or unpacks; then the last-complete-MOF accumulator stays equal to the last complete MOF of the entries loaded so far |
| `WadDecode.Decode` | src/net/highwayfrogs/editor/file/WADFile.java:44-126 | loading a whole archive fails when framing it fails, and otherwise equals the fold over its framed records |
| `WadDecode.Step` | src/net/highwayfrogs/editor/file/WADFile.java:61-118 | one record succeeds exactly when its id is registered and its payload unpacks |
| `WadDecode.DecodeFromStep` | src/net/highwayfrogs/editor/file/WADFile.java:52-123 | one turn of the loader reads one framed record and takes one fold step, and it fails wherever reading the record fails |
| `WadDecode.DecodeIsFramedFold` | src/net/highwayfrogs/editor/file/WADFile.java:44-126 | loading in the code's read-and-fail order equals framing the stream first and folding over its records; it fails whenever framing fails |
| `WadDecode.DecodeRecordsSucceeds` | src/net/highwayfrogs/editor/file/WADFile.java:61-69 | the fold succeeds exactly when every record's id is registered and every compressed payload unpacks |
| `WadDecode.DecodeRecordsIsExpected` | src/net/highwayfrogs/editor/file/WADFile.java:51-123 | a successful fold equals the reference definition, in which each record is built with the last complete MOF among the entries before it |
| `WadDecode.ExpectedHead` | src/net/highwayfrogs/editor/file/WADFile.java:107-110 | the first record's entry is appended after the entries already there |
| `WadDecode.ExpectedAt` | src/net/highwayfrogs/editor/file/WADFile.java:84-118 | entry `i` is record `i`'s entry, built after exactly the entries before it |
| `WadDecode.DecodeRecordsFacts` | src/net/highwayfrogs/editor/file/WADFile.java:51-123 | one entry per record in stream order; each has the record's id, type and detected compression flag, and its variant is built with the last complete MOF before it |
| `WadDecode.LastCompleteSnoc` | src/net/highwayfrogs/editor/file/WADFile.java:112-118 | appending an entry makes it the last complete MOF exactly when it is one |
| `WadModel.Dispatch` | src/net/highwayfrogs/editor/file/WADFile.java:75-104 | the variant kind for each tag and name, one if-and-only-if per kind; VLO tags come first, and with a ".MAP" name they give a map; anything else, or anything while typed formats are off, is a dummy |
| `WadModel.Shell` | src/net/highwayfrogs/editor/file/WADFile.java:77-104 | the new variant is unloaded and of the dispatched kind; only a MOF holder keeps the parent, with no VLO yet, and only a dummy keeps the length |
| `WadModel.ChooseParent` | src/net/highwayfrogs/editor/file/WADFile.java:84-98 | without an override the parent is the last complete MOF; with one it is the registry's file for the override name, or none when it cannot be found |
| `WadModel.LastCompleteIsLast` | src/net/highwayfrogs/editor/file/WADFile.java:112-118 | the tracked MOF is complete, no complete MOF comes after it, and there is none exactly when no complete MOF was loaded |
| `WadEncode.SaveEntry` | src/net/highwayfrogs/editor/file/WADFile.java:130-144 | an entry saves exactly when it is registered, has a file, and that file's own save succeeds, and then appends exactly its record image; otherwise it fails with the first of those that is missing, in the saver's order |
| `WadEncode.RecordWrite` | src/net/highwayfrogs/editor/file/WADFile.java:131-144 | the id, type and length ints, the four null bytes and the payload together append one record image |
| `WadEncode.SaveEntriesOk` | src/net/highwayfrogs/editor/file/WADFile.java:130-145 | saving the entries succeeds exactly when every entry is registered and has a file whose own save succeeds |
| `WadEncode.SaveEntriesImage` | src/net/highwayfrogs/editor/file/WADFile.java:130-145 | a successful save appends the records' images in list order |
| `WadEncode.Encode` | src/net/highwayfrogs/editor/file/WADFile.java:128-150 | the archive is the record images in list order, then -1 and twelve zero bytes; saving fails exactly when an entry is unregistered, has no file, or its file's own save fails (for example a variant kept as failed after its load threw) |
| `WadReadBack.ReadHeaderAt` | src/net/highwayfrogs/editor/file/WADFile.java:57-59 | a saved header reads back as the same type and size, and the padding is skipped |
| `WadReadBack.ReadRecordAt` | src/net/highwayfrogs/editor/file/WADFile.java:53-66 | a saved record reads back as the same record, ending exactly where its image ends |
| `WadReadBack.ReadTrailerAt` | src/net/highwayfrogs/editor/file/WADFile.java:53-55 | the saved terminator id stops reading |
| `WadReadBack.StreamLaid` | src/net/highwayfrogs/editor/file/WADFile.java:130-149 | a stream image followed by -1 lays each record at the offset its predecessors' sizes add up to, with the terminator after the last |
| `WadReadBack.LaidChained` | src/net/highwayfrogs/editor/file/WADFile.java:52-66 | records laid out that way are read one after another, each ending where the next starts, up to the terminator |
| `WadReadBack.FrameChained` | src/net/highwayfrogs/editor/file/WADFile.java:52-66 | records read one after another up to the terminator are exactly what framing returns |
| `WadReadBack.StreamTailAt` | src/net/highwayfrogs/editor/file/WADFile.java:130-145 | a stream image is its first record's image followed by the rest of the stream |
| `WadReadBack.EncodedStream` | src/net/highwayfrogs/editor/file/WADFile.java:128-150 | the saved archive starts with the stream image and the terminator id |
| `WadReadBack.EncodeThenFrame` | src/net/highwayfrogs/editor/file/WADFile.java:128-150 | what the saver writes frames back into exactly the records it wrote, whatever bytes follow the trailer, when no entry uses -1 as its id |
| `WadRoundTrip.EncodeThenDecode` | src/net/highwayfrogs/editor/file/WADFile.java:44-150 | loading a saved archive, with any bytes after it, is the fold over exactly the saved records |
| `WadRoundTrip.EncodeThenDecodeEntries` | src/net/highwayfrogs/editor/file/WADFile.java:44-150 | loading a saved archive fails exactly when a saved payload looks compressed but does not unpack; otherwise it gives one entry per saved entry, with the same id and type, the re-detected compression flag and the variant built after the entries before it |
| `WadRoundTrip.SaveThenLoad` | src/net/highwayfrogs/editor/file/WADFile.java:44-150 | when the codec gives each payload back, saving and loading keeps every id, type and compression flag, and rebuilds each file from exactly the bytes the original saved |
| `WadRoundTrip.PlainMistakenForPacked` | src/net/highwayfrogs/editor/file/WADFile.java:67-69 | an uncompressed entry whose saved bytes look compressed comes back marked compressed, because the flag is re-detected on load |
| `WadEntryOps.IsDummy` | src/net/highwayfrogs/editor/file/WADFile.java:216-218 | an entry without a file is a dummy; an entry holding a MOF is a dummy exactly when that MOF reports itself one; an entry holding anything else is not |
| `WadEntryOps.DecodedDummy` | src/net/highwayfrogs/editor/file/WADFile.java:216-218 | a loaded entry always has a file, so it is a dummy exactly when its type dispatched to a MOF that reports itself a dummy |
| `WadEntryOps.DisplayName` | src/net/highwayfrogs/editor/file/WADFile.java:224-230 | a dummy shows "Empty" without a registry lookup; otherwise the reserved dummy file name shows as "Imported MOF File" and any other registry name as itself, while a missing registry entry or a null name fails, each exactly in its own case |
| `WadEntryOps.DisplayNameIsRegistryName` | src/net/highwayfrogs/editor/file/WADFile.java:224-230 | the registry name is shown as it is exactly when the entry is not a dummy and the name is not the reserved dummy file name |
| `WadEntryOps.DisplayNameHidesDummyName` | src/net/highwayfrogs/editor/file/WADFile.java:228-229 | the reserved dummy file name is never shown, provided it differs from both fixed labels "Imported MOF File" and "Empty"; when it equals one of them, that label is still shown |
| `WadEntryOps.DisplayNameSource` | src/net/highwayfrogs/editor/file/WADFile.java:224-230 | a shown name is "Empty", "Imported MOF File" or the registry name |
| `WadEntryOps.WithVlo` | src/net/highwayfrogs/editor/file/WADFile.java:184-186 | a MOF holder now draws on the given archive and keeps its parent and load state; any other entry, including one without a file, is unchanged |
| `WadEntryOps.SetVlo` | src/net/highwayfrogs/editor/file/WADFile.java:182-188 | every MOF holder of the archive draws on the given archive afterwards, and every other entry is unchanged |
| `MapPolygon.Save` | src/net/highwayfrogs/editor/file/map/poly/polygon/MAPPolygon.java:41-46 | a polygon record is two bytes per vertex, plus two padding bytes exactly for a triangle; earlier bytes are unchanged |
| `MapPolygon.Load` | src/net/highwayfrogs/editor/file/map/poly/polygon/MAPPolygon.java:35-39 | loading succeeds exactly when the record fits, and consumes exactly its size; each vertex is the unsigned short stored at its place, the padding of a triangle is the signed short after the vertices, and any other polygon's padding is 0 |
| `MapPolygon.LoadSaveRoundTrip` | src/net/highwayfrogs/editor/file/map/poly/polygon/MAPPolygon.java:35-46 | saving then loading with the same vertex count gives the polygon back; the padding survives for a triangle and is 0 otherwise; exactly the written bytes are consumed |
| `MapPolygon.SaveLoadedRoundTrip` | src/net/highwayfrogs/editor/file/map/poly/polygon/MAPPolygon.java:35-46 | saving a loaded polygon writes back exactly the bytes that were loaded, the triangle's padding short included, whatever it held |
| `Bytes.Int16BytesOfDecode` | src/net/highwayfrogs/editor/file/map/poly/polygon/MAPPolygon.java:38-45 | every two bytes are the image of the signed short they read as, so the padding short re-encodes to the bytes it was read from |
| `Bytes.Uint16BytesOfDecode` | src/net/highwayfrogs/editor/file/map/poly/polygon/MAPPolygon.java:35-45 | every two bytes are the image of the unsigned short they read as |
| `MapPolygon.OrderId` | src/net/highwayfrogs/editor/file/map/poly/polygon/MAPPolygon.java:66-68 | a polygon's `.obj` order is always 0 |
| `MapPolygon.FaceLoopMatchesReference` | src/net/highwayfrogs/editor/file/map/poly/polygon/MAPPolygon.java:53-58 | the loop from the last vertex down to the first writes field `j` as vertex `n-1-j` plus one, with the counter's `(j+1)`-th value as texture (or 0 without a counter); it advances the counter once per field when textures are shown |
| `MapPolygon.ToObjFaceCommand` | src/net/highwayfrogs/editor/file/map/poly/polygon/MAPPolygon.java:52-60 | the face line is the rendering of those reference fields; the counter moves by the vertex count when textures are shown, and is untouched otherwise |
| `MapPolygon.FaceCommandShape` | src/net/highwayfrogs/editor/file/map/poly/polygon/MAPPolygon.java:53-57 | the line starts with "f" and has one space-separated field per vertex; it has one "/" per vertex exactly when textures are shown, and none otherwise |
| `MapPolygon.DecimalRoundTrip` | src/net/highwayfrogs/editor/file/map/poly/polygon/MAPPolygon.java:55 | a vertex number is printed in decimal digits that read back as the number |
| `MapPolygon.IntToStringSeparatorFree` | src/net/highwayfrogs/editor/file/map/poly/polygon/MAPPolygon.java:55-57 | a printed number contains neither a space nor a "/", so the fields of a face line stay apart |

## Left out

- **Compression codec**: PP20 packing, unpacking and detection are uninterpreted functions of `Env`. Their laws appear only as per-entry conditions (`WadRoundTrip.Recoverable`), never as axioms.
- **Variants' own code**: each variant's `load`, `save`, `isIncomplete` and `isDummy` (MOF, VLO, MAP, demo, dummy) are uninterpreted. A parsed variant keeps only an opaque `Parsed` value. A variant's `save` may fail (`Env.save` gives no bytes), which stands for the exception WADFile.java:136 lets escape; which variants fail, and why, is variant code.
- **Registry and MWD plumbing**:
  - `getResourceEntry`, `getMofParentOverrides`, `getGameFile` and `WADEntry.getFileEntry` are lookup functions of `Env`.
  - `getResourceEntry` and `getFileEntry` are taken to be the same id-to-entry map.
  - `getGameFile` is modelled only as whether a file is registered for the id. The registry's type check of that file is not modelled.
  - The MWD maps that `setFile` fills are not modelled.
- **Cosmetic side effects**:
  - the SHA-1 hash and `FroggerVersionComparison`, because they only record a hash;
  - the map theme, because it is only passed on to MOF holders;
  - `CURRENT_FILE_NAME`, the console messages and stack traces, because they are only diagnostics.
- **`exportAlternateFormat`**: it is file-system and GUI work.
- **`MAPPolygon.getCenterOfPolygon`**: it is floating-point averaging. `MAPController` is out for the same reason as the GUI.
- **Receiver I/O**: the writer's receiver is an in-memory byte sequence, so the `IOException`-to-`RuntimeException` wrapping in `DataWriter` cannot occur.
- **Reader and vertex block**: the Java source of `DataReader` and `MAPPrimitive` is not among the modelled files.
  - The reader is modelled as the mirror of the writer: reading past the end or a negative length fails.
  - The polygon's vertex block is modelled as one unsigned 16-bit index per vertex. This is a choice: the element type is declared in `MAPPrimitive`, and the only use in the source that names it (`for (short vertice : …)` in MAPController.java:391, 400 and 409) reads it as a signed `short`. With signed vertices, a stored index of 0x8000 or more would print at MAPPolygon.java:55 as `vertex + 1` of -32767 to 0. The model prints 32769 to 65536 instead (`MapPolygon.FaceFields`). Loading and saving move the same two bytes either way, so the round trips hold under both readings.
  - `writeShort` and `readShort` are modelled as the 2-byte analogues of `writeInt` and `readInt`.
- **Constants**: `VLOArchive.WAD_TYPE`, `MOFHolder.MOF_ID`, `MOFHolder.MAP_MOF_ID`, `DemoFile.TYPE_ID`, `Constants.DUMMY_FILE_NAME` and `Constants.ENABLE_WAD_FORMATS` are defined outside the files modelled here. They are fields of `Env`, and the properties hold for every value.
- **Fixed constants**: `Constants.INTEGER_SIZE` and `Constants.NULL_BYTE` are also defined outside the modelled files. They are taken to be 4 and 0 (`DataWriter.IntegerSize`, `DataWriter.NullByte`).
- **Charset**: `String.getBytes()` is a function parameter, since the platform charset is not visible.
- **Override resolution during a load**: `getGameFile` for a MOF parent override (WADFile.java:91) is a fixed `Env` lookup for the whole load. In the code, `setFile` (WADFile.java:109, 236-240) registers each new file in the MWD maps before the next record is read, so an override may resolve to an earlier record of the same archive, even one that failed to parse. The model does not show that.
- **Null registry name in the override lookup**: `WadModel.OverrideFor` takes an entry without a registry name to have no parent override. WADFile.java:87 instead calls `getMofParentOverrides().get(null)`. That returns a null-key mapping if the map holds one, and throws outside the try for a map that rejects null keys. The map's class is defined outside the modelled files, so neither outcome is modelled.
- **Partial saves**: a save that fails part-way throws, and the bytes already written to the receiver are not modelled; the model only reports the error.
- `WadReadBack.EncodeThenFrame`, `WadRoundTrip.EncodeThenDecode`, `WadRoundTrip.EncodeThenDecodeEntries` and `WadRoundTrip.SaveThenLoad` require that no saved entry uses -1 as its resource id. Such an entry would end the stream early on reload, and the model does not state what comes back then.
- `WadRoundTrip.SaveThenLoad`: the rebuilt files equal the originals only as far as each variant's `load` inverts its `save`; that is variant code, and it is not modelled.
