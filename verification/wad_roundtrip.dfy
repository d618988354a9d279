/** Saving an archive and loading it again. Framing always comes back
    exactly (`WadReadBack`); what the loader then rebuilds depends on the
    codec and on the registry, which are stated here as conditions on the
    entries rather than assumed. */
module WadRoundTrip {
  import opened Wrappers
  import opened Bytes
  import opened DataReader
  import opened WadModel
  import opened WadDecode
  import opened WadEncode
  import opened WadReadBack

  /** Loading a saved archive, with any bytes after its trailer, is the
      fold over exactly the records that were saved. */
  lemma EncodeThenDecode(env: Env, es: seq<WadEntry>, tail: seq<byte>)
    requires forall i :: 0 <= i < |es| ==> env.resourceEntry(es[i].resourceId).Some? && Saves(env, es[i])
    requires forall i :: 0 <= i < |es| ==> es[i].resourceId != Terminator
    ensures Encode(env, es).Ok?
    ensures Decode(env, Encode(env, es).value + tail) == DecodeRecords(env, RawsOf(env, es), [], None)
  {
    EncodeThenFrame(env, es, tail);
    DecodeIsFramedFold(env, Reader(Encode(env, es).value + tail, 0, LittleEndian), [], None);
  }

  /** The fold over the records of `es` fails exactly when some payload
      looks compressed but does not unpack; when it succeeds there is one
      entry per saved entry, with the same id and type, the compression
      flag re-detected from the payload, and the variant the loader builds
      for that record after the entries before it. */
  lemma FoldOfEntries(env: Env, es: seq<WadEntry>)
    requires forall i :: 0 <= i < |es| ==> env.resourceEntry(es[i].resourceId).Some? && Saves(env, es[i])
    ensures DecodeRecords(env, RawsOf(env, es), [], None).Ok? <==> forall i :: 0 <= i < |es| ==> Unpacks(env, RawOf(env, es[i]))
    ensures DecodeRecords(env, RawsOf(env, es), [], None).Ok? ==>
              var out := DecodeRecords(env, RawsOf(env, es), [], None).value;
              && |out| == |es|
              && forall i :: 0 <= i < |es| ==>
                   && out[i].resourceId == es[i].resourceId
                   && out[i].fileType == es[i].fileType
                   && out[i].compressed == env.isCompressed(RawOf(env, es[i]).payload)
                   && Unpacks(env, RawOf(env, es[i]))
                   && Decoded(env, RawOf(env, es[i]), out[..i], out[i])
  {
    var raws := RawsOf(env, es);
    DecodeRecordsSucceeds(env, raws, [], None);
    var d := DecodeRecords(env, raws, [], None);
    if d.Ok? {
      DecodeRecordsFacts(env, raws, [], None);
      assert d.value[..0] == [];
      forall i | 0 <= i < |es|
        ensures && d.value[i].resourceId == es[i].resourceId
                && d.value[i].fileType == es[i].fileType
                && d.value[i].compressed == env.isCompressed(RawOf(env, es[i]).payload)
                && Unpacks(env, RawOf(env, es[i]))
                && Decoded(env, RawOf(env, es[i]), d.value[..i], d.value[i])
      {
        assert raws[i] == RawOf(env, es[i]);
        assert Decoded(env, raws[i], d.value[..0 + i], d.value[0 + i]);
      }
    } else {
      var k :| 0 <= k < |raws| && !(Resolves(env, raws[k]) && Unpacks(env, raws[k]));
      assert raws[k] == RawOf(env, es[k]);
    }
  }

  /** Loading a saved archive fails exactly when some saved payload looks
      compressed but does not unpack; when it succeeds there is one entry
      per saved entry, with the same id and type, the compression flag
      re-detected from the saved payload, and the variant the loader
      builds for that record after the entries before it. */
  lemma EncodeThenDecodeEntries(env: Env, es: seq<WadEntry>, tail: seq<byte>)
    requires forall i :: 0 <= i < |es| ==> env.resourceEntry(es[i].resourceId).Some? && Saves(env, es[i])
    requires forall i :: 0 <= i < |es| ==> es[i].resourceId != Terminator
    ensures Encode(env, es).Ok?
    ensures Decode(env, Encode(env, es).value + tail).Ok? <==> forall i :: 0 <= i < |es| ==> Unpacks(env, RawOf(env, es[i]))
    ensures Decode(env, Encode(env, es).value + tail).Ok? ==>
              var out := Decode(env, Encode(env, es).value + tail).value;
              && |out| == |es|
              && forall i :: 0 <= i < |es| ==>
                   && out[i].resourceId == es[i].resourceId
                   && out[i].fileType == es[i].fileType
                   && out[i].compressed == env.isCompressed(RawOf(env, es[i]).payload)
                   && Unpacks(env, RawOf(env, es[i]))
                   && Decoded(env, RawOf(env, es[i]), out[..i], out[i])
  {
    EncodeThenDecode(env, es, tail);
    FoldOfEntries(env, es);
  }

  /** The codec hands a saved entry's bytes back unchanged: a packed payload
      is recognised as compressed and unpacks to what the variant saved,
      and a plain one is not mistaken for a compressed one. */
  predicate Recoverable(env: Env, e: WadEntry)
    requires Saves(env, e)
  {
    var bytes := env.save(e.file.value).value;
    if e.compressed then env.isCompressed(env.pack(bytes)) && env.unpack(env.pack(bytes)) == Some(bytes)
    else !env.isCompressed(bytes)
  }

  /** The variant the loader builds from `bytes` for an entry saved with
      id `id` and type `fileType`, after the entries `before`. */
  function Rebuilt(env: Env, id: int32, fileType: int32, bytes: seq<byte>, before: seq<WadEntry>): GameFile
  {
    var name := NameOf(env, id);
    LoadVariant(env, Shell(Dispatch(env, fileType, name), ChooseParent(env, name, LastComplete(env, before)), |bytes|), bytes)
  }

  /** When the codec hands every payload back, saving and loading keeps
      each entry's id, type and compression flag, and rebuilds each file
      from exactly the bytes the original file saved. */
  lemma SaveThenLoad(env: Env, es: seq<WadEntry>, tail: seq<byte>)
    requires forall i :: 0 <= i < |es| ==> env.resourceEntry(es[i].resourceId).Some? && Saves(env, es[i])
    requires forall i :: 0 <= i < |es| ==> es[i].resourceId != Terminator && Recoverable(env, es[i])
    ensures Encode(env, es).Ok? && Decode(env, Encode(env, es).value + tail).Ok?
    ensures var out := Decode(env, Encode(env, es).value + tail).value;
            && |out| == |es|
            && forall i :: 0 <= i < |es| ==>
                 out[i] == WadEntry(es[i].resourceId, es[i].fileType, es[i].compressed,
                                    Some(Rebuilt(env, es[i].resourceId, es[i].fileType, env.save(es[i].file.value).value, out[..i])))
  {
    forall i | 0 <= i < |es|
      ensures Unpacks(env, RawOf(env, es[i]))
    {
    }
    EncodeThenDecodeEntries(env, es, tail);
  }

  /** A plain entry whose saved bytes happen to look compressed comes back
      marked compressed: the flag is re-detected, not stored. */
  lemma PlainMistakenForPacked(env: Env, e: WadEntry, tail: seq<byte>)
    requires Savable(env, e) && e.resourceId != Terminator
    requires !e.compressed && env.isCompressed(env.save(e.file.value).value)
    requires env.unpack(env.save(e.file.value).value).Some?
    ensures Encode(env, [e]).Ok?
    ensures Decode(env, Encode(env, [e]).value + tail).Ok?
    ensures |Decode(env, Encode(env, [e]).value + tail).value| == 1
    ensures Decode(env, Encode(env, [e]).value + tail).value[0].compressed != e.compressed
  {
    EncodeThenDecodeEntries(env, [e], tail);
  }
}
