/** The per-entry helpers of a WAD archive: whether an entry is an empty
    slot, the name it is shown under, and pointing every MOF of the
    archive at one VLO archive. */
module WadEntryOps {
  import opened Wrappers
  import opened WadModel
  import opened WadDecode

  // ---- isDummy ----

  /** `WADEntry.isDummy`: the entry has no file, or holds a MOF that
      reports itself a dummy. Only a MOF holder can be a dummy with a file. */
  function IsDummy(env: Env, e: WadEntry): (d: bool)
    ensures e.file.None? ==> d
    ensures e.file.Some? && e.file.value.Kind() != MofKind ==> !d
    ensures e.file.Some? && e.file.value.MofHolder? ==> (d <==> env.isDummyMof(e.file.value))
  {
    e.file.None? || (e.file.value.MofHolder? && env.isDummyMof(e.file.value))
  }

  /** An entry the loader built always has a file, so it is a dummy exactly
      when its type dispatched to a MOF that reports itself a dummy. */
  lemma DecodedDummy(env: Env, raw: RawRecord, before: seq<WadEntry>, e: WadEntry)
    requires Unpacks(env, raw)
    requires Decoded(env, raw, before, e)
    ensures IsDummy(env, e) <==>
              Dispatch(env, raw.fileType, NameOf(env, raw.resourceId)) == MofKind && env.isDummyMof(e.file.value)
  {
    assert e.file.value.Kind() == Dispatch(env, raw.fileType, NameOf(env, raw.resourceId));
  }

  // ---- getDisplayName ----

  /** `getDisplayName` dereferences the registry entry and its name; either
      may be missing. */
  datatype NameError = NoRegistryEntry | NullName

  /** "Empty" for a dummy, without consulting the registry; otherwise the
      registry name, shown as "Imported MOF File" when it is the reserved
      dummy file name. */
  function DisplayName(env: Env, e: WadEntry): (r: Result<string, NameError>)
    ensures IsDummy(env, e) ==> r == Ok(EmptyLabel)
    ensures !IsDummy(env, e) ==> (r == Err(NoRegistryEntry) <==> env.resourceEntry(e.resourceId).None?)
    ensures !IsDummy(env, e) ==> (r == Err(NullName) <==> NameOf(env, e.resourceId).None? && env.resourceEntry(e.resourceId).Some?)
    ensures !IsDummy(env, e) && NameOf(env, e.resourceId) == Some(env.dummyFileName) ==> r == Ok(ImportedMofLabel)
    ensures forall n :: !IsDummy(env, e) && NameOf(env, e.resourceId) == Some(n) && n != env.dummyFileName ==> r == Ok(n)
  {
    if IsDummy(env, e) then Ok(EmptyLabel)
    else
      match env.resourceEntry(e.resourceId)
      case None => Err(NoRegistryEntry)
      case Some(fe) =>
        match fe.displayName
        case None => Err(NullName)
        case Some(name) => Ok(if name == env.dummyFileName then ImportedMofLabel else name)
  }

  /** The shown name is the registry name itself exactly when the entry is
      not a dummy and its name is not the reserved one. */
  lemma DisplayNameIsRegistryName(env: Env, e: WadEntry, name: string)
    requires NameOf(env, e.resourceId) == Some(name)
    requires name != ImportedMofLabel && name != EmptyLabel
    ensures DisplayName(env, e) == Ok(name) <==> !IsDummy(env, e) && name != env.dummyFileName
  {
  }

  /** The reserved dummy file name is never shown, unless it coincides with
      one of the two labels. */
  lemma DisplayNameHidesDummyName(env: Env, e: WadEntry)
    requires env.dummyFileName != ImportedMofLabel && env.dummyFileName != EmptyLabel
    ensures DisplayName(env, e).Ok? ==> DisplayName(env, e).value != env.dummyFileName
  {
  }

  /** A displayed name is one of the two labels or a registry name. */
  lemma DisplayNameSource(env: Env, e: WadEntry)
    ensures DisplayName(env, e).Ok? ==>
              DisplayName(env, e).value in {EmptyLabel, ImportedMofLabel}
              || Some(DisplayName(env, e).value) == NameOf(env, e.resourceId)
  {
  }

  // ---- setVLO ----

  predicate HoldsMof(e: WadEntry)
  {
    e.file.Some? && e.file.value.MofHolder?
  }

  /** One entry after `setVLO`: a MOF holder now draws on `vlo` (which may
      be null); any other entry, including one without a file, is left as
      it was. */
  function WithVlo(e: WadEntry, vlo: Option<VloHandle>): (e': WadEntry)
    ensures e'.resourceId == e.resourceId && e'.fileType == e.fileType && e'.compressed == e.compressed
    ensures HoldsMof(e') <==> HoldsMof(e)
    ensures HoldsMof(e) ==> e'.file.value.vloFile == vlo
    ensures HoldsMof(e) ==> e'.file.value.parent == e.file.value.parent && e'.file.value.state == e.file.value.state
    ensures !HoldsMof(e) ==> e' == e
  {
    if HoldsMof(e) then e.(file := Some(e.file.value.(vloFile := vlo))) else e
  }

  /** `WADFile.setVLO`: every MOF holder of the archive now draws on `vlo`;
      every other entry, and everything but that field, stays as it was. */
  method SetVlo(es: seq<WadEntry>, vlo: Option<VloHandle>) returns (out: seq<WadEntry>)
    ensures |out| == |es|
    ensures forall i :: 0 <= i < |es| ==> out[i] == WithVlo(es[i], vlo)
    ensures forall i :: 0 <= i < |es| ==> HoldsMof(out[i]) ==> out[i].file.value.vloFile == vlo
    ensures forall i :: 0 <= i < |es| ==> !HoldsMof(es[i]) ==> out[i] == es[i]
  {
    out := [];
    var i := 0;
    while i < |es|
      invariant 0 <= i <= |es|
      invariant |out| == i
      invariant forall k :: 0 <= k < i ==> out[k] == WithVlo(es[k], vlo)
    {
      out := out + [WithVlo(es[i], vlo)];
      i := i + 1;
    }
  }
}
