/** The entities of a WAD archive and the collaborators it consults: the
    resource registry, the PP20 codec and each resource variant's own
    load/save, all given as uninterpreted functions in an `Env`. Also the
    two decisions the loader makes per record: which variant to build,
    and which earlier MOF a new MOF inherits from. */
module WadModel {
  import opened Wrappers
  import opened Bytes

  /** The resource id that ends the record stream. */
  const Terminator: int32 := -1
  /** A second tag that also denotes a VLO archive (or a map, by name). */
  const LegacyVloType: int32 := 1
  /** The name suffix that turns a VLO-typed record into a map. */
  const MapSuffix: string := ".MAP"
  const EmptyLabel: string := "Empty"
  const ImportedMofLabel: string := "Imported MOF File"

  /** A Java `byte[]`: its length fits in an `int`. */
  type ByteArray = s: seq<byte> | |s| < 0x8000_0000

  /** The type ids the variants declare for themselves. */
  datatype TypeTags = TypeTags(vloType: int32, mofType: int32, mapMofType: int32, demoType: int32)

  /** A registry entry; the display name may be null. */
  datatype FileEntry = FileEntry(displayName: Option<string>)

  /** What a MOF holder inherits from: an earlier entry of the same archive
      (the last complete MOF), or a game file found through the registry
      by a parent override. */
  datatype ParentRef = EarlierEntry(index: nat) | RegisteredFile(resourceId: int32)

  /** The VLO archive a MOF draws its textures from. */
  datatype VloHandle = VloHandle(resourceId: int32)

  /** A variant's parsed fields; the archive never looks inside them. */
  datatype Parsed = Parsed(fields: seq<int>)

  datatype LoadState = Unloaded | Loaded(parsed: Parsed) | Failed

  datatype Kind = MapKind | VloKind | MofKind | DemoKind | DummyKind

  datatype GameFile =
    | MapFile(state: LoadState)
    | VloArchive(state: LoadState)
    | MofHolder(parent: Option<ParentRef>, vloFile: Option<VloHandle>, state: LoadState)
    | DemoFile(state: LoadState)
    | DummyFile(length: nat, state: LoadState)
  {
    function Kind(): Kind
    {
      match this
      case MapFile(_) => MapKind
      case VloArchive(_) => VloKind
      case MofHolder(_, _, _) => MofKind
      case DemoFile(_) => DemoKind
      case DummyFile(_, _) => DummyKind
    }

    function WithState(s: LoadState): GameFile
    {
      this.(state := s)
    }
  }

  /** One record of the archive; `compressed` is what was detected when the
      record was read, and is reused when it is written. */
  datatype WadEntry = WadEntry(resourceId: int32, fileType: int32, compressed: bool, file: Option<GameFile>)

  /** The collaborators of the loader and saver. `parentOverride` and
      `resourceIdByName` are the registry's name-keyed tables, and
      `hasGameFile(id)` says whether the registry holds a loaded file for
      `id`. `formatsEnabled` is the feature switch for building typed
      variants. */
  datatype Env = Env(
    tags: TypeTags,
    formatsEnabled: bool,
    dummyFileName: string,
    resourceEntry: int32 -> Option<FileEntry>,
    resourceIdByName: string -> Option<int32>,
    parentOverride: string -> Option<string>,
    hasGameFile: int32 -> bool,
    isCompressed: seq<byte> -> bool,
    unpack: seq<byte> -> Option<ByteArray>,
    pack: seq<byte> -> ByteArray,
    parse: (GameFile, seq<byte>) -> Option<Parsed>,
    save: GameFile -> Option<ByteArray>,
    isIncomplete: GameFile -> bool,
    isDummyMof: GameFile -> bool)

  // ---- dispatch ----

  predicate IsVloTag(tags: TypeTags, fileType: int32)
  {
    fileType == tags.vloType || fileType == LegacyVloType
  }

  predicate IsMofTag(tags: TypeTags, fileType: int32)
  {
    fileType == tags.mofType || fileType == tags.mapMofType
  }

  predicate HasMapSuffix(name: Option<string>)
  {
    name.Some? && |name.value| >= |MapSuffix| && name.value[|name.value| - |MapSuffix|..] == MapSuffix
  }

  /** The variant built for a record: VLO tags are checked first (a ".MAP"
      name makes a map), then MOF tags, then the demo tag; anything else,
      or any record while typed formats are switched off, is a dummy. */
  function Dispatch(env: Env, fileType: int32, name: Option<string>): (k: Kind)
    ensures k == MapKind <==> env.formatsEnabled && IsVloTag(env.tags, fileType) && HasMapSuffix(name)
    ensures k == VloKind <==> env.formatsEnabled && IsVloTag(env.tags, fileType) && !HasMapSuffix(name)
    ensures k == MofKind <==> env.formatsEnabled && !IsVloTag(env.tags, fileType) && IsMofTag(env.tags, fileType)
    ensures k == DemoKind <==> (env.formatsEnabled && !IsVloTag(env.tags, fileType) && !IsMofTag(env.tags, fileType)
                                && fileType == env.tags.demoType)
    ensures k == DummyKind <==> (!env.formatsEnabled
                                 || (!IsVloTag(env.tags, fileType) && !IsMofTag(env.tags, fileType)
                                     && fileType != env.tags.demoType))
  {
    if !env.formatsEnabled then DummyKind
    else if IsVloTag(env.tags, fileType) then (if HasMapSuffix(name) then MapKind else VloKind)
    else if IsMofTag(env.tags, fileType) then MofKind
    else if fileType == env.tags.demoType then DemoKind
    else DummyKind
  }

  /** The unloaded variant of kind `kind`; only a MOF keeps the parent and
      only a dummy keeps the payload length. */
  function Shell(kind: Kind, parent: Option<ParentRef>, length: nat): (f: GameFile)
    ensures f.Kind() == kind && f.state == Unloaded
    ensures f.MofHolder? ==> f.parent == parent && f.vloFile == None
    ensures f.DummyFile? ==> f.length == length
  {
    match kind
    case MapKind => MapFile(Unloaded)
    case VloKind => VloArchive(Unloaded)
    case MofKind => MofHolder(parent, None, Unloaded)
    case DemoKind => DemoFile(Unloaded)
    case DummyKind => DummyFile(length, Unloaded)
  }

  // ---- MOF parent chaining ----

  /** The override named for `name`, looked up only for a non-null name. */
  function OverrideFor(env: Env, name: Option<string>): Option<string>
  {
    if name.Some? then env.parentOverride(name.value) else None
  }

  /** The parent of a new MOF: with an override, the registry's file for
      the overriding name (none when it cannot be found); without one, the
      last complete MOF of this archive so far. */
  function ChooseParent(env: Env, name: Option<string>, lastComplete: Option<nat>): (p: Option<ParentRef>)
    ensures OverrideFor(env, name).None? ==> p == (if lastComplete.Some? then Some(EarlierEntry(lastComplete.value)) else None)
    ensures OverrideFor(env, name).Some? ==>
              (p.Some? <==> exists id :: env.resourceIdByName(OverrideFor(env, name).value) == Some(id) && env.hasGameFile(id))
    ensures OverrideFor(env, name).Some? && p.Some? ==>
              p == Some(RegisteredFile(env.resourceIdByName(OverrideFor(env, name).value).value))
  {
    match OverrideFor(env, name)
    case Some(other) =>
      (match env.resourceIdByName(other)
       case Some(id) => if env.hasGameFile(id) then Some(RegisteredFile(id)) else None
       case None => None)
    case None =>
      match lastComplete
      case Some(i) => Some(EarlierEntry(i))
      case None => None
  }

  /** A MOF holder that loaded without failing and reports itself complete. */
  predicate IsCompleteMof(env: Env, f: GameFile)
  {
    f.MofHolder? && f.state.Loaded? && !env.isIncomplete(f)
  }

  predicate IsCompleteEntry(env: Env, e: WadEntry)
  {
    e.file.Some? && IsCompleteMof(env, e.file.value)
  }

  /** Reference definition of the loader's accumulator: the index of the
      last complete MOF among `entries`, or none. */
  function LastComplete(env: Env, entries: seq<WadEntry>): Option<nat>
  {
    if entries == [] then None
    else if IsCompleteEntry(env, entries[|entries| - 1]) then Some(|entries| - 1)
    else LastComplete(env, entries[..|entries| - 1])
  }

  /** `LastComplete` names a complete MOF with no complete MOF after it, and
      is none exactly when there is no complete MOF at all. */
  lemma {:induction false} LastCompleteIsLast(env: Env, entries: seq<WadEntry>)
    ensures var r := LastComplete(env, entries);
            && (r.Some? ==> r.value < |entries| && IsCompleteEntry(env, entries[r.value]))
            && (r.Some? ==> forall j :: r.value < j < |entries| ==> !IsCompleteEntry(env, entries[j]))
            && (r.None? <==> forall j :: 0 <= j < |entries| ==> !IsCompleteEntry(env, entries[j]))
  {
    if entries != [] && !IsCompleteEntry(env, entries[|entries| - 1]) {
      var init := entries[..|entries| - 1];
      LastCompleteIsLast(env, init);
      assert forall j :: 0 <= j < |init| ==> init[j] == entries[j];
    }
  }
}
