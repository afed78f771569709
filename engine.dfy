/**
 * Snapshot assembly (`build_snapshot`) and the lookups on a snapshot. From
 * one captured image the engine checks the tag header's footer and both pool
 * headers, reads the object and player pools, checks the guard words before
 * every bound object body, reads the player globals without any check, and
 * resolves the tag table. A failed header check or a single bad guard makes
 * the whole snapshot absent.
 */
module Engine {
  import opened Wrappers
  import opened Words
  import opened Handles
  import opened Memory
  import opened Entity
  import opened Layouts
  import opened Tags

  // Fixed addresses of the Xbox retail build.
  const HALO_OBJECT_POOL_HEADER_ADDR: u32 := 0x000B_9370
  const HALO_PLAYER_POOL_HEADER_ADDR: u32 := 0x0021_3C50
  const HALO_TAG_HEADER_ADDR: u32 := 0x003A_6000
  const HALO_PLAYER_GLOBALS_ADDR: u32 := 0x0021_4E00

  // Sanity-check words: "daeh", "liat" and "rncs" as little-endian bytes ("head", "tail" and "scnr" read big-endian).
  const DEAH: u32 := 1751474532
  const LIAT: u32 := 1952541036
  const RNCS: u32 := 1935896178

  /** The four-letter class code of an object's `data_type`. */
  function ObjectTypeString(dataType: u8): (r: string)
    ensures r == "UNKNOWN" <==> dataType == 10 || dataType > 11
    ensures r != "UNKNOWN" ==> |r| == 4
  {
    match dataType
    case 0 => "bipd"
    case 1 => "vehi"
    case 2 => "weap"
    case 3 => "eqip"
    case 4 => "garb"
    case 5 => "proj"
    case 6 => "scen"
    case 7 => "mach"
    case 8 => "ctrl"
    case 9 => "lifi"
    case 11 => "ssce"
    case _ => "UNKNOWN"
  }

  /** Distinct known object types get distinct codes. */
  lemma {:induction false} ObjectTypeStringInjective(a: u8, b: u8)
    requires ObjectTypeString(a) != "UNKNOWN" && ObjectTypeString(b) != "UNKNOWN"
    requires a != b
    ensures ObjectTypeString(a) != ObjectTypeString(b)
  {
  }

  datatype EngineSnapshot = EngineSnapshot(
    playerHeader: PoolHeader,
    playerEntries: seq<Option<PlayerDataEntry>>,
    objectHeader: PoolHeader,
    objectHeaderEntries: seq<Option<ObjectHeaderEntry>>,
    objectEntries: seq<Option<GameObject>>,
    playerGlobals: PlayersGlobals,
    tags: map<u32, seq<u8>>,
    tagEntries: map<u32, TagEntry>)

  /**
   * The image holds a record of the largest size at every fixed-up address, so
   * every read `build_snapshot` makes lies inside it (the 64 MiB capture
   * window does).
   */
  predicate Covers(img: Image)
  {
    |img.bytes| >= ADDRESS_LIMIT + GAME_OBJECT_SIZE
  }

  function TagHeaderAt(img: Image): TagHeader
    requires Covers(img)
  {
    DecodeTagHeader(Read(img, HALO_TAG_HEADER_ADDR, TAG_HEADER_SIZE))
  }

  function ObjectPoolHeaderAt(img: Image): PoolHeader
    requires Covers(img)
  {
    DecodePoolHeader(Read(img, HALO_OBJECT_POOL_HEADER_ADDR, POOL_HEADER_SIZE))
  }

  function PlayerPoolHeaderAt(img: Image): PoolHeader
    requires Covers(img)
  {
    DecodePoolHeader(Read(img, HALO_PLAYER_POOL_HEADER_ADDR, POOL_HEADER_SIZE))
  }

  function PlayersGlobalsAt(img: Image): PlayersGlobals
    requires Covers(img)
  {
    DecodePlayersGlobals(Read(img, HALO_PLAYER_GLOBALS_ADDR, PLAYERS_GLOBALS_SIZE))
  }

  /** The three header checks, in the order `build_snapshot` makes them. */
  predicate HeadersPass(img: Image)
    requires Covers(img)
  {
    TagHeaderAt(img).footer == RNCS && IsValid(ObjectPoolHeaderAt(img)) && IsValid(PlayerPoolHeaderAt(img))
  }

  /**
   * Once the headers pass, `build_snapshot` does not index a vector out of
   * bounds. Neither pool read meets an occupied slot at or past
   * `max_entries`. The object loop also stops before `max_entries`: either
   * `capacity` stays within it, or a guard mismatch below it returns first.
   */
  predicate CapacitiesFit(img: Image)
    requires Covers(img)
  {
    HeadersPass(img) ==>
      && OverflowSlotsEmpty(img, ObjectPoolHeaderAt(img), OBJECT_HEADER_ENTRY_SIZE)
      && OverflowSlotsEmpty(img, PlayerPoolHeaderAt(img), PLAYER_DATA_ENTRY_SIZE)
      && (ObjectPoolHeaderAt(img).capacity <= ObjectPoolHeaderAt(img).maxEntries ||
          AnyGuardMismatch(img, ObjectPoolHeaderAt(img), ObjectPoolEntries(img)))
  }

  function ObjectPoolEntries(img: Image): seq<Option<ObjectHeaderEntry>>
    requires Covers(img)
  {
    PoolEntries(img, ObjectPoolHeaderAt(img), OBJECT_HEADER_ENTRY_SIZE, DecodeObjectHeaderEntry)
  }

  function PlayerPoolEntries(img: Image): seq<Option<PlayerDataEntry>>
    requires Covers(img)
  {
    PoolEntries(img, PlayerPoolHeaderAt(img), PLAYER_DATA_ENTRY_SIZE, DecodePlayerDataEntry)
  }

  /** The fixed-up address of the object body a slot points at. */
  function BodyAddress(e: ObjectHeaderEntry): u32
  {
    FixPointer(e.objectAddress)
  }

  /** A slot is bound to a body when its address is non-zero and leaves room for the guard before it. */
  predicate HasBody(e: ObjectHeaderEntry)
  {
    BodyAddress(e) != 0 && BodyAddress(e) >= OBJECT_LIST_HEADER_SIZE
  }

  /** The 24-byte guard structure right before the body. */
  function GuardAt(img: Image, e: ObjectHeaderEntry): ObjectListHeader
    requires Covers(img) && HasBody(e)
  {
    DecodeObjectListHeader(Read(img, BodyAddress(e) - OBJECT_LIST_HEADER_SIZE, OBJECT_LIST_HEADER_SIZE))
  }

  predicate GuardIntact(g: ObjectListHeader)
  {
    g.headerHead == DEAH && g.headerTail == LIAT
  }

  /** The guard is intact iff the word at offset 0 is the head marker and the one at offset 20 the tail marker. */
  lemma {:induction false} GuardIntactIffBytes(s: seq<u8>)
    requires |s| == OBJECT_LIST_HEADER_SIZE
    ensures GuardIntact(DecodeObjectListHeader(s)) <==> U32At(s, 0) == 1751474532 && U32At(s, 20) == 1952541036
  {
  }

  /** An occupied slot bound to a body whose guard words are wrong. */
  predicate GuardMismatch(img: Image, entry: Option<ObjectHeaderEntry>)
    requires Covers(img)
  {
    entry.Some? && HasBody(entry.value) && !GuardIntact(GuardAt(img, entry.value))
  }

  /** The body decoded for a slot, when the slot is occupied and bound to a body. */
  function GameObjectOf(img: Image, entry: Option<ObjectHeaderEntry>): Option<GameObject>
    requires Covers(img)
  {
    if entry.Some? && HasBody(entry.value)
    then Some(DecodeGameObject(Read(img, BodyAddress(entry.value), GAME_OBJECT_SIZE)))
    else None
  }

  /** The object entries of the snapshot: the body of every bound slot below `capacity`. */
  function GameObjects(img: Image, h: PoolHeader, objects: seq<Option<ObjectHeaderEntry>>): seq<Option<GameObject>>
    requires Covers(img)
  {
    seq(|objects|, index requires 0 <= index < |objects| =>
          if index < h.capacity then GameObjectOf(img, objects[index]) else None)
  }

  /** Some slot below `capacity` (and within the entries) is bound to a body whose guard is wrong. */
  predicate AnyGuardMismatch(img: Image, h: PoolHeader, objects: seq<Option<ObjectHeaderEntry>>)
    requires Covers(img)
  {
    exists index :: 0 <= index < h.capacity && index < |objects| && GuardMismatch(img, objects[index])
  }

  /** A slot whose guard, if any, is intact and whose entry has been filled in. */
  predicate SlotDone(img: Image, entry: Option<ObjectHeaderEntry>, gameObject: Option<GameObject>)
    requires Covers(img)
  {
    !GuardMismatch(img, entry) && gameObject == GameObjectOf(img, entry)
  }

  /**
   * One iteration of the object loop: an empty or unbound slot yields no
   * body; a bound slot yields its body when both guard words are right and
   * reports a mismatch otherwise.
   */
  method ReadGameObject(img: Image, objectEntry: Option<ObjectHeaderEntry>) returns (guardOk: bool, gameObject: Option<GameObject>)
    requires Covers(img)
    ensures !guardOk <==> GuardMismatch(img, objectEntry)
    ensures guardOk ==> SlotDone(img, objectEntry, gameObject)
  {
    if objectEntry.None? { return true, None; }
    var objectAddress := FixPointer(objectEntry.value.objectAddress);
    if objectAddress != 0 && objectAddress >= OBJECT_LIST_HEADER_SIZE {
      var objectListHeaderPtr := objectAddress - OBJECT_LIST_HEADER_SIZE;
      var objectListHeader := DecodeObjectListHeader(Read(img, objectListHeaderPtr, OBJECT_LIST_HEADER_SIZE));
      assert objectListHeader == GuardAt(img, objectEntry.value);
      if !(objectListHeader.headerHead == DEAH && objectListHeader.headerTail == LIAT) {
        return false, None;
      }
      var body := DecodeGameObject(Read(img, objectAddress, GAME_OBJECT_SIZE));
      return true, Some(body);
    }
    return true, None;
  }

  /**
   * The object loop of `build_snapshot`: fills an array of `objects.len()`
   * empty entries in place, slot by slot up to `capacity`, and gives up on
   * the first bound slot whose guard words are wrong.
   */
  method ReadGameObjects(img: Image, h: PoolHeader, objects: seq<Option<ObjectHeaderEntry>>)
    returns (r: Option<seq<Option<GameObject>>>)
    requires Covers(img)
    requires h.capacity <= |objects| || AnyGuardMismatch(img, h, objects)
    ensures r.None? <==> AnyGuardMismatch(img, h, objects)
    ensures r.Some? ==> r.value == GameObjects(img, h, objects)
  {
    var gameObjectEntries := new Option<GameObject>[|objects|](_ => None);
    ghost var filled: seq<Option<GameObject>> := seq(|objects|, _ => None);
    for index := 0 to h.capacity
      invariant index <= |objects|
      invariant gameObjectEntries[..] == filled && |filled| == |objects|
      invariant forall k :: 0 <= k < index ==> SlotDone(img, objects[k], filled[k])
      invariant forall k :: index <= k < |filled| ==> filled[k] == None
    {
      // A mismatch below `|objects|` would have returned already.
      assert index < |objects|;
      var guardOk, gameObject := ReadGameObject(img, objects[index]);
      if !guardOk {
        return None;
      }
      gameObjectEntries[index] := gameObject;
      filled := filled[index := gameObject];
    }
    assert filled == GameObjects(img, h, objects);
    return Some(gameObjectEntries[..]);
  }

  /** What `build_snapshot` returns for the image. */
  function Snapshot(img: Image): Option<EngineSnapshot>
    requires Covers(img) && CapacitiesFit(img)
  {
    var tagHeader := TagHeaderAt(img);
    if tagHeader.footer != RNCS then None
    else if !IsValid(ObjectPoolHeaderAt(img)) then None
    else if !IsValid(PlayerPoolHeaderAt(img)) then None
    else
      var objectHeader := ObjectPoolHeaderAt(img);
      var objects := ObjectPoolEntries(img);
      if AnyGuardMismatch(img, objectHeader, objects) then None
      else
        var tables := ResolveTags(img, FixPointer(tagHeader.tagArrayPtr), tagHeader.tagCount);
        Some(EngineSnapshot(
          playerHeader := PlayerPoolHeaderAt(img),
          playerEntries := PlayerPoolEntries(img),
          objectHeader := objectHeader,
          objectHeaderEntries := objects,
          objectEntries := GameObjects(img, objectHeader, objects),
          playerGlobals := PlayersGlobalsAt(img),
          tags := tables.paths,
          tagEntries := tables.entries))
  }

  /**
   * `build_snapshot`: the checks run in the source's order and return early,
   * then the pools, the object bodies, the player globals and the tag table
   * are read.
   */
  method BuildSnapshot(img: Image) returns (snap: Option<EngineSnapshot>)
    requires Covers(img) && CapacitiesFit(img)
    ensures snap == Snapshot(img)
  {
    var tagHeader := DecodeTagHeader(Read(img, HALO_TAG_HEADER_ADDR, TAG_HEADER_SIZE));
    if tagHeader.footer != RNCS { return None; }

    var objectManager := DecodePoolHeader(Read(img, HALO_OBJECT_POOL_HEADER_ADDR, POOL_HEADER_SIZE));
    if !IsValid(objectManager) { return None; }

    var playerManager := DecodePoolHeader(Read(img, HALO_PLAYER_POOL_HEADER_ADDR, POOL_HEADER_SIZE));
    if !IsValid(playerManager) { return None; }

    var objectPoolEntries := ReadPool(img, objectManager, OBJECT_HEADER_ENTRY_SIZE, DecodeObjectHeaderEntry);
    var playerPoolEntries := ReadPool(img, playerManager, PLAYER_DATA_ENTRY_SIZE, DecodePlayerDataEntry);

    var gameObjectEntries := ReadGameObjects(img, objectManager, objectPoolEntries);
    if gameObjectEntries.None? { return None; }

    var playerGlobals := DecodePlayersGlobals(Read(img, HALO_PLAYER_GLOBALS_ADDR, PLAYERS_GLOBALS_SIZE));

    var tagIndexToStr, tagIndexToTagEntry := ReadTagTables(img, FixPointer(tagHeader.tagArrayPtr), tagHeader.tagCount);

    snap := Some(EngineSnapshot(
      playerHeader := playerManager,
      playerEntries := playerPoolEntries,
      objectHeader := objectManager,
      objectHeaderEntries := objectPoolEntries,
      objectEntries := gameObjectEntries.value,
      playerGlobals := playerGlobals,
      tags := tagIndexToStr,
      tagEntries := tagIndexToTagEntry));
  }

  /**
   * With a bad footer nothing else is looked at: the model demands nothing
   * of the pool headers and the snapshot is absent.
   */
  lemma {:induction false} FooterCheckedFirst(img: Image)
    requires Covers(img)
    requires U32At(Read(img, HALO_TAG_HEADER_ADDR, TAG_HEADER_SIZE), 36) != 1935896178
    ensures CapacitiesFit(img)
    ensures Snapshot(img).None?
  {
  }

  /** Likewise an invalid object pool header: the player pool is not looked at. */
  lemma {:induction false} ObjectPoolCheckedSecond(img: Image)
    requires Covers(img)
    requires !IsValid(ObjectPoolHeaderAt(img))
    ensures CapacitiesFit(img)
    ensures Snapshot(img).None?
  {
  }

  /** When the snapshot exists, in terms of the checks on decoded records. */
  lemma {:induction false} SnapshotCases(img: Image)
    requires Covers(img) && CapacitiesFit(img)
    ensures Snapshot(img).Some? <==>
              HeadersPass(img) && !AnyGuardMismatch(img, ObjectPoolHeaderAt(img), ObjectPoolEntries(img))
  {
  }

  /** The fields of an existing snapshot, each in terms of the image. */
  lemma {:induction false} SnapshotFields(img: Image)
    requires Covers(img) && CapacitiesFit(img)
    requires Snapshot(img).Some?
    ensures HeadersPass(img)
    ensures Snapshot(img).value.objectHeader == ObjectPoolHeaderAt(img)
    ensures Snapshot(img).value.playerHeader == PlayerPoolHeaderAt(img)
    ensures Snapshot(img).value.objectHeaderEntries == ObjectPoolEntries(img)
    ensures Snapshot(img).value.playerEntries == PlayerPoolEntries(img)
    ensures Snapshot(img).value.objectEntries == GameObjects(img, ObjectPoolHeaderAt(img), ObjectPoolEntries(img))
    ensures Snapshot(img).value.playerGlobals == PlayersGlobalsAt(img)
    ensures Snapshot(img).value.tags == ResolveTags(img, FixPointer(TagHeaderAt(img).tagArrayPtr), TagHeaderAt(img).tagCount).paths
    ensures Snapshot(img).value.tagEntries == ResolveTags(img, FixPointer(TagHeaderAt(img).tagArrayPtr), TagHeaderAt(img).tagCount).entries
  {
  }

  /** The guard words before the body of `e`, read as bytes, are not the head and tail markers. */
  predicate GuardWordsWrong(img: Image, e: ObjectHeaderEntry)
    requires Covers(img) && HasBody(e)
  {
    var g := Read(img, BodyAddress(e) - OBJECT_LIST_HEADER_SIZE, OBJECT_LIST_HEADER_SIZE);
    U32At(g, 0) != 1751474532 || U32At(g, 20) != 1952541036
  }

  /** No object pool entry below `capacity` is bound to a body with wrong guard words. */
  predicate NoGuardMismatch(img: Image)
    requires Covers(img)
  {
    var h := ObjectPoolHeaderAt(img);
    var objects := ObjectPoolEntries(img);
    forall index :: 0 <= index < h.capacity && index < h.maxEntries && objects[index].Some? && HasBody(objects[index].value) ==>
      !GuardWordsWrong(img, objects[index].value)
  }

  /** The byte-level guard test agrees with the decoded one. */
  lemma {:induction false} GuardBytesAgree(img: Image, e: ObjectHeaderEntry)
    requires Covers(img) && HasBody(e)
    ensures GuardWordsWrong(img, e) <==> !GuardIntact(GuardAt(img, e))
  {
    GuardIntactIffBytes(Read(img, BodyAddress(e) - OBJECT_LIST_HEADER_SIZE, OBJECT_LIST_HEADER_SIZE));
  }

  /**
   * The snapshot exists exactly when the footer word is RNCS ("rncs" in
   * little-endian bytes), both pool headers carry the "@t@d" signature with
   * `valid == 1`, and every occupied object slot below `capacity` that is
   * bound to a body is preceded by intact guard words. The player globals
   * play no part.
   */
  lemma {:induction false} SnapshotExistsIff(img: Image)
    requires Covers(img) && CapacitiesFit(img)
    ensures Snapshot(img).Some? <==>
              && U32At(Read(img, HALO_TAG_HEADER_ADDR, TAG_HEADER_SIZE), 36) == 1935896178
              && U32At(Read(img, HALO_OBJECT_POOL_HEADER_ADDR, POOL_HEADER_SIZE), 40) == 1681945664
              && Read(img, HALO_OBJECT_POOL_HEADER_ADDR, POOL_HEADER_SIZE)[36] == 1
              && U32At(Read(img, HALO_PLAYER_POOL_HEADER_ADDR, POOL_HEADER_SIZE), 40) == 1681945664
              && Read(img, HALO_PLAYER_POOL_HEADER_ADDR, POOL_HEADER_SIZE)[36] == 1
              && NoGuardMismatch(img)
  {
    SnapshotCases(img);
    HeaderValidIffBytes(Read(img, HALO_OBJECT_POOL_HEADER_ADDR, POOL_HEADER_SIZE));
    HeaderValidIffBytes(Read(img, HALO_PLAYER_POOL_HEADER_ADDR, POOL_HEADER_SIZE));
    if HeadersPass(img) {
      var h := ObjectPoolHeaderAt(img);
      var objects := ObjectPoolEntries(img);
      if AnyGuardMismatch(img, h, objects) {
        var index :| 0 <= index < h.capacity && index < |objects| && GuardMismatch(img, objects[index]);
        GuardBytesAgree(img, objects[index].value);
      } else {
        forall index | 0 <= index < h.capacity && index < |objects| && objects[index].Some? && HasBody(objects[index].value)
          ensures !GuardWordsWrong(img, objects[index].value)
        {
          GuardBytesAgree(img, objects[index].value);
        }
      }
    }
  }

  /** Entry `index` of the object entries: present iff in range, occupied and bound; then intact and decoded. */
  lemma {:induction false} GameObjectsEntry(img: Image, h: PoolHeader, objects: seq<Option<ObjectHeaderEntry>>, index: nat)
    requires Covers(img)
    requires !AnyGuardMismatch(img, h, objects)
    requires index < |objects|
    ensures |GameObjects(img, h, objects)| == |objects|
    ensures GameObjects(img, h, objects)[index].Some? <==>
              index < h.capacity && objects[index].Some? && HasBody(objects[index].value)
    ensures GameObjects(img, h, objects)[index].Some? ==>
              && GuardIntact(GuardAt(img, objects[index].value))
              && GameObjects(img, h, objects)[index].value ==
                 DecodeGameObject(Read(img, BodyAddress(objects[index].value), GAME_OBJECT_SIZE))
  {
    if index < h.capacity {
      assert !GuardMismatch(img, objects[index]);
    }
  }

  /**
   * The object entries of a snapshot: as many as the pool's entries; entry
   * `index` is present iff `index < capacity`, the pool entry is present and
   * bound to a body; a present entry is the body decoded at the fixed-up
   * address, and its guard words are intact.
   */
  lemma {:induction false} SnapshotObjectEntries(img: Image, index: nat)
    requires Covers(img) && CapacitiesFit(img)
    requires Snapshot(img).Some?
    requires index < |Snapshot(img).value.objectHeaderEntries|
    ensures |Snapshot(img).value.objectEntries| == |Snapshot(img).value.objectHeaderEntries| == Snapshot(img).value.objectHeader.maxEntries
    ensures Snapshot(img).value.objectEntries[index].Some? <==>
              && index < Snapshot(img).value.objectHeader.capacity
              && Snapshot(img).value.objectHeaderEntries[index].Some?
              && HasBody(Snapshot(img).value.objectHeaderEntries[index].value)
    ensures Snapshot(img).value.objectEntries[index].Some? ==>
              var e := Snapshot(img).value.objectHeaderEntries[index].value;
              && GuardIntact(GuardAt(img, e))
              && Snapshot(img).value.objectEntries[index].value == DecodeGameObject(Read(img, BodyAddress(e), GAME_OBJECT_SIZE))
  {
    SnapshotCases(img);
    SnapshotFields(img);
    GameObjectsEntry(img, ObjectPoolHeaderAt(img), ObjectPoolEntries(img), index);
  }

  /**
   * The tag maps of a snapshot, over the first `tag_count` descriptors of
   * the tag array: every path key has a descriptor; an index has a path iff
   * some descriptor with it has a path that reads as UTF-8; an index has a
   * descriptor iff some descriptor carries it.
   */
  lemma {:induction false} SnapshotTagKeys(img: Image, k: u32)
    requires Covers(img) && CapacitiesFit(img)
    requires Snapshot(img).Some?
    ensures Snapshot(img).value.tags.Keys <= Snapshot(img).value.tagEntries.Keys
    ensures k in Snapshot(img).value.tags <==>
              exists j :: 0 <= j < TagHeaderAt(img).tagCount
                          && Descriptor(img, FixPointer(TagHeaderAt(img).tagArrayPtr), j).tagIndex == k
                          && PathResolves(img, Descriptor(img, FixPointer(TagHeaderAt(img).tagArrayPtr), j))
    ensures k in Snapshot(img).value.tagEntries <==>
              exists j :: 0 <= j < TagHeaderAt(img).tagCount
                          && Descriptor(img, FixPointer(TagHeaderAt(img).tagArrayPtr), j).tagIndex == k
  {
    SnapshotFields(img);
    var base := FixPointer(TagHeaderAt(img).tagArrayPtr);
    var descs := Descriptors(img, base, TagHeaderAt(img).tagCount);
    PathKeysWithinEntryKeys(img, descs);
    PathKeysAreResolvableIndices(img, descs, k);
    EntryKeysAreDescriptorIndices(img, descs, k);
  }

  /** A player-pool entry that controls the unit with index `unitIndex`; the id half of its handle is not compared. */
  predicate ControlsUnit(entry: Option<PlayerDataEntry>, unitIndex: u16)
  {
    entry.Some? && GetIndex(entry.value.slaveUnitIndex) == unitIndex
  }

  /** Matching ignores the id: a handle with index `unitIndex` and any id controls that unit. */
  lemma {:induction false} ControlsUnitIgnoresId(e: PlayerDataEntry, unitIndex: u16, id: u16)
    ensures ControlsUnit(Some(e.(slaveUnitIndex := FromParts(unitIndex, id))), unitIndex)
  {
  }

  /**
   * `find_local_player_index_from_unit_index`: the local player index of the
   * first present player entry, in storage order, that controls the unit.
   */
  method FindLocalPlayerIndexFromUnitIndex(snap: EngineSnapshot, unitIndex: u16) returns (r: Option<u16>)
    ensures r.None? <==> forall i :: 0 <= i < |snap.playerEntries| ==> !ControlsUnit(snap.playerEntries[i], unitIndex)
    ensures r.Some? ==> exists i :: 0 <= i < |snap.playerEntries|
                                    && ControlsUnit(snap.playerEntries[i], unitIndex)
                                    && (forall j :: 0 <= j < i ==> !ControlsUnit(snap.playerEntries[j], unitIndex))
                                    && r.value == snap.playerEntries[i].value.localPlayerIndex
  {
    for i := 0 to |snap.playerEntries|
      invariant forall j :: 0 <= j < i ==> !ControlsUnit(snap.playerEntries[j], unitIndex)
    {
      var playerPoolEntry := snap.playerEntries[i];
      if playerPoolEntry.None? { continue; }
      if GetIndex(playerPoolEntry.value.slaveUnitIndex) == unitIndex {
        return Some(playerPoolEntry.value.localPlayerIndex);
      }
    }
    return None;
  }

  /**
   * `find_next_object_datum_player`: the object's own index when some local
   * dead-player handle has the same index, and nothing otherwise.
   */
  method FindNextObjectDatumPlayer(snap: EngineSnapshot, objectHandle: Datum) returns (r: Option<u16>)
    ensures r.Some? <==> exists i :: 0 <= i < |snap.playerGlobals.localDeadPlayers|
                                     && GetIndex(snap.playerGlobals.localDeadPlayers[i]) == GetIndex(objectHandle)
    ensures r.Some? ==> r.value == GetIndex(objectHandle)
  {
    for i := 0 to |snap.playerGlobals.localDeadPlayers|
      invariant forall j :: 0 <= j < i ==> GetIndex(snap.playerGlobals.localDeadPlayers[j]) != GetIndex(objectHandle)
    {
      var playerIndex := GetIndex(snap.playerGlobals.localDeadPlayers[i]);
      var objectIndex := GetIndex(objectHandle);
      if playerIndex == objectIndex {
        return Some(playerIndex);
      }
    }
    return None;
  }
}
