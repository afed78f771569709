/**
 * The `repr(C)` records that `build_snapshot` reads out of the image, each as
 * a decoder from exactly its size in bytes. Fields the engine never looks at
 * are kept as raw bytes where they are arrays, and decoded where they are
 * plain words; the floating-point fields of the object record stay raw bytes.
 */
module Layouts {
  import opened Words
  import opened Handles

  const TAG_HEADER_SIZE: nat := 40
  const TAG_ENTRY_SIZE: nat := 32
  const OBJECT_HEADER_ENTRY_SIZE: nat := 12
  const OBJECT_LIST_HEADER_SIZE: nat := 24
  const PLAYER_DATA_ENTRY_SIZE: nat := 212
  const PLAYERS_GLOBALS_SIZE: nat := 176
  const GAME_OBJECT_SIZE: nat := 420

  /** `MAXIMUM_NUMBER_OF_LOCAL_PLAYERS`. */
  const MAXIMUM_NUMBER_OF_LOCAL_PLAYERS: nat := 4

  datatype TagHeader = TagHeader(
    tagArrayPtr: u32, tagIndex: u32, mapId: u32, tagCount: u32, vertexCount: u32,
    vertexOffset: u32, indexCount: u32, indexOffset: u32, modelDataSize: u32, footer: u32)

  /** Ten consecutive words; the footer is the last one, at offset 36. */
  function DecodeTagHeader(s: seq<u8>): TagHeader
    requires |s| == TAG_HEADER_SIZE
  {
    TagHeader(U32At(s, 0), U32At(s, 4), U32At(s, 8), U32At(s, 12), U32At(s, 16),
              U32At(s, 20), U32At(s, 24), U32At(s, 28), U32At(s, 32), U32At(s, 36))
  }

  datatype TagEntry = TagEntry(
    tagClass: u32, tagClassSecondary: u32, tagClassTertiary: u32, tagIndex: u32,
    tagPathPtr: u32, tagDataPtr: u32, unknown1: u32, unknown2: u32)

  /** Eight consecutive words: `tag_index` at offset 12, `tag_path_ptr` at 16. */
  function DecodeTagEntry(s: seq<u8>): TagEntry
    requires |s| == TAG_ENTRY_SIZE
  {
    TagEntry(U32At(s, 0), U32At(s, 4), U32At(s, 8), U32At(s, 12),
             U32At(s, 16), U32At(s, 20), U32At(s, 24), U32At(s, 28))
  }

  datatype ObjectHeaderEntry = ObjectHeaderEntry(
    id: u16, unk2: u8, dataType: u8, unknown2: u16, dataSizeof: u16, objectAddress: u32)

  /** The object pool's slot record: the id first, `object_address` at offset 8. */
  function DecodeObjectHeaderEntry(s: seq<u8>): ObjectHeaderEntry
    requires |s| == OBJECT_HEADER_ENTRY_SIZE
  {
    ObjectHeaderEntry(U16At(s, 0), s[2], s[3], U16At(s, 4), U16At(s, 6), U32At(s, 8))
  }

  datatype ObjectListHeader = ObjectListHeader(
    headerHead: u32, tagId: u32, ptrA: u32, ptrNextObject: u32, ptrPreviousObject: u32, headerTail: u32)

  /** The guard structure right before an object body: head at offset 0, tail at 20. */
  function DecodeObjectListHeader(s: seq<u8>): ObjectListHeader
    requires |s| == OBJECT_LIST_HEADER_SIZE
  {
    ObjectListHeader(U32At(s, 0), U32At(s, 4), U32At(s, 8), U32At(s, 12), U32At(s, 16), U32At(s, 20))
  }

  datatype PlayerDataEntry = PlayerDataEntry(
    id: u16,
    localPlayerIndex: u16,
    playerName: seq<u16>,
    unknown1: seq<u8>,
    slaveUnitIndex: Datum,
    lastSlaveUnitIndex: Datum,
    unknown2: seq<u8>)

  /**
   * The player pool's slot record: id, local player index, a 12-unit UTF-16
   * name at 4, the controlled unit's handle at 52 and the previous one at 56;
   * 210 bytes of fields padded to 212.
   */
  function DecodePlayerDataEntry(s: seq<u8>): PlayerDataEntry
    requires |s| == PLAYER_DATA_ENTRY_SIZE
  {
    PlayerDataEntry(
      id := U16At(s, 0),
      localPlayerIndex := U16At(s, 2),
      playerName := seq(12, k requires 0 <= k < 12 => U16At(s, 4 + 2 * k)),
      unknown1 := s[28..52],
      slaveUnitIndex := Datum(U32At(s, 52)),
      lastSlaveUnitIndex := Datum(U32At(s, 56)),
      unknown2 := s[60..210])
  }

  datatype PlayersGlobals = PlayersGlobals(
    unknown1: i32,
    localPlayers: seq<Datum>,
    localDeadPlayers: seq<Datum>,
    localPlayerCount: u16,
    doubleSpeedTicksRemaining: u16,
    areAllDead: u8,
    inputDisabled: u8,
    unkTagIndex: u16,
    respawnFailure: u16,
    teleported: u8,
    unkFlags: u8,
    combinedPvs: seq<u8>,
    combinedPvsLocal: seq<u8>)

  /** The four local and four dead-player handles at 4 and 20, then the counters and flags. */
  function DecodePlayersGlobals(s: seq<u8>): PlayersGlobals
    requires |s| == PLAYERS_GLOBALS_SIZE
  {
    PlayersGlobals(
      unknown1 := AsI32(U32At(s, 0)),
      localPlayers := seq(MAXIMUM_NUMBER_OF_LOCAL_PLAYERS, k requires 0 <= k < 4 => Datum(U32At(s, 4 + 4 * k))),
      localDeadPlayers := seq(MAXIMUM_NUMBER_OF_LOCAL_PLAYERS, k requires 0 <= k < 4 => Datum(U32At(s, 20 + 4 * k))),
      localPlayerCount := U16At(s, 36),
      doubleSpeedTicksRemaining := U16At(s, 38),
      areAllDead := s[40],
      inputDisabled := s[41],
      unkTagIndex := U16At(s, 42),
      respawnFailure := U16At(s, 44),
      teleported := s[46],
      unkFlags := s[47],
      combinedPvs := s[48..112],
      combinedPvsLocal := s[112..176])
  }

  /** The object body (`Object`): the fields the engine names, plus the whole body as bytes. */
  datatype GameObject = GameObject(
    tagIndex: u32,
    flags: u32,
    objectType: i16,
    nextObjectIndex: Datum,
    unk200: Datum,
    parentObjectIndex: Datum,
    body: seq<u8>)

  function DecodeGameObject(s: seq<u8>): GameObject
    requires |s| == GAME_OBJECT_SIZE
  {
    GameObject(
      tagIndex := U32At(s, 0),
      flags := U32At(s, 4),
      objectType := AsI16(U16At(s, 100)),
      nextObjectIndex := Datum(U32At(s, 196)),
      unk200 := Datum(U32At(s, 200)),
      parentObjectIndex := Datum(U32At(s, 204)),
      body := s)
  }
}
