# objectviewer snapshot engine, modelled in Dafny

objectviewer attaches to the Xbox emulator's process and captures 64 MiB of the
guest's memory in each sampling cycle. From that capture it rebuilds the
game's entity state as an `EngineSnapshot`. This project models that
reconstruction engine on one captured image.

The model covers:

- **Pointer fix-up.** `fix_pointer` clears the top byte of a guest pointer.
- **The raw reads.** `Memory::read` reads a fixed-size record. `Memory::read_str`
  reads a NUL-terminated UTF-8 string.
- **Handles.** A `Datum` packs a 16-bit slot index and a 16-bit id, with an
  all-ones sentinel.
- **The pool reader.** `EntityManager<T>` checks the pool signature and the
  valid flag, then turns `capacity` slots into `max_entries` optional records.
- **Snapshot assembly.** `build_snapshot` does four things. It checks the
  tag-header footer and both pool headers. It checks the "daeh"/"liat" guard
  words before every bound object body. It reads the player globals without a
  check. It resolves the tag table into two maps keyed by tag index.
- **The lookups.** These are the two lookups on a snapshot and the
  object-type code table.

The `repr(C)` records are little-endian byte-offset decoders
(`layouts.dfy`). The capture is an immutable byte sequence (`Image`), so
`Read` and `ReadStr` are functions that cannot change it.

Each loop of the source is a `method` with the same loop, proved against a
specification function:
- `Entity.ReadPool` against `PoolEntries`;
- `Engine.ReadGameObjects` against `GameObjects`;
- `Tags.ReadTagTables` against `ResolveTags`;
- `Engine.BuildSnapshot` against `Snapshot`.

The properties are proved as lemmas about those functions.

Files:
- `words.dfy`: machine integers and little-endian words.
- `datum.dfy`: handles.
- `memory.dfy`: fix-up, `Read`, `ReadStr` and UTF-8 validity.
- `entity.dfy`: pool headers and the pool reader.
- `layouts.dfy`: record decoders.
- `tags.dfy`: the tag-table loop.
- `engine.dfy`: snapshot assembly and lookups.

The tag loop tests `contains_key` on the PATH map only (src/engine/engine.rs:282).
The comment above it suggests both maps are treated the same. The model follows
the code:
- When an index's path has not resolved, a later descriptor with the same index
  replaces the recorded descriptor. If that descriptor's path reads, it adds
  the path in the same step.
- Once an index has a path, later duplicates are ignored.

So for a resolved index both maps hold the first descriptor with that index
whose path resolved (`Tags.FirstResolvableWins`). Earlier descriptors with that
index whose path failed are overwritten. For an index that never resolved, the
descriptor map holds the last descriptor with that index
(`Tags.UnresolvedKeepsLastDescriptor`).

## Model

| member | source | states |
|---|---|---|
| Handles.FromRaw | src/engine/datum.rs:14-16 | wraps a raw 32-bit value as a handle, unchanged (its inverse is stated by `RawRoundTrip`) |
| Handles.GetIndex | src/engine/datum.rs:18-21 | the low 16 bits of the handle, `raw mod 2^16` |
| Handles.GetId | src/engine/datum.rs:23-26 | the high 16 bits of the handle, `(raw div 2^16) mod 2^16` |
| Handles.GetHandle | src/engine/datum.rs:28-30 | the raw 32-bit value |
| Handles.IsInvalid | src/engine/datum.rs:32-34 | the raw value equals `INVALID_HANDLE` (0xFFFFFFFF), characterised by `InvalidIffAllOnes` |
| Handles.FromParts | src/engine/datum.rs:10-12 | the composed handle has `index` as its low half and `id` as its high half |
| Handles.FromPartsRoundTrip | src/engine/datum.rs:10-30 | `get_index(from_parts(i, id)) == i`, `get_id(..) == id`, and `get_handle(..) == id * 65536 + i` |
| Handles.PartsRoundTrip | src/engine/datum.rs:10-30 | splitting any handle into index and id and composing again gives the same handle |
| Handles.RawRoundTrip | src/engine/datum.rs:14-16 | `from_raw` and `get_handle` are inverse, both ways round |
| Handles.InvalidIffAllOnes | src/engine/datum.rs:3 | a handle is invalid iff both halves are 0xFFFF |
| Handles.InvalidFromParts | src/engine/datum.rs:32-34 | `from_parts(i, id)` is invalid iff `i == id == 0xFFFF` |
| Words.FromToLeBytes | src/memory.rs:64-68 | decoding the little-endian bytes of a word gives the word back |
| Words.ToFromLeBytes | src/memory.rs:64-68 | encoding the decoded word of four bytes gives the bytes back |
| Memory.FixPointer | src/memory.rs:64-68 | the fixed pointer is the pointer modulo 2^24, below 2^24 |
| Memory.FixPointerIsLow24 | src/memory.rs:64-68 | clearing byte 3 of the little-endian image and decoding gives `ptr mod 2^24` |
| Memory.FixPointerBytes | src/memory.rs:64-68 | the fixed pointer's bytes are the pointer's bytes with byte 3 cleared and bytes 0 to 2 unchanged |
| Memory.FixPointerIdempotent | src/memory.rs:64-68 | fixing a pointer twice is fixing it once |
| Memory.Read | src/memory.rs:37-40 | a read of `n` bytes yields exactly `n` bytes |
| Memory.ReadAtFixedAddress | src/memory.rs:37-40 | a read at `p` equals the read at `fix_pointer(p)`, and both lie in the image |
| Memory.NulOffset | src/memory.rs:42-45 | the search returns the first zero byte at or after `start`, or none if the rest of the image has no zero |
| Memory.TerminatorIsFound | src/memory.rs:42-45 | a zero byte with no zero between `start` and it is the one the search returns |
| Memory.Utf8CharLength | src/memory.rs:42-45 | a well-formed UTF-8 sequence is 1 to 4 bytes long and inside the input |
| Memory.AsciiIsValidUtf8 | src/memory.rs:42-45 | ASCII-only text passes the UTF-8 check |
| Memory.LeadingTailIsInvalid | src/memory.rs:42-45 | text that starts with a continuation byte fails the UTF-8 check |
| Memory.ReadStr | src/memory.rs:42-45 | on success the string is the bytes from the fixed address up to the first zero, and they are valid UTF-8. It fails with `Utf8Error` iff those bytes are not valid UTF-8, and with `Unterminated` iff no zero follows the fixed address |
| Memory.ReadStrAtFixedAddress | src/memory.rs:42-45 | reading a string at `p` equals reading it at `fix_pointer(p)` |
| Entity.DecodePoolHeader | src/engine/entity.rs:9-23 | the 56-byte `repr(C)` header: name at 0 (32 bytes), `max_entries` 32, `data_sizeof` 34, `valid` 36, `identifier_zero_invalid` 37, `unknown_1` 38, `signature` 40, `next_index` 44, `capacity` 46, `size` 48, `next_id` 50, `data_begin` 52 |
| Entity.IsSignatureValid | src/engine/entity.rs:26-28 | the signature equals `AT_T_AT_D` (1681945664) |
| Entity.IsValid | src/engine/entity.rs:30-32 | the signature is valid and `valid == 1` |
| Entity.HeaderValidIffBytes | src/engine/entity.rs:26-32 | a pool header is valid iff its signature word (offset 40) is 1681945664 and its `valid` byte (offset 36) is 1 |
| Entity.WrapThenFix | src/engine/entity.rs:37-39 | a slot or descriptor address that wraps past 2^32 reads at the unwrapped address modulo 2^24 |
| Entity.PoolEntriesShape | src/engine/entity.rs:34-48 | there are `max_entries` entries and none at or past `capacity`. Below it, an entry is present iff its slot's 16-bit id is non-zero or id zero is allowed, and a present entry is the record decoded at `fix_pointer(data_begin) + data_sizeof * index` |
| Entity.ReadPool | src/engine/entity.rs:34-48 | the descending loop that fills a `max_entries` array in place ends with exactly `PoolEntries`, whose shape the ensures spells out, so scan order is immaterial. `capacity` may exceed `max_entries` as long as the slots past `max_entries` are empty |
| Tags.DescriptorStride | src/engine/engine.rs:277-279 | consecutive tag descriptors lie 32 bytes apart in the fixed-up address space, modulo 2^24, even when the `u32` address sum wraps |
| Layouts.DecodeTagHeader | src/engine/engine.rs:67-78 | ten consecutive little-endian `u32` words; `tag_array_ptr` at 0, `tag_count` at 12, `footer` at 36 |
| Layouts.DecodeTagEntry | src/engine/engine.rs:54-63 | eight consecutive little-endian `u32` words; `tag_index` at 12, `tag_path_ptr` at 16 |
| Layouts.DecodeObjectHeaderEntry | src/engine/engine.rs:82-89 | 12 bytes: `id` (u16) at 0, `unk_2` at 2, `data_type` at 3, `unknown_2` (u16) at 4, `data_sizeof` (u16) at 6, `object_address` (u32) at 8 |
| Layouts.DecodeObjectListHeader | src/engine/engine.rs:93-100 | six consecutive `u32` words; `header_head` at 0, `header_tail` at 20 |
| Layouts.DecodePlayerDataEntry | src/engine/engine.rs:42-50 | 212 bytes: `id` at 0, `local_player_index` at 2, twelve UTF-16 units of `player_name` from 4, `unknown_1` at 28 (24 bytes), `slave_unit_index` at 52, `last_slave_unit_index` at 56, `unknown_2` at 60 (150 bytes), then 2 bytes of padding |
| Layouts.DecodePlayersGlobals | src/engine/engine.rs:24-38 | 176 bytes: `unknown_1` (i32) at 0, four `local_players` handles from 4, four `local_dead_players` from 20, the u16 and u8 counters and flags at 36-47, the two 64-byte PVS arrays at 48 and 112 |
| Layouts.DecodeGameObject | src/engine/engine.rs:107-171 | the 420-byte object body: `tag_index` at 0, `flags` at 4, `object_type` (i16) at 100, `next_object_index` at 196, `unk_200` at 200, `parent_object_index` at 204; the whole body is kept as bytes |
| Tags.StepKeepsOtherIndices | src/engine/engine.rs:282-290 | one loop step leaves every other index alone in both maps |
| Tags.StepIgnoresResolvedIndex | src/engine/engine.rs:282 | a descriptor whose index already has a path changes neither map |
| Tags.StepReplacesUnresolvedDescriptor | src/engine/engine.rs:282-290 | a descriptor whose index has a descriptor but no path replaces the recorded descriptor, and adds a path iff its own path reads |
| Tags.StepKeepsPath | src/engine/engine.rs:282-286 | a recorded path stays, unchanged |
| Tags.StepRecordsUnresolved | src/engine/engine.rs:282-290 | a descriptor whose index has no path is recorded in the descriptor map |
| Tags.StepEntryKeys | src/engine/engine.rs:282-290 | after a step, an index has a descriptor iff it had one or the step's descriptor carries it |
| Tags.PathKeysWithinEntryKeys | src/engine/engine.rs:282-290 | every index in the path map is also in the descriptor map |
| Tags.EntryKeysAreDescriptorIndices | src/engine/engine.rs:277-290 | an index is in the descriptor map iff some walked descriptor carries it |
| Tags.ResolvableDescriptorOfPathKey | src/engine/engine.rs:282-287 | an index with a path has a walked descriptor with that index whose path reads |
| Tags.PathKeyOfResolvableDescriptor | src/engine/engine.rs:282-287 | a walked descriptor whose path reads puts its index in the path map |
| Tags.PathKeysAreResolvableIndices | src/engine/engine.rs:282-290 | an index is in the path map iff some walked descriptor with that index has a path that reads |
| Tags.ResolvedIndexIsStable | src/engine/engine.rs:282 | once an index has a path after a prefix of the descriptors, it still has one at the end |
| Tags.FirstResolvableWins | src/engine/engine.rs:282-290 | for a resolved index, both maps hold the FIRST descriptor with that index whose path reads, and the path is that descriptor's string |
| Tags.UnresolvedIndexNeverResolves | src/engine/engine.rs:282-287 | an index missing from the path map has no descriptor whose path reads |
| Tags.UnresolvedKeepsLastDescriptor | src/engine/engine.rs:282-290 | for an index with a descriptor but no path, the descriptor map holds the LAST descriptor with that index |
| Tags.DescriptorsExtend | src/engine/engine.rs:277-279 | the first `n + 1` descriptors are the first `n` followed by descriptor `n` |
| Tags.ReadTagTables | src/engine/engine.rs:273-291 | the tag loop's two maps are exactly `ResolveTags`, whose key and value properties the lemmas above prove |
| Engine.ObjectTypeString | src/engine/engine.rs:173-188 | the code is "UNKNOWN" iff the type is 10 or above 11; every known type gets a four-letter code |
| Engine.ObjectTypeStringInjective | src/engine/engine.rs:173-188 | distinct known types get distinct codes |
| Engine.GuardIntactIffBytes | src/engine/engine.rs:255-259 | a guard is intact iff its word at offset 0 is 1751474532 and its word at offset 20 is 1952541036 |
| Engine.ReadGameObject | src/engine/engine.rs:250-265 | one object slot: a mismatch is reported iff the slot is bound to a body with bad guard words; otherwise the entry is the body decoded at the fixed address, or none for an empty or unbound slot |
| Engine.ReadGameObjects | src/engine/engine.rs:248-266 | the object loop gives up iff some slot below `capacity` has a guard mismatch; otherwise its array equals `GameObjects`. `capacity` may exceed the number of entries when a mismatch below it returns first |
| Engine.GameObjectsEntry | src/engine/engine.rs:248-265 | entry `i` of the object entries is present iff `i < capacity`, the pool entry is present and bound to a body; a present one is the decoded body and its guard is intact |
| Engine.Snapshot | src/engine/engine.rs:235-303 | the value `build_snapshot` returns. It is None when the footer is not RNCS, then when either pool header is invalid, then when a bound object slot below `capacity` has bad guard words. Otherwise it holds both pools' headers and entries, the checked object bodies, the unchecked player globals and the two tag maps |
| Engine.BuildSnapshot | src/engine/engine.rs:235-303 | the imperative `build_snapshot`, with its early returns and loops, produces exactly `Snapshot(img)` |
| Engine.FooterCheckedFirst | src/engine/engine.rs:236-237 | with a footer word other than 1935896178 the snapshot is absent, and nothing is demanded of the pool headers |
| Engine.ObjectPoolCheckedSecond | src/engine/engine.rs:239-240 | with an invalid object pool header the snapshot is absent, and nothing is demanded of either pool's capacity |
| Engine.SnapshotCases | src/engine/engine.rs:236-266 | the snapshot exists iff the three header checks pass and no slot below `capacity` has a guard mismatch |
| Engine.SnapshotFields | src/engine/engine.rs:239-302 | each field of an existing snapshot is the corresponding read of the image; the player globals are taken as read (engine.rs:269) |
| Engine.GuardBytesAgree | src/engine/engine.rs:255-259 | the byte-level guard test on a bound entry agrees with the decoded one |
| Engine.SnapshotExistsIff | src/engine/engine.rs:236-266 | the snapshot exists iff the footer word is 1935896178, both pool headers have signature 1681945664 and `valid == 1`, and no occupied bound object slot below `capacity` has wrong guard words. The player globals play no part |
| Engine.SnapshotObjectEntries | src/engine/engine.rs:248-265 | in an existing snapshot, `object_entries` has as many entries as `object_header_entries` (= `max_entries`). Entry `i` is present iff `i < capacity`, the pool entry is present and its fixed address is non-zero and at least 24. A present entry is the body decoded there, behind intact guard words |
| Engine.SnapshotTagKeys | src/engine/engine.rs:273-291 | in an existing snapshot, path keys are a subset of descriptor keys. An index has a path iff one of the first `tag_count` descriptors carries it with a readable path, and has a descriptor iff one carries it |
| Engine.ControlsUnitIgnoresId | src/engine/engine.rs:204-212 | a player whose unit handle has index `u` matches `u` whatever the handle's id |
| Engine.FindLocalPlayerIndexFromUnitIndex | src/engine/engine.rs:206-218 | returns the `local_player_index` of the first present player entry, in storage order, whose unit handle has index `u`; none iff there is no such entry |
| Engine.FindNextObjectDatumPlayer | src/engine/engine.rs:220-231 | returns `Some(get_index(h))` iff some local dead-player handle has the same index as `h`; it returns the index, not the array position |

## Left out

- `Memory::new`, `refresh`, `write` and `Drop` (src/memory.rs:13-35, 47-62, 71-79) are left out. They are Windows process-memory foreign calls, and the live game changes its memory concurrently. The model starts from one captured image.
- The unsafe `ptr::read` reinterpretation is replaced by explicit little-endian field decoders. Its undefined behaviour past the end of the buffer is excluded by preconditions (`InRange`).
- Engine.BuildSnapshot: requires the image to reach 2^24 + 420 bytes (`Covers`). Every fixed address is below 2^24 and no record is longer than 420 bytes, and the 64 MiB window that src/main.rs allocates meets this. The path strings are exempt: `ReadStr` reports an unterminated string instead.
- Engine.BuildSnapshot: requires that no vector is indexed out of bounds once the header checks have passed (`CapacitiesFit`). The Rust code panics on those images. There are two conditions:
  - Neither pool may have an occupied slot at or past `max_entries`, since `EntityManager::read` writes `entries[index]` for it.
  - For the object pool, `capacity <= max_entries`, unless a guard mismatch at an index below `max_entries` returns None first. Otherwise the object loop reads `object_pool_entries[max_entries]`.
- Entity.ReadPool: requires that the slots in `[max_entries, capacity)` are empty (`OverflowSlotsEmpty`), because an occupied one makes `read` panic. It also requires that every slot it reads lies in the image.
- Debug-build overflow panics are left out. Slot and descriptor addresses wrap modulo 2^32, as in a release build (`SlotAddress`, `DescriptorAddress`), and `WrapThenFix` shows the wrap does not change what is read.
- Memory.ReadStr: `CStr::from_ptr` with no NUL before the end of the buffer reads past it (undefined behaviour). The model returns `Err(Unterminated)` there instead. The string is kept as its UTF-8 bytes, not as a Rust `String`.
- UTF-8 validity is the RFC 3629 section 4 grammar (`ValidUtf8`). That is the check `str::from_utf8` makes, but the standard library's own code is not part of this model.
- Floating-point fields of `Object` stay raw bytes (`GameObject.body`). Only the integer fields the engine names are decoded.
- `fmt::Debug` for `Datum` and the other derived `Debug` impls are left out, because they only format output.
- src/main.rs is not part of this model: the UI, process discovery, position editing and player printing.
