/**
 * The generic fixed-capacity pool reader (`EntityManager<T>`). A pool header
 * describes an array of `capacity` slots of `data_sizeof` bytes starting at
 * `data_begin`; the reader turns it into `max_entries` optional records,
 * leaving a slot empty when its leading 16-bit id is zero and the pool says
 * that id zero marks an empty slot. The record type `T` is given by its byte
 * size and its decoder.
 */
module Entity {
  import opened Wrappers
  import opened Words
  import opened Memory

  /** The pool signature, "@t@d" read as a little-endian word. */
  const AT_T_AT_D: u32 := 1681945664

  /** `size_of::<EntityManager<T>>()` under `repr(C)`. */
  const POOL_HEADER_SIZE: nat := 56

  datatype PoolHeader = PoolHeader(
    name: seq<u8>,
    maxEntries: u16,
    dataSizeof: u16,
    valid: u8,
    identifierZeroInvalid: u8,
    unknown1: u16,
    signature: u32,
    nextIndex: u16,
    capacity: u16,
    size: u16,
    nextId: u16,
    dataBegin: u32)

  /** The `repr(C)` layout of `EntityManager<T>`: field offsets 0, 32, 34, 36, 37, 38, 40, 44, 46, 48, 50, 52. */
  function DecodePoolHeader(s: seq<u8>): PoolHeader
    requires |s| == POOL_HEADER_SIZE
  {
    PoolHeader(
      name := s[0..32],
      maxEntries := U16At(s, 32),
      dataSizeof := U16At(s, 34),
      valid := s[36],
      identifierZeroInvalid := s[37],
      unknown1 := U16At(s, 38),
      signature := U32At(s, 40),
      nextIndex := U16At(s, 44),
      capacity := U16At(s, 46),
      size := U16At(s, 48),
      nextId := U16At(s, 50),
      dataBegin := U32At(s, 52))
  }

  predicate IsSignatureValid(h: PoolHeader)
  {
    h.signature == AT_T_AT_D
  }

  predicate IsValid(h: PoolHeader)
  {
    IsSignatureValid(h) && h.valid == 1
  }

  /** A decoded header is valid iff bytes 40..43 hold the signature and byte 36 is 1. */
  lemma {:induction false} HeaderValidIffBytes(s: seq<u8>)
    requires |s| == POOL_HEADER_SIZE
    ensures IsValid(DecodePoolHeader(s)) <==> U32At(s, 40) == 1681945664 && s[36] == 1
  {
  }

  /**
   * The address handed to `read` for slot `index`:
   * `fix_pointer(data_begin) + data_sizeof * index`, in wrapping `u32` arithmetic.
   */
  function SlotAddress(h: PoolHeader, index: nat): u32
  {
    (FixPointer(h.dataBegin) + h.dataSizeof * index) % 0x1_0000_0000
  }

  /**
   * `read` fixes an address up again, so a slot or descriptor address that
   * wraps past 2^32 reads at the unwrapped address modulo 2^24.
   */
  lemma {:induction false} WrapThenFix(x: nat)
    ensures FixPointer(x % 0x1_0000_0000) == x % ADDRESS_LIMIT
  {
    var a := x / 0x1_0000_0000;
    var b := x % 0x1_0000_0000;
    var q := b / ADDRESS_LIMIT;
    var r := b % ADDRESS_LIMIT;
    assert x == ADDRESS_LIMIT * (0x100 * a + q) + r;
    ModOfDecomposition(x, 0x100 * a + q, r);
  }

  /** Every slot in `[0, capacity)` can be read: its id, and its record when the slot is occupied. */
  predicate SlotsReadable(img: Image, h: PoolHeader, size: nat)
  {
    forall index :: 0 <= index < h.capacity ==>
      InRange(img, SlotAddress(h, index), 2) &&
      (SlotOccupied(img, h, index) ==> InRange(img, SlotAddress(h, index), size))
  }

  /** A slot holds an entry unless its id is 0 and id 0 marks empty slots in this pool. */
  predicate SlotOccupied(img: Image, h: PoolHeader, index: nat)
    requires InRange(img, SlotAddress(h, index), 2)
  {
    ReadU16(img, SlotAddress(h, index)) != 0 || h.identifierZeroInvalid == 0
  }

  /** Entry `index` of the pool, for any `index` below `max_entries`. */
  function SlotEntry<T>(img: Image, h: PoolHeader, size: nat, decode: seq<u8> --> T, index: nat): Option<T>
    requires forall s: seq<u8> :: |s| == size ==> decode.requires(s)
    requires SlotsReadable(img, h, size)
  {
    if index < h.capacity && SlotOccupied(img, h, index)
    then Some(decode(Read(img, SlotAddress(h, index), size)))
    else None
  }

  /** What `EntityManager::read` returns: one optional entry per logical slot. */
  function PoolEntries<T>(img: Image, h: PoolHeader, size: nat, decode: seq<u8> --> T): (r: seq<Option<T>>)
    requires forall s: seq<u8> :: |s| == size ==> decode.requires(s)
    requires SlotsReadable(img, h, size)
  {
    seq(h.maxEntries, index requires 0 <= index < h.maxEntries => SlotEntry(img, h, size, decode, index))
  }

  /**
   * The shape of a pool read: `max_entries` entries, nothing at or past
   * `capacity`, and below it exactly the occupied slots, each decoded at its
   * slot address.
   */
  lemma {:induction false} PoolEntriesShape<T>(img: Image, h: PoolHeader, size: nat, decode: seq<u8> --> T)
    requires forall s: seq<u8> :: |s| == size ==> decode.requires(s)
    requires SlotsReadable(img, h, size)
    ensures |PoolEntries(img, h, size, decode)| == h.maxEntries
    ensures forall index :: h.capacity <= index < h.maxEntries ==> PoolEntries(img, h, size, decode)[index].None?
    ensures forall index :: 0 <= index < h.capacity && index < h.maxEntries ==>
              (PoolEntries(img, h, size, decode)[index].Some? <==> SlotOccupied(img, h, index))
    ensures forall index :: 0 <= index < h.capacity && index < h.maxEntries && PoolEntries(img, h, size, decode)[index].Some? ==>
              PoolEntries(img, h, size, decode)[index].value == decode(Read(img, SlotAddress(h, index), size))
  {
  }

  /**
   * Every slot of `[max_entries, capacity)` is empty. `read` writes
   * `entries[index]` only for an occupied slot, so this is exactly when it
   * never indexes past its `max_entries` entries.
   */
  predicate OverflowSlotsEmpty(img: Image, h: PoolHeader, size: nat)
    requires SlotsReadable(img, h, size)
  {
    forall index :: h.maxEntries <= index < h.capacity ==> !SlotOccupied(img, h, index)
  }

  /**
   * `EntityManager::read`: allocates `max_entries` empty entries, then fills
   * the occupied slots of `[0, capacity)` from the highest index down. Each
   * iteration writes only its own entry, so the order is immaterial: the
   * result is the order-free `PoolEntries`.
   */
  method ReadPool<T>(img: Image, h: PoolHeader, size: nat, decode: seq<u8> --> T) returns (entries: seq<Option<T>>)
    requires forall s: seq<u8> :: |s| == size ==> decode.requires(s)
    requires SlotsReadable(img, h, size)
    requires OverflowSlotsEmpty(img, h, size)
    ensures |entries| == h.maxEntries
    ensures forall index :: h.capacity <= index < h.maxEntries ==> entries[index].None?
    ensures forall index :: 0 <= index < h.capacity && index < h.maxEntries ==>
              (entries[index].Some? <==> SlotOccupied(img, h, index))
    ensures forall index :: 0 <= index < h.capacity && index < h.maxEntries && entries[index].Some? ==>
              entries[index].value == decode(Read(img, SlotAddress(h, index), size))
    ensures entries == PoolEntries(img, h, size, decode)
  {
    var a := new Option<T>[h.maxEntries](_ => None);
    ghost var filled: seq<Option<T>> := seq(h.maxEntries, _ => None);
    for index := h.capacity downto 0
      invariant a[..] == filled && |filled| == h.maxEntries
      invariant forall k :: 0 <= k < |filled| ==> filled[k] == if k < index then None else SlotEntry(img, h, size, decode, k)
    {
      var slot := SlotAddress(h, index);
      var id := ReadU16(img, slot);
      if id != 0 || h.identifierZeroInvalid == 0 {
        assert SlotOccupied(img, h, index);
        var entry := decode(Read(img, slot, size));
        a[index] := Some(entry);
        filled := filled[index := Some(entry)];
      }
    }
    assert filled == PoolEntries(img, h, size, decode);
    entries := a[..];
  }
}
