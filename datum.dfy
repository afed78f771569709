/**
 * The engine's 32-bit handle (`Datum`): a 16-bit pool-slot index in the low
 * half and a 16-bit generation id in the high half. The all-ones value is the
 * "no handle" sentinel.
 */
module Handles {
  import opened Words

  const INVALID_HANDLE: u32 := 4294967295

  datatype Datum = Datum(raw: u32)

  /**
   * `(id << 16) | index`. The index fits in the low 16 bits, so the OR adds
   * the two halves without carries.
   */
  function FromParts(index: u16, id: u16): (d: Datum)
    ensures GetIndex(d) == index && GetId(d) == id
  {
    Datum(id * 0x1_0000 + index)
  }

  function FromRaw(handle: u32): Datum
  {
    Datum(handle)
  }

  /** The low half, `handle & 0xFFFF`. */
  function GetIndex(d: Datum): u16
  {
    d.raw % 0x1_0000
  }

  /** The high half, `(handle >> 16) & 0xFFFF`. */
  function GetId(d: Datum): u16
  {
    (d.raw / 0x1_0000) % 0x1_0000
  }

  function GetHandle(d: Datum): u32
  {
    d.raw
  }

  predicate IsInvalid(d: Datum)
  {
    GetHandle(d) == INVALID_HANDLE
  }

  /** Composing a handle puts the id in the high half and the index in the low half. */
  lemma {:induction false} FromPartsRoundTrip(index: u16, id: u16)
    ensures GetIndex(FromParts(index, id)) == index
    ensures GetId(FromParts(index, id)) == id
    ensures GetHandle(FromParts(index, id)) == id * 65536 + index
  {
  }

  /** Splitting a handle and composing the halves again gives the same handle. */
  lemma {:induction false} PartsRoundTrip(d: Datum)
    ensures FromParts(GetIndex(d), GetId(d)) == d
    ensures GetHandle(FromParts(GetIndex(d), GetId(d))) == GetHandle(d)
  {
    assert d.raw / 0x1_0000 < 0x1_0000;
    assert d.raw == 0x1_0000 * (d.raw / 0x1_0000) + d.raw % 0x1_0000;
  }

  /** Wrapping a raw value and unwrapping it are inverse. */
  lemma {:induction false} RawRoundTrip(h: u32, d: Datum)
    ensures GetHandle(FromRaw(h)) == h
    ensures FromRaw(GetHandle(d)) == d
  {
  }

  /** A handle is the sentinel exactly when both of its halves are all ones. */
  lemma {:induction false} InvalidIffAllOnes(d: Datum)
    ensures IsInvalid(d) <==> GetIndex(d) == 0xFFFF && GetId(d) == 0xFFFF
  {
    PartsRoundTrip(d);
  }

  /** Among composed handles, only (0xFFFF, 0xFFFF) is the sentinel. */
  lemma {:induction false} InvalidFromParts(index: u16, id: u16)
    ensures IsInvalid(FromParts(index, id)) <==> index == 0xFFFF && id == 0xFFFF
  {
    InvalidIffAllOnes(FromParts(index, id));
  }
}
