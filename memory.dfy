/**
 * The captured memory image of the target process and the two ways the
 * engine reads from it: a fixed-size record at an address, and a
 * NUL-terminated UTF-8 string at an address. Both normalise the address with
 * `FixPointer` first. The image is one immutable byte sequence; capturing it
 * from the live process is outside this model.
 */
module Memory {
  import opened Wrappers
  import opened Words

  /** Every normalised address lies below 2^24. */
  const ADDRESS_LIMIT: nat := 0x100_0000

  /**
   * Clears the top byte of the little-endian image of `ptr`: the target tags
   * its pointers with a non-address byte there.
   */
  function FixPointer(ptr: u32): (r: u32)
    ensures r == ptr % ADDRESS_LIMIT
    ensures r < ADDRESS_LIMIT
  {
    FixPointerIsLow24(ptr);
    FromLeBytes(ToLeBytes(ptr)[3 := 0])
  }

  lemma {:induction false} FixPointerIsLow24(ptr: u32)
    ensures FromLeBytes(ToLeBytes(ptr)[3 := 0]) == ptr % ADDRESS_LIMIT
  {
    var q1 := ptr / 0x100;
    var q2 := ptr / 0x1_0000;
    assert q2 == q1 / 0x100;
    assert ptr == 0x100 * q1 + ptr % 0x100;
    assert q1 == 0x100 * q2 + q1 % 0x100;
    assert q2 == 0x100 * (ptr / 0x100_0000) + q2 % 0x100;
    assert ptr == 0x100_0000 * (ptr / 0x100_0000) + ptr % 0x100_0000;
  }

  /** Fix-up clears byte 3 and keeps bytes 0 to 2. */
  lemma {:induction false} FixPointerBytes(ptr: u32)
    ensures ToLeBytes(FixPointer(ptr)) == ToLeBytes(ptr)[3 := 0]
  {
    ToFromLeBytes(ToLeBytes(ptr)[3 := 0]);
  }

  /** Fixing an address twice is fixing it once. */
  lemma {:induction false} FixPointerIdempotent(ptr: u32)
    ensures FixPointer(FixPointer(ptr)) == FixPointer(ptr)
  {
    var f := FixPointer(ptr);
    ModOfDecomposition(f, 0, f);
  }

  /** The remainder modulo 2^24 of `q * 2^24 + r`, for `r < 2^24`, is `r`. */
  lemma {:induction false} ModOfDecomposition(x: nat, q: nat, r: nat)
    requires r < ADDRESS_LIMIT && x == ADDRESS_LIMIT * q + r
    ensures x % ADDRESS_LIMIT == r
  {
  }

  /** Adding `c` before or after reducing modulo 2^24 gives the same residue. */
  lemma {:induction false} ModAddSmall(x: nat, c: nat)
    requires c < ADDRESS_LIMIT
    ensures (x + c) % ADDRESS_LIMIT == (x % ADDRESS_LIMIT + c) % ADDRESS_LIMIT
  {
    var q := x / ADDRESS_LIMIT;
    var r := x % ADDRESS_LIMIT;
    if r + c < ADDRESS_LIMIT {
      ModOfDecomposition(x + c, q, r + c);
      ModOfDecomposition(r + c, 0, r + c);
    } else {
      ModOfDecomposition(x + c, q + 1, r + c - ADDRESS_LIMIT);
      ModOfDecomposition(r + c, 1, r + c - ADDRESS_LIMIT);
    }
  }

  /** The `bytes` buffer of the Rust `Memory`, as captured in one sampling cycle. */
  datatype Image = Image(bytes: seq<u8>)

  /** A record of `n` bytes at `ptr` (after fix-up) lies inside the image. */
  predicate InRange(img: Image, ptr: u32, n: nat)
  {
    FixPointer(ptr) + n <= |img.bytes|
  }

  /** The raw bytes of an `n`-byte record at the fixed-up address `ptr`. */
  function Read(img: Image, ptr: u32, n: nat): (r: seq<u8>)
    requires InRange(img, ptr, n)
    ensures |r| == n
  {
    img.bytes[FixPointer(ptr)..FixPointer(ptr) + n]
  }

  /** `read::<u16>`. */
  function ReadU16(img: Image, ptr: u32): u16
    requires InRange(img, ptr, 2)
  {
    U16At(Read(img, ptr, 2), 0)
  }

  /** `read` decodes at the fixed-up address, so fixing up beforehand changes nothing. */
  lemma {:induction false} ReadAtFixedAddress(img: Image, ptr: u32, n: nat)
    requires InRange(img, ptr, n)
    ensures InRange(img, FixPointer(ptr), n)
    ensures Read(img, ptr, n) == Read(img, FixPointer(ptr), n)
  {
    FixPointerIdempotent(ptr);
  }

  /** The position of the first zero byte at or after `start`, if any. */
  function NulOffset(bytes: seq<u8>, start: nat): (r: Option<nat>)
    ensures r.Some? ==> start <= r.value < |bytes| && bytes[r.value] == 0
    ensures r.Some? ==> forall k :: start <= k < r.value ==> bytes[k] != 0
    ensures r.None? ==> forall k :: start <= k < |bytes| ==> bytes[k] != 0
    decreases |bytes| - start
  {
    if start >= |bytes| then None
    else if bytes[start] == 0 then Some(start)
    else NulOffset(bytes, start + 1)
  }

  /** `n` is the first zero byte at or after `start`. */
  predicate IsTerminator(bytes: seq<u8>, start: nat, n: nat)
    requires start <= n < |bytes|
  {
    bytes[n] == 0 && forall k :: start <= k < n ==> bytes[k] != 0
  }

  /** The first zero byte is the one the search finds. */
  lemma {:induction false} TerminatorIsFound(bytes: seq<u8>, start: nat, n: nat)
    requires start <= n < |bytes| && IsTerminator(bytes, start, n)
    ensures NulOffset(bytes, start) == Some(n)
    decreases n - start
  {
    if start < n {
      assert bytes[start] != 0;
      TerminatorIsFound(bytes, start + 1, n);
    }
  }

  /** A continuation byte, `80..BF`. */
  predicate IsTail(b: u8)
  {
    0x80 <= b <= 0xBF
  }

  /**
   * The length of the well-formed UTF-8 sequence that starts `s`, or 0 if none
   * does: the `UTF8-1` to `UTF8-4` rules of section 4 of RFC 3629, which rule
   * out overlong forms, surrogates and code points above U+10FFFF.
   */
  function Utf8CharLength(s: seq<u8>): (n: nat)
    requires |s| > 0
    ensures n <= 4 && n <= |s|
  {
    var b0 := s[0];
    if b0 <= 0x7F then 1
    else if 0xC2 <= b0 <= 0xDF then
      if |s| >= 2 && IsTail(s[1]) then 2 else 0
    else if 0xE0 <= b0 <= 0xEF then
      var lo := if b0 == 0xE0 then 0xA0 else 0x80;
      var hi := if b0 == 0xED then 0x9F else 0xBF;
      if |s| >= 3 && lo <= s[1] <= hi && IsTail(s[2]) then 3 else 0
    else if 0xF0 <= b0 <= 0xF4 then
      var lo := if b0 == 0xF0 then 0x90 else 0x80;
      var hi := if b0 == 0xF4 then 0x8F else 0xBF;
      if |s| >= 4 && lo <= s[1] <= hi && IsTail(s[2]) && IsTail(s[3]) then 4 else 0
    else 0
  }

  /** The check `str::from_utf8` (behind `CStr::to_str`) performs. */
  predicate ValidUtf8(s: seq<u8>)
    decreases |s|
  {
    s == [] || (Utf8CharLength(s) > 0 && ValidUtf8(s[Utf8CharLength(s)..]))
  }

  /** Text made of ASCII bytes only is valid UTF-8. */
  lemma {:induction false} AsciiIsValidUtf8(s: seq<u8>)
    requires forall k :: 0 <= k < |s| ==> s[k] <= 0x7F
    ensures ValidUtf8(s)
    decreases |s|
  {
    if s != [] {
      assert Utf8CharLength(s) == 1;
      AsciiIsValidUtf8(s[1..]);
    }
  }

  /** A stray continuation byte at the front makes a string invalid. */
  lemma {:induction false} LeadingTailIsInvalid(s: seq<u8>)
    requires |s| > 0 && IsTail(s[0])
    ensures !ValidUtf8(s)
  {
  }

  /**
   * Why `read_str` failed: the bytes are not UTF-8, or no NUL terminator lies
   * inside the image (the Rust code would read past the buffer there).
   */
  datatype StrError = Utf8Error | Unterminated

  /**
   * `read_str`: the bytes from the fixed-up address up to, not including, the
   * first zero byte, provided they are valid UTF-8. The string is kept as its
   * UTF-8 bytes.
   */
  function ReadStr(img: Image, ptr: u32): (r: Result<seq<u8>, StrError>)
    ensures r.Ok? ==> ValidUtf8(r.value)
    ensures r.Ok? ==> FixPointer(ptr) + |r.value| < |img.bytes|
    ensures r.Ok? ==> r.value == img.bytes[FixPointer(ptr)..FixPointer(ptr) + |r.value|]
    ensures r.Ok? ==> img.bytes[FixPointer(ptr) + |r.value|] == 0
    ensures r.Ok? ==> forall k :: 0 <= k < |r.value| ==> r.value[k] != 0
    ensures r == Err(Unterminated) <==> forall k :: FixPointer(ptr) <= k < |img.bytes| ==> img.bytes[k] != 0
    ensures r == Err(Utf8Error) <==>
              exists n :: FixPointer(ptr) <= n < |img.bytes| && IsTerminator(img.bytes, FixPointer(ptr), n)
                          && !ValidUtf8(img.bytes[FixPointer(ptr)..n])
  {
    var start := FixPointer(ptr);
    assert forall n :: start <= n < |img.bytes| && IsTerminator(img.bytes, start, n) ==> NulOffset(img.bytes, start) == Some(n) by {
      forall n | start <= n < |img.bytes| && IsTerminator(img.bytes, start, n) {
        TerminatorIsFound(img.bytes, start, n);
      }
    }
    match NulOffset(img.bytes, start)
    case None => Err(Unterminated)
    case Some(end) =>
      var s := img.bytes[start..end];
      if ValidUtf8(s) then Ok(s) else Err(Utf8Error)
  }

  /** A string is read at the fixed-up address, so fixing up beforehand changes nothing. */
  lemma {:induction false} ReadStrAtFixedAddress(img: Image, ptr: u32)
    ensures ReadStr(img, ptr) == ReadStr(img, FixPointer(ptr))
  {
    FixPointerIdempotent(ptr);
  }
}
