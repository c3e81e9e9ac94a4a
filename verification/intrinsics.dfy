/**
  The SSE4.2 `_mm_crc32_u8/u16/u32/u64` instructions, given their documented
  meaning rather than a model of the silicon: the operand's bytes are folded
  into the CRC-32C register least significant byte first. Operands are read
  from the buffer by little-endian loads at a byte index.
 */
module Intrinsics {
  import opened Crc32c

  // ---------------------------------------------------------------------
  // Bytes of an operand, least significant first.

  function Bytes16(w: bv16): (r: seq<bv8>)
    ensures |r| == 2
  {
    [(w & 0xFF) as bv8, ((w >> 8) & 0xFF) as bv8]
  }

  function Bytes32(w: bv32): (r: seq<bv8>)
    ensures |r| == 4
  {
    [(w & 0xFF) as bv8, ((w >> 8) & 0xFF) as bv8,
     ((w >> 16) & 0xFF) as bv8, ((w >> 24) & 0xFF) as bv8]
  }

  function Bytes64(w: bv64): (r: seq<bv8>)
    ensures |r| == 8
  {
    [(w & 0xFF) as bv8, ((w >> 8) & 0xFF) as bv8,
     ((w >> 16) & 0xFF) as bv8, ((w >> 24) & 0xFF) as bv8,
     ((w >> 32) & 0xFF) as bv8, ((w >> 40) & 0xFF) as bv8,
     ((w >> 48) & 0xFF) as bv8, ((w >> 56) & 0xFF) as bv8]
  }

  // ---------------------------------------------------------------------
  // Little-endian loads at a byte index.

  function LoadU16(buf: seq<bv8>, i: nat): bv16
    requires i + 2 <= |buf|
  {
    (buf[i] as bv16) | ((buf[i + 1] as bv16) << 8)
  }

  function LoadU32(buf: seq<bv8>, i: nat): bv32
    requires i + 4 <= |buf|
  {
    (buf[i] as bv32) | ((buf[i + 1] as bv32) << 8)
    | ((buf[i + 2] as bv32) << 16) | ((buf[i + 3] as bv32) << 24)
  }

  function LoadU64(buf: seq<bv8>, i: nat): bv64
    requires i + 8 <= |buf|
  {
    (buf[i] as bv64) | ((buf[i + 1] as bv64) << 8)
    | ((buf[i + 2] as bv64) << 16) | ((buf[i + 3] as bv64) << 24)
    | ((buf[i + 4] as bv64) << 32) | ((buf[i + 5] as bv64) << 40)
    | ((buf[i + 6] as bv64) << 48) | ((buf[i + 7] as bv64) << 56)
  }

  /** Splitting a loaded 16-bit operand into bytes gives back the bytes it
      was loaded from. */
  lemma LoadBytes16(buf: seq<bv8>, i: nat)
    requires i + 2 <= |buf|
    ensures Bytes16(LoadU16(buf, i)) == buf[i..i + 2]
  {
  }

  lemma LoadBytes32(buf: seq<bv8>, i: nat)
    requires i + 4 <= |buf|
    ensures Bytes32(LoadU32(buf, i)) == buf[i..i + 4]
  {
  }

  lemma LoadBytes64(buf: seq<bv8>, i: nat)
    requires i + 8 <= |buf|
    ensures Bytes64(LoadU64(buf, i)) == buf[i..i + 8]
  {
  }

  /** Loading the bytes of an operand gives the operand back. */
  lemma BytesLoad16(w: bv16)
    ensures LoadU16(Bytes16(w), 0) == w
  {
  }

  lemma BytesLoad32(w: bv32)
    ensures LoadU32(Bytes32(w), 0) == w
  {
  }

  lemma BytesLoad64(w: bv64)
    ensures LoadU64(Bytes64(w), 0) == w
  {
  }

  // ---------------------------------------------------------------------
  // The instructions.

  /** `_mm_crc32_u8`: one byte step. */
  function CrcU8(c: bv32, v: bv8): bv32 {
    CrcByte(c, v)
  }

  /** `_mm_crc32_u16`: the operand's two bytes, low byte first. */
  function CrcU16(c: bv32, v: bv16): bv32 {
    Fold(c, Bytes16(v))
  }

  /** `_mm_crc32_u32`: the operand's four bytes, low byte first. */
  function CrcU32(c: bv32, v: bv32): bv32 {
    Fold(c, Bytes32(v))
  }

  /** `_mm_crc32_u64`: the operand's eight bytes, low byte first. The
      instruction's 64-bit result has its upper half clear, so the register
      stays 32 bits wide. */
  function CrcU64(c: bv32, v: bv64): bv32 {
    Fold(c, Bytes64(v))
  }

  /** Each instruction applied to a little-endian load folds exactly the
      bytes loaded, in buffer order. */
  lemma CrcU8At(c: bv32, buf: seq<bv8>, i: nat)
    requires i + 1 <= |buf|
    ensures CrcU8(c, buf[i]) == Fold(c, buf[i..i + 1])
  {
    assert buf[i..i + 1] == [buf[i]];
    assert Fold(c, [buf[i]]) == Fold(CrcByte(c, buf[i]), []);
  }

  lemma CrcU16At(c: bv32, buf: seq<bv8>, i: nat)
    requires i + 2 <= |buf|
    ensures CrcU16(c, LoadU16(buf, i)) == Fold(c, buf[i..i + 2])
  {
    LoadBytes16(buf, i);
  }

  lemma CrcU32At(c: bv32, buf: seq<bv8>, i: nat)
    requires i + 4 <= |buf|
    ensures CrcU32(c, LoadU32(buf, i)) == Fold(c, buf[i..i + 4])
  {
    LoadBytes32(buf, i);
  }

  lemma CrcU64At(c: bv32, buf: seq<bv8>, i: nat)
    requires i + 8 <= |buf|
    ensures CrcU64(c, LoadU64(buf, i)) == Fold(c, buf[i..i + 8])
  {
    LoadBytes64(buf, i);
  }
}
