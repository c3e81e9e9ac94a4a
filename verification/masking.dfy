/**
  `masked_crc32c`: the finalised CRC-32C of a buffer (seed all ones, result
  complemented), rotated right by 15 bits and offset by `MASK_DELTA`, as
  stored in framed and Snappy-compressed files.
 */
module Masking {
  import opened Crc32c
  import opened Sse42
  import opened Dispatch

  const MASK_DELTA: bv32 := 0xa282_ead8

  /** The finalised checksum: seed `~0`, result complemented. */
  function Checksum(buf: seq<bv8>): bv32 {
    !Fold(0xFFFF_FFFF, buf)
  }

  /** The mask as `masked_crc32c` spells it: a shift/or rotation and a
      wrapping add. */
  function Mask(crc: bv32): bv32 {
    ((crc >> 15) | (crc << 17)) + MASK_DELTA
  }

  /** The shift/or pair is a right rotation by 15. */
  lemma MaskRotates(crc: bv32)
    ensures Mask(crc) == crc.RotateRight(15) + MASK_DELTA
  {
  }

  /** The inverse of the mask: take off the delta, rotate back. */
  function Unmask(m: bv32): (crc: bv32)
    ensures crc.RotateRight(15) == m - MASK_DELTA
  {
    (m - MASK_DELTA).RotateLeft(15)
  }

  /** Unmasking recovers the checksum that was masked. */
  lemma UnmaskMask(crc: bv32)
    ensures Unmask(Mask(crc)) == crc
  {
    MaskRotates(crc);
  }

  /** Every 32-bit value is the mask of the value it unmasks to. */
  lemma MaskUnmask(m: bv32)
    ensures Mask(Unmask(m)) == m
  {
    MaskRotates(Unmask(m));
  }

  /** The mask is a bijection: distinct checksums have distinct masks. */
  lemma MaskInjective(a: bv32, b: bv32)
    ensures Mask(a) == Mask(b) <==> a == b
  {
    if Mask(a) == Mask(b) {
      UnmaskMask(a);
      UnmaskMask(b);
    }
  }

  /** The empty buffer's masked checksum is the delta itself. */
  lemma MaskedEmpty()
    ensures Mask(Checksum([])) == MASK_DELTA
  {
  }

  /** The widest `len` a `size_t` holds on the target. */
  function SizeLimit(w: WordSize): nat {
    if w.W8? then 0x1_0000_0000_0000_0000 else 0x1_0000_0000
  }

  /** A length that fits in 32 bits survives the reduction, so on a 32-bit
      target `masked_crc32c` checksums the whole buffer. */
  lemma NothingCutOff(w: WordSize, buf: seq<bv8>)
    requires w.W4? && |buf| < SizeLimit(w)
    ensures Mask(Checksum(buf[..|buf| % 0x1_0000_0000])) == Mask(Checksum(buf))
  {
    assert buf[..|buf| % 0x1_0000_0000] == buf;
  }

  /** On a 64-bit target a buffer of exactly 2^32 bytes has its length cut
      to zero: its masked checksum is the empty buffer's. */
  lemma WrapsToEmpty(buf: seq<bv8>)
    requires |buf| == 0x1_0000_0000
    ensures Mask(Checksum(buf[..|buf| % 0x1_0000_0000])) == MASK_DELTA
  {
    assert buf[..|buf| % 0x1_0000_0000] == [];
    MaskedEmpty();
  }

  /** `masked_crc32c(buf, len)` through `calculate_crc32c`, for a buffer of
      `len == |buf|` bytes at an address congruent to `addr`. The `size_t`
      length reaches the engine's `unsigned int` parameter reduced modulo
      2^32, so only that many leading bytes are checksummed. */
  method MaskedCrc32c(mode: BuildMode, s: State, w: WordSize, addr: nat, buf: seq<bv8>)
    returns (r: bv32)
    requires Bound(mode, s).Some?
    requires |buf| < SizeLimit(w)
    ensures r == Mask(Checksum(buf[..|buf| % 0x1_0000_0000]))
  {
    var n := |buf| % 0x1_0000_0000;
    var crc := Calculate(mode, s, w, addr, 0xFFFF_FFFF, buf[..n]);
    r := Mask(!crc);
  }

  /** `masked_crc32c` on a 32-bit target: `size_t` and `unsigned int` have
      the same width, so the whole buffer is checksummed and masked. */
  method MaskedCrc32cNarrow(mode: BuildMode, s: State, addr: nat, buf: seq<bv8>)
    returns (r: bv32)
    requires Bound(mode, s).Some?
    requires |buf| < SizeLimit(W4)
    ensures r == Mask(Checksum(buf))
  {
    r := MaskedCrc32c(mode, s, W4, addr, buf);
    NothingCutOff(W4, buf);
  }
}
