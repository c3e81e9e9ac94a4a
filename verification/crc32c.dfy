/**
  CRC-32C (Castagnoli) as a byte-at-a-time fold over a reflected 32-bit
  register, the reference every engine of the library must agree with, and
  the portable engine that computes it.
 */
module Crc32c {

  /** The Castagnoli polynomial 0x1EDC6F41, bit-reflected. */
  const POLY: bv32 := 0x82F63B78

  /** One step of the reflected shift register: shift right, and xor the
      polynomial in when the bit shifted out was set. */
  function Shift(c: bv32): bv32 {
    if c & 1 == 1 then (c >> 1) ^ POLY else c >> 1
  }

  /** Eight register steps: one byte's worth. */
  function Shift8(c: bv32): bv32 {
    Shift(Shift(Shift(Shift(Shift(Shift(Shift(Shift(c))))))))
  }

  /** The reference byte step: the byte enters the low end of the register,
      which is then stepped once per bit. */
  function CrcByte(c: bv32, b: bv8): bv32 {
    Shift8(c ^ (b as bv32))
  }

  /** The reference checksum: the bytes of `s` folded into the register
      `c` one at a time, first byte first. */
  function Fold(c: bv32, s: seq<bv8>): bv32
    decreases |s|
  {
    if |s| == 0 then c else Fold(CrcByte(c, s[0]), s[1..])
  }

  /** Folding is incremental: the register after a prefix is the seed for
      the rest. */
  lemma {:induction false} FoldAppend(c: bv32, a: seq<bv8>, b: seq<bv8>)
    ensures Fold(c, a + b) == Fold(Fold(c, a), b)
    decreases |a|
  {
    if |a| == 0 {
      assert a + b == b;
    } else {
      assert (a + b)[1..] == a[1..] + b;
      FoldAppend(CrcByte(c, a[0]), a[1..], b);
    }
  }

  /** Splitting a buffer at any index and feeding the first result as the
      seed of the second pass gives the one-pass checksum. */
  lemma FoldSplit(c: bv32, s: seq<bv8>, i: nat)
    requires i <= |s|
    ensures Fold(Fold(c, s[..i]), s[i..]) == Fold(c, s)
  {
    assert s[..i] + s[i..] == s;
    FoldAppend(c, s[..i], s[i..]);
  }

  /** Extending a folded prefix by the next chunk of the same buffer. */
  lemma FoldExtend(c: bv32, s: seq<bv8>, i: nat, n: nat)
    requires i + n <= |s|
    ensures Fold(Fold(c, s[..i]), s[i..i + n]) == Fold(c, s[..i + n])
  {
    assert s[..i] + s[i..i + n] == s[..i + n];
    FoldAppend(c, s[..i], s[i..i + n]);
  }

  // ---------------------------------------------------------------------
  // The portable engine.

  /** The portable engine, one reference byte step per byte. */
  method CalculateGeneric(crc0: bv32, buf: seq<bv8>) returns (crc: bv32)
    ensures crc == Fold(crc0, buf)
  {
    crc := crc0;
    var i := 0;
    while i < |buf|
      invariant i <= |buf|
      invariant crc == Fold(crc0, buf[..i])
    {
      FoldExtend(crc0, buf, i, 1);
      assert buf[i..i + 1] == [buf[i]];
      crc := CrcByte(crc, buf[i]);
      i := i + 1;
    }
    assert buf[..i] == buf;
  }

  // ---------------------------------------------------------------------
  // Published check values.

  lemma FoldCons(c: bv32, b: bv8, s: seq<bv8>)
    ensures Fold(c, [b] + s) == Fold(CrcByte(c, b), s)
  {
    assert ([b] + s)[1..] == s;
  }

  /** The CRC-32C check value: the nine ASCII bytes "123456789", seed all
      ones, result complemented, give 0xE3069283. */
  lemma CheckValue()
    ensures !Fold(0xFFFF_FFFF, [0x31, 0x32, 0x33, 0x34, 0x35, 0x36, 0x37, 0x38, 0x39]) == 0xE306_9283
  {
    calc {
      Fold(0xFFFF_FFFF, [0x31, 0x32, 0x33, 0x34, 0x35, 0x36, 0x37, 0x38, 0x39]);
      { FoldCons(0xFFFF_FFFF, 0x31, [0x32, 0x33, 0x34, 0x35, 0x36, 0x37, 0x38, 0x39]); }
      Fold(0x6F0A_661C, [0x32, 0x33, 0x34, 0x35, 0x36, 0x37, 0x38, 0x39]);
      { FoldCons(0x6F0A_661C, 0x32, [0x33, 0x34, 0x35, 0x36, 0x37, 0x38, 0x39]); }
      Fold(0x8CAA_3B9F, [0x33, 0x34, 0x35, 0x36, 0x37, 0x38, 0x39]);
      { FoldCons(0x8CAA_3B9F, 0x33, [0x34, 0x35, 0x36, 0x37, 0x38, 0x39]); }
      Fold(0xEF84_D04D, [0x34, 0x35, 0x36, 0x37, 0x38, 0x39]);
      { FoldCons(0xEF84_D04D, 0x34, [0x35, 0x36, 0x37, 0x38, 0x39]); }
      Fold(0x09C5_0B11, [0x35, 0x36, 0x37, 0x38, 0x39]);
      { FoldCons(0x09C5_0B11, 0x35, [0x36, 0x37, 0x38, 0x39]); }
      Fold(0xE72E_DCCA, [0x36, 0x37, 0x38, 0x39]);
      { FoldCons(0xE72E_DCCA, 0x36, [0x37, 0x38, 0x39]); }
      Fold(0xBECA_8E79, [0x37, 0x38, 0x39]);
      { FoldCons(0xBECA_8E79, 0x37, [0x38, 0x39]); }
      Fold(0xEDBD_6815, [0x38, 0x39]);
      { FoldCons(0xEDBD_6815, 0x38, [0x39]); }
      Fold(0x9F78_7F65, [0x39]);
      { FoldCons(0x9F78_7F65, 0x39, []); }
      Fold(0x1CF9_6D7C, []);
    }
  }
}
