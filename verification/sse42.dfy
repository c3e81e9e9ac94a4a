/**
  The SSE4.2 engine: a walk over the buffer that first folds 1, 2 and (on
  64-bit targets) 4 bytes to reach an address aligned to the native word,
  then folds whole words, then drains the 4/2/1 bytes left over.

  The start address enters only through its low bits; the buffer is a byte
  sequence and every load is a little-endian read at an index. Besides the
  checksum the engine reports the loads it issued, stage by stage, so that
  its contract can say which bytes each stage consumed.
 */
module Sse42 {
  import opened Crc32c
  import opened Intrinsics

  /** `sizeof(size_t)` of the build target. */
  datatype WordSize = W4 | W8 {
    function Width(): (n: nat)
      ensures n == 4 || n == 8
    {
      if W8? then 8 else 4
    }
  }

  /** `x` is a multiple of the word size. */
  predicate Aligned(x: nat, w: WordSize) {
    Low(x, w.Width()) == 0
  }

  /** One load issued by the engine: `width` bytes from buffer index
      `offset`. */
  datatype Chunk = Chunk(offset: nat, width: nat)

  /** `x mod m`, that is `x & (m - 1)`, for the power-of-two widths the
      engine works with, spelled out with literal divisors. */
  function Low(x: nat, m: nat): nat
    requires m == 1 || m == 2 || m == 4 || m == 8
  {
    if m == 1 then 0 else if m == 2 then x % 2 else if m == 4 then x % 4 else x % 8
  }

  /** `x & m` is non-zero, for a single-bit mask `m`: bit `m` of `x` is set
      exactly when `x mod 2m` reaches `m`. */
  predicate HasBit(x: nat, m: nat)
    requires m == 1 || m == 2 || m == 4
  {
    Low(x, 2 * m) >= m
  }

  /** The chunks cover the index range [lo, hi) from left to right, each
      non-empty and starting where the previous one ended. */
  predicate Tiles(cs: seq<Chunk>, lo: nat, hi: nat)
    decreases |cs|
  {
    if |cs| == 0 then lo == hi
    else cs[0].offset == lo && cs[0].width > 0 && Tiles(cs[1..], lo + cs[0].width, hi)
  }

  /** Index `x` lies inside chunk `c`. */
  predicate Covers(c: Chunk, x: nat) {
    c.offset <= x < c.offset + c.width
  }

  /** Index `x` lies inside one of the chunks. */
  predicate Covered(cs: seq<Chunk>, x: nat) {
    exists k :: 0 <= k < |cs| && Covers(cs[k], x)
  }

  /** A load of width 1, 2 or 4 at an address that has that bit set. */
  predicate AlignmentLoad(addr: nat, c: Chunk) {
    (c.width == 1 || c.width == 2 || c.width == 4) && HasBit(addr + c.offset, c.width)
  }

  /** Number of bytes the chunks load. */
  function Total(cs: seq<Chunk>): nat
    decreases |cs|
  {
    if |cs| == 0 then 0 else cs[0].width + Total(cs[1..])
  }

  /** The register after folding each chunk's bytes, chunk by chunk. */
  function FoldChunks(c: bv32, buf: seq<bv8>, cs: seq<Chunk>): bv32
    requires forall k :: 0 <= k < |cs| ==> cs[k].offset + cs[k].width <= |buf|
    decreases |cs|
  {
    if |cs| == 0 then c
    else FoldChunks(Fold(c, buf[cs[0].offset..cs[0].offset + cs[0].width]), buf, cs[1..])
  }

  // ---------------------------------------------------------------------
  // Tilings.

  lemma {:induction false} TilesBounds(cs: seq<Chunk>, lo: nat, hi: nat)
    requires Tiles(cs, lo, hi)
    ensures lo <= hi && (|cs| > 0 ==> lo < hi)
    ensures hi - lo == Total(cs)
    ensures forall k :: 0 <= k < |cs| ==> lo <= cs[k].offset && cs[k].offset + cs[k].width <= hi
    decreases |cs|
  {
    if |cs| > 0 {
      TilesBounds(cs[1..], lo + cs[0].width, hi);
      forall k | 1 <= k < |cs|
        ensures lo <= cs[k].offset && cs[k].offset + cs[k].width <= hi
      {
        assert cs[k] == cs[1..][k - 1];
      }
    }
  }

  /** A tiling visits every index of its range exactly once, and in
      increasing order: the chunks are disjoint, sorted, and each index of
      the range lies inside one of them. */
  lemma {:induction false} TilesExactlyOnce(cs: seq<Chunk>, lo: nat, hi: nat)
    requires Tiles(cs, lo, hi)
    ensures forall j, k :: 0 <= j < k < |cs| ==> cs[j].offset + cs[j].width <= cs[k].offset
    ensures forall x :: lo <= x < hi ==> Covered(cs, x)
    decreases |cs|
  {
    if |cs| > 0 {
      var rest := cs[1..];
      var mid := lo + cs[0].width;
      TilesExactlyOnce(rest, mid, hi);
      TilesBounds(rest, mid, hi);
      forall j, k | 0 <= j < k < |cs|
        ensures cs[j].offset + cs[j].width <= cs[k].offset
      {
        assert cs[k] == rest[k - 1];
        if j > 0 {
          assert cs[j] == rest[j - 1];
        }
      }
      forall x | lo <= x < hi
        ensures Covered(cs, x)
      {
        if x < mid {
          assert Covers(cs[0], x);
        } else {
          assert Covered(rest, x);
          var k :| 0 <= k < |rest| && Covers(rest[k], x);
          assert cs[k + 1] == rest[k];
        }
      }
    }
  }

  lemma {:induction false} TilesAppend(a: seq<Chunk>, b: seq<Chunk>, lo: nat, mid: nat, hi: nat)
    requires Tiles(a, lo, mid) && Tiles(b, mid, hi)
    ensures Tiles(a + b, lo, hi)
    decreases |a|
  {
    if |a| == 0 {
      assert a + b == b;
    } else {
      assert (a + b)[1..] == a[1..] + b;
      TilesAppend(a[1..], b, lo + a[0].width, mid, hi);
    }
  }

  /** Extending a tiling by one chunk that starts where it ends. */
  lemma TilesSnoc(cs: seq<Chunk>, lo: nat, hi: nat, width: nat)
    requires Tiles(cs, lo, hi) && width > 0
    ensures Tiles(cs + [Chunk(hi, width)], lo, hi + width)
  {
    assert Tiles([Chunk(hi, width)][1..], hi + width, hi + width);
    TilesAppend(cs, [Chunk(hi, width)], lo, hi, hi + width);
  }

  /** Three consecutive tilings make one. */
  lemma TilesThree(a: seq<Chunk>, b: seq<Chunk>, c: seq<Chunk>, i: nat, j: nat, k: nat)
    requires Tiles(a, 0, i) && Tiles(b, i, j) && Tiles(c, j, k)
    ensures Tiles(a + b + c, 0, k)
    ensures Total(a) == i && Total(c) == k - j
    ensures k == 0 ==> a == [] && b == [] && c == []
  {
    TilesBounds(a, 0, i);
    TilesBounds(b, i, j);
    TilesBounds(c, j, k);
    TilesAppend(a, b, 0, i, j);
    TilesAppend(a + b, c, 0, j, k);
  }

  /** However a range of the buffer is cut into chunks, folding chunk by
      chunk gives the register of folding the range byte by byte. */
  lemma {:induction false} FoldTiles(c: bv32, buf: seq<bv8>, cs: seq<Chunk>, lo: nat, hi: nat)
    requires Tiles(cs, lo, hi) && hi <= |buf|
    ensures lo <= hi
    ensures forall k :: 0 <= k < |cs| ==> cs[k].offset + cs[k].width <= |buf|
    ensures FoldChunks(c, buf, cs) == Fold(c, buf[lo..hi])
    decreases |cs|
  {
    TilesBounds(cs, lo, hi);
    if |cs| == 0 {
      assert buf[lo..hi] == [];
    } else {
      var mid := lo + cs[0].width;
      TilesBounds(cs[1..], mid, hi);
      FoldTiles(Fold(c, buf[lo..mid]), buf, cs[1..], mid, hi);
      assert buf[lo..hi] == buf[lo..mid] + buf[mid..hi];
      FoldAppend(c, buf[lo..mid], buf[mid..hi]);
    }
  }

  // ---------------------------------------------------------------------
  // Arithmetic on the address and length bits.

  /** `Low` is the remainder of Euclidean division. */
  lemma LowMod(x: nat, m: nat)
    requires m == 1 || m == 2 || m == 4 || m == 8
    ensures Low(x, m) == x % m
  {
  }

  /** `HasBit` is the bit test `(x / m) % 2 == 1`. */
  lemma HasBitDiv(x: nat, m: nat)
    requires m == 1 || m == 2 || m == 4
    ensures HasBit(x, m) <==> (x / m) % 2 == 1
  {
    if m == 1 {
      assert x / 1 == x;
    } else if m == 2 {
      var a := x / 2;
      assert x == 2 * a + x % 2 && a == 2 * (a / 2) + a % 2;
      Rem4(x, a / 2, 2 * (a % 2) + x % 2);
    } else {
      var a := x / 4;
      assert x == 4 * a + x % 4 && a == 2 * (a / 2) + a % 2;
      Rem8(x, a / 2, 4 * (a % 2) + x % 4);
    }
  }

  /** Bit `m` of a length splits its remainder modulo `2m`. */
  lemma LowBit(n: nat, m: nat)
    requires m == 1 || m == 2 || m == 4
    ensures Low(n, 2 * m) == (if HasBit(n, m) then m else 0) + Low(n, m)
  {
    Mod8(n, n / 8, n % 8);
  }

  // ---------------------------------------------------------------------
  // The engine.

  /** The instruction of width `m` applied to the little-endian load at
      index `i`: `_mm_crc32_u8`, `_u16`, `_u32` or `_u64`. */
  method Fetch(c: bv32, buf: seq<bv8>, i: nat, m: nat) returns (r: bv32)
    requires m == 1 || m == 2 || m == 4 || m == 8
    requires i + m <= |buf|
    ensures r == Fold(c, buf[i..i + m])
  {
    if m == 1 {
      CrcU8At(c, buf, i);
      r := CrcU8(c, buf[i]);
    } else if m == 2 {
      CrcU16At(c, buf, i);
      r := CrcU16(c, LoadU16(buf, i));
    } else if m == 4 {
      CrcU32At(c, buf, i);
      r := CrcU32(c, LoadU32(buf, i));
    } else {
      CrcU64At(c, buf, i);
      r := CrcU64(c, LoadU64(buf, i));
    }
  }

  /** The engine's state between steps: the register, the number of bytes
      consumed (the C code's `buffer` is at address `addr + pos`), its
      `length` variable, and the loads issued by the current stage. */
  datatype Walk = Walk(crc: bv32, pos: nat, length: nat, loads: seq<Chunk>)

  lemma TakeAll(buf: seq<bv8>)
    ensures buf[..|buf|] == buf && buf[0..|buf|] == buf
  {
  }

  /** The register holds the checksum of the bytes consumed so far, and the
      current stage's loads cover exactly the bytes from `from` on, in
      order. */
  predicate Sound(crc0: bv32, buf: seq<bv8>, from: nat, s: Walk) {
    s.pos <= |buf| && s.crc == Fold(crc0, buf[..s.pos]) && Tiles(s.loads, from, s.pos)
  }

  /** Folds the next `m` bytes with one instruction. */
  method Advance(crc0: bv32, buf: seq<bv8>, from: nat, s: Walk, m: nat) returns (r: Walk)
    requires m == 1 || m == 2 || m == 4 || m == 8
    requires s.pos + m <= |buf| && Sound(crc0, buf, from, s)
    ensures Sound(crc0, buf, from, r)
    ensures r.pos == s.pos + m && r.length == s.length && r.loads == s.loads + [Chunk(s.pos, m)]
  {
    FoldExtend(crc0, buf, s.pos, m);
    TilesSnoc(s.loads, from, s.pos, m);
    var crc := Fetch(s.crc, buf, s.pos, m);
    r := Walk(crc, s.pos + m, s.length, s.loads + [Chunk(s.pos, m)]);
  }

  /** Prefix loads: alignment loads narrower than `bound`, each wider than
      the one before. Stated from the back, the way the prefix grows. */
  predicate PrefixLoads(addr: nat, loads: seq<Chunk>, bound: nat)
    decreases |loads|
  {
    if |loads| == 0 then true
    else
      var last := loads[|loads| - 1];
      AlignmentLoad(addr, last) && last.width < bound && PrefixLoads(addr, loads[..|loads| - 1], last.width)
  }

  /** What `PrefixLoads` says of each load and of each pair of loads. */
  lemma {:induction false} PrefixLoadsAll(addr: nat, loads: seq<Chunk>, bound: nat)
    requires PrefixLoads(addr, loads, bound)
    ensures forall k :: 0 <= k < |loads| ==> AlignmentLoad(addr, loads[k]) && loads[k].width < bound
    ensures forall j, k :: 0 <= j < k < |loads| ==> loads[j].width < loads[k].width
    decreases |loads|
  {
    if |loads| > 0 {
      var n := |loads| - 1;
      var init := loads[..n];
      PrefixLoadsAll(addr, init, loads[n].width);
      forall k | 0 <= k < n
        ensures AlignmentLoad(addr, loads[k]) && loads[k].width < loads[n].width
      {
        assert loads[k] == init[k];
      }
      forall j, k | 0 <= j < k < |loads|
        ensures loads[j].width < loads[k].width
      {
        if k < n {
          assert loads[j] == init[j] && loads[k] == init[k];
        }
      }
    }
  }

  /** Every load is `m` bytes wide. */
  predicate Widths(loads: seq<Chunk>, m: nat) {
    forall k :: 0 <= k < |loads| ==> loads[k].width == m
  }

  /** Bulk loads: one word each, at a word-aligned address. */
  predicate BulkLoads(addr: nat, w: WordSize, loads: seq<Chunk>) {
    forall k :: 0 <= k < |loads| ==> loads[k].width == w.Width() && Aligned(addr + loads[k].offset, w)
  }

  /** Drain loads: widths 1, 2 or 4 between `least` and `most`, strictly
      decreasing. */
  predicate DrainLoads(loads: seq<Chunk>, least: nat, most: nat) {
    && (forall k :: 0 <= k < |loads| ==>
          (loads[k].width == 1 || loads[k].width == 2 || loads[k].width == 4) && least <= loads[k].width <= most)
    && (forall j, k :: 0 <= j < k < |loads| ==> loads[j].width > loads[k].width)
  }

  lemma DrainLoadsSnoc(loads: seq<Chunk>, m: nat, most: nat, c: Chunk)
    requires m == 1 || m == 2 || m == 4
    requires DrainLoads(loads, 2 * m, most) && c.width == m && m <= most
    ensures DrainLoads(loads + [c], m, most)
  {
  }

  /** The state before the alignment step for bit `m`: the bytes consumed
      were taken by alignment loads narrower than `m`, and the address is
      aligned to `m` unless fewer than `m` bytes remain. */
  predicate PrefixInv(addr: nat, m: nat, crc0: bv32, buf: seq<bv8>, s: Walk)
    requires m == 1 || m == 2 || m == 4 || m == 8
  {
    && Sound(crc0, buf, 0, s) && s.pos + s.length == |buf| && s.pos < m
    && PrefixLoads(addr, s.loads, m)
    && (Low(addr + s.pos, m) == 0 || s.length < m)
  }

  /** The arithmetic of one alignment step: from address `x` with `len`
      bytes left to address `y` with `len2` left. */
  lemma PrefixArith(x: nat, len: nat, y: nat, len2: nat, m: nat)
    requires m == 1 || m == 2 || m == 4
    requires Low(x, m) == 0 || len < m
    requires if HasBit(x, m) && len >= m then y == x + m && len2 == len - m else y == x && len2 == len
    ensures Low(y, 2 * m) == 0 || len2 < 2 * m
  {
    if m == 1 {
      PrefixArith1(x, len, y, len2);
    } else if m == 2 {
      PrefixArith2(x, len, y, len2);
    } else {
      PrefixArith4(x, len, y, len2);
    }
  }

  lemma PrefixArith1(x: nat, len: nat, y: nat, len2: nat)
    requires if x % 2 == 1 && len >= 1 then y == x + 1 && len2 == len - 1 else y == x && len2 == len
    ensures y % 2 == 0 || len2 < 2
  {
  }

  lemma PrefixArith2(x: nat, len: nat, y: nat, len2: nat)
    requires x % 2 == 0 || len < 2
    requires if x % 4 >= 2 && len >= 2 then y == x + 2 && len2 == len - 2 else y == x && len2 == len
    ensures y % 4 == 0 || len2 < 4
  {
    var q := x / 4;
    assert x == 4 * q + x % 4;
    if x % 4 >= 2 && len >= 2 {
      assert x % 4 == 2 by {
        assert x % 2 == (x % 4) % 2;
      }
      assert y == 4 * (q + 1);
    }
  }

  lemma PrefixArith4(x: nat, len: nat, y: nat, len2: nat)
    requires x % 4 == 0 || len < 4
    requires if x % 8 >= 4 && len >= 4 then y == x + 4 && len2 == len - 4 else y == x && len2 == len
    ensures y % 8 == 0 || len2 < 8
  {
    var q := x / 8;
    assert x == 8 * q + x % 8;
    if x % 8 >= 4 && len >= 4 {
      assert x % 8 == 4 by {
        assert x % 4 == (x % 8) % 4;
      }
      assert y == 8 * (q + 1);
    }
  }

  // ---------------------------------------------------------------------
  // How long the prefix is.

  /** Bytes from address `x` up to the next multiple of `m`. */
  function Gap(x: nat, m: nat): nat
    requires m == 1 || m == 2 || m == 4 || m == 8
  {
    if Low(x, m) == 0 then 0 else m - Low(x, m)
  }

  /** The prefix a buffer of `n` bytes at address `x` gets when the
      alignment steps go up to bit `m / 2`: the gap to the next multiple of
      the largest power of two up to `m` whose gap still fits in the
      buffer. */
  function Reach(x: nat, n: nat, m: nat): nat
    requires m == 1 || m == 2 || m == 4 || m == 8
    decreases m
  {
    if m == 1 then 0
    else if Gap(x, m) <= n then Gap(x, m)
    else Reach(x, n, m / 2)
  }

  /** The gap to `2m` is the gap to `m`, plus `m` when the address reached
      has bit `m` set. */
  lemma GapDouble(x: nat, m: nat)
    requires m == 1 || m == 2 || m == 4
    ensures Gap(x, m) < m && Low(x + Gap(x, m), m) == 0
    ensures Gap(x, 2 * m) == Gap(x, m) + (if HasBit(x + Gap(x, m), m) then m else 0)
  {
    if m == 2 {
      GapDouble2(x);
    } else if m == 4 {
      GapDouble4(x);
    }
  }

  /** Euclidean division by 2, 4 and 8: a quotient and a remainder in
      range determine `%`. */
  lemma Rem2(x: nat, k: nat, b: nat)
    requires x == 2 * k + b && b < 2
    ensures x % 2 == b
  {
  }

  lemma Rem4(x: nat, k: nat, b: nat)
    requires x == 4 * k + b && b < 4
    ensures x % 4 == b
  {
  }

  lemma Rem8(x: nat, k: nat, b: nat)
    requires x == 8 * k + b && b < 8
    ensures x % 8 == b
  {
  }

  /** Residues of `x = 8q + r` by 8, 4 and 2, read off `r`. */
  lemma Mod8(x: nat, q: nat, r: nat)
    requires x == 8 * q + r && r < 8
    ensures x % 8 == r
    ensures x % 4 == if r < 4 then r else r - 4
    ensures x % 2 == if r == 1 || r == 3 || r == 5 || r == 7 then 1 else 0
  {
    Rem8(x, q, r);
    if r < 4 {
      Rem4(x, 2 * q, r);
    } else {
      Rem4(x, 2 * q + 1, r - 4);
    }
    if r < 2 {
      Rem2(x, 4 * q, r);
    } else if r < 4 {
      Rem2(x, 4 * q + 1, r - 2);
    } else if r < 6 {
      Rem2(x, 4 * q + 2, r - 4);
    } else {
      Rem2(x, 4 * q + 3, r - 6);
    }
  }

  lemma GapDouble2(x: nat)
    ensures var g := if x % 2 == 0 then 0 else 2 - x % 2;
      && (x + g) % 2 == 0
      && (if x % 4 == 0 then 0 else 4 - x % 4) == g + (if (x + g) % 4 >= 2 then 2 else 0)
  {
    var q, r := x / 8, x % 8;
    Mod8(x, q, r);
    if r == 1 || r == 3 || r == 5 || r == 7 {
      if r < 7 {
        Mod8(x + 1, q, r + 1);
      } else {
        Mod8(x + 1, q + 1, 0);
      }
    }
  }

  lemma GapDouble4(x: nat)
    ensures var g := if x % 4 == 0 then 0 else 4 - x % 4;
      && (x + g) % 4 == 0
      && (if x % 8 == 0 then 0 else 8 - x % 8) == g + (if (x + g) % 8 >= 4 then 4 else 0)
  {
    var q, r := x / 8, x % 8;
    Mod8(x, q, r);
    if 0 < r < 4 {
      Mod8(x + (4 - r), q, 4);
    } else if 4 < r {
      Mod8(x + (8 - r), q + 1, 0);
    }
  }

  /** The only offset below `m` that reaches a multiple of `m` is the
      gap. */
  lemma GapUnique(x: nat, p: nat, m: nat)
    requires m == 1 || m == 2 || m == 4 || m == 8
    requires p < m && Low(x + p, m) == 0
    ensures p == Gap(x, m)
  {
    var q, r := x / 8, x % 8;
    Mod8(x, q, r);
    if r + p < 8 {
      Mod8(x + p, q, r + p);
    } else {
      Mod8(x + p, q + 1, r + p - 8);
    }
  }

  /** `Reach` is the longest gap that fits: it fits, it is one of the
      gaps, and every gap to a power of two up to `m` that fits is no
      longer. */
  lemma {:induction false} ReachLongest(x: nat, n: nat, m: nat)
    requires m == 1 || m == 2 || m == 4 || m == 8
    ensures Reach(x, n, m) <= n
    ensures Reach(x, n, m) == Gap(x, 1) || Reach(x, n, m) == Gap(x, 2)
            || Reach(x, n, m) == Gap(x, 4) || Reach(x, n, m) == Gap(x, 8)
    ensures forall k :: (k == 1 || k == 2 || k == 4 || k == 8) && k <= m && Gap(x, k) <= n ==>
              Gap(x, k) <= Reach(x, n, m)
    decreases m
  {
    if m > 1 {
      ReachLongest(x, n, m / 2);
      GapDouble(x, m / 2);
      if m == 8 {
        GapDouble(x, 2);
        GapDouble(x, 1);
      } else if m == 4 {
        GapDouble(x, 1);
      }
    }
  }

  /** One alignment step moves the prefix from `Reach` up to bit `m` to
      `Reach` up to bit `2m`. */
  lemma PrefixReach(x: nat, n: nat, p: nat, len: nat, p2: nat, m: nat)
    requires m == 1 || m == 2 || m == 4
    requires p + len == n && p < m && p == Reach(x, n, m)
    requires Low(x + p, m) == 0 || len < m
    requires if HasBit(x + p, m) && len >= m then p2 == p + m else p2 == p
    ensures p2 == Reach(x, n, 2 * m)
  {
    GapDouble(x, m);
    assert Reach(x, n, 2 * m) == if Gap(x, 2 * m) <= n then Gap(x, 2 * m) else Reach(x, n, m);
    if Gap(x, m) <= n {
      assert p == Gap(x, m);
    } else if Low(x + p, m) == 0 {
      GapUnique(x, p, m);
      assert false;
    }
  }

  /** Below bit `m` the prefix stops at an `m`-aligned address, or the
      buffer ends less than `m` bytes further on. */
  lemma {:induction false} ReachAligned(x: nat, n: nat, m: nat)
    requires m == 1 || m == 2 || m == 4
    ensures Reach(x, n, m) < m && Reach(x, n, m) <= n
    ensures Low(x + Reach(x, n, m), m) == 0 || n - Reach(x, n, m) < m
    decreases m
  {
    if m > 1 {
      GapDouble(x, m);
      if Gap(x, m) > n {
        ReachAligned(x, n, m / 2);
      }
    }
  }

  /** `Reach` grows one bit at a time: the prefix up to bit `2m` extends
      the prefix up to bit `m` by `m` bytes exactly when the address it
      reaches has bit `m` set and `m` more bytes fit. */
  lemma ReachStep(x: nat, n: nat, m: nat)
    requires m == 1 || m == 2 || m == 4
    ensures Reach(x, n, 2 * m) ==
            if HasBit(x + Reach(x, n, m), m) && Reach(x, n, m) + m <= n then Reach(x, n, m) + m else Reach(x, n, m)
  {
    var p := Reach(x, n, m);
    ReachAligned(x, n, m);
    var p2 := if HasBit(x + p, m) && n - p >= m then p + m else p;
    PrefixReach(x, n, p, n - p, p2, m);
  }

  /** The loads of one alignment step keep the prefix's shape. */
  lemma PrefixLoadsGrow(addr: nat, m: nat, loads: seq<Chunk>, loads2: seq<Chunk>, pos: nat)
    requires m == 1 || m == 2 || m == 4
    requires PrefixLoads(addr, loads, m)
    requires loads2 == loads || (loads2 == loads + [Chunk(pos, m)] && HasBit(addr + pos, m))
    ensures PrefixLoads(addr, loads2, 2 * m)
  {
    if loads2 != loads {
      assert loads2[..|loads2| - 1] == loads;
    }
  }

  /** An alignment step: when the address has bit `m` set and at least `m`
      bytes remain, fold `m` bytes and take them off `length`. */
  method PrefixStep(addr: nat, m: nat, crc0: bv32, buf: seq<bv8>, s: Walk) returns (r: Walk)
    requires m == 1 || m == 2 || m == 4
    requires Sound(crc0, buf, 0, s) && s.pos + s.length == |buf|
    ensures Sound(crc0, buf, 0, r) && r.pos + r.length == |buf|
    // either nothing happens, or one load of m bytes at the current address
    ensures r == s || (r.pos == s.pos + m && r.length == s.length - m && r.loads == s.loads + [Chunk(s.pos, m)])
    ensures r != s <==> HasBit(addr + s.pos, m) && s.length >= m
  {
    if HasBit(addr + s.pos, m) && s.length >= m {
      r := Advance(crc0, buf, 0, s, m);
      r := r.(length := s.length - m);
    } else {
      r := s;
    }
  }

  /** After the alignment step for bit `m` the address is aligned to `2m`,
      or fewer than `2m` bytes remain. */
  lemma PrefixStepAligns(addr: nat, m: nat, crc0: bv32, buf: seq<bv8>, s: Walk, r: Walk)
    requires m == 1 || m == 2 || m == 4
    requires PrefixInv(addr, m, crc0, buf, s)
    requires Sound(crc0, buf, 0, r) && r.pos + r.length == |buf|
    requires r == s || (r.pos == s.pos + m && r.length == s.length - m && r.loads == s.loads + [Chunk(s.pos, m)])
    requires r != s <==> HasBit(addr + s.pos, m) && s.length >= m
    ensures r.pos < 2 * m
    ensures PrefixLoads(addr, r.loads, 2 * m)
    ensures Low(addr + r.pos, 2 * m) == 0 || r.length < 2 * m
  {
    PrefixArith(addr + s.pos, s.length, addr + r.pos, r.length, m);
    PrefixLoadsGrow(addr, m, s.loads, r.loads, s.pos);
  }

  /** The alignment step for bit `m` with the invariant it carries to
      bit `2m`: the prefix so far is the longest alignment gap up to `2m`
      that fits in the buffer. */
  method AlignStep(addr: nat, m: nat, crc0: bv32, buf: seq<bv8>, s: Walk) returns (r: Walk)
    requires m == 1 || m == 2 || m == 4
    requires PrefixInv(addr, m, crc0, buf, s) && s.pos == Reach(addr, |buf|, m)
    ensures PrefixInv(addr, 2 * m, crc0, buf, r)
    ensures r.pos == Reach(addr, |buf|, 2 * m)
  {
    r := PrefixStep(addr, m, crc0, buf, s);
    PrefixStepAligns(addr, m, crc0, buf, s, r);
    PrefixReach(addr, |buf|, s.pos, s.length, r.pos, m);
  }

  /** A drain step: when `length` has bit `m` set, fold `m` bytes. The
      bytes left over drop from `length mod 2m` to `length mod m`. */
  method DrainStep(m: nat, most: nat, length: nat, crc0: bv32, buf: seq<bv8>, from: nat, s: Walk) returns (r: Walk)
    requires m == 1 || m == 2 || m == 4
    requires m <= most
    requires Sound(crc0, buf, from, s) && |buf| - s.pos == Low(length, 2 * m)
    requires DrainLoads(s.loads, 2 * m, most)
    ensures Sound(crc0, buf, from, r) && |buf| - r.pos == Low(length, m)
    ensures DrainLoads(r.loads, m, most)
    // one load of m bytes exactly when `length` has bit m set
    ensures HasBit(length, m) <==> r.pos == s.pos + m
    ensures !HasBit(length, m) <==> r == s
  {
    LowBit(length, m);
    if HasBit(length, m) {
      DrainLoadsSnoc(s.loads, m, most, Chunk(s.pos, m));
      r := Advance(crc0, buf, from, s, m);
    } else {
      r := s;
    }
  }

  /** The alignment prefix: 1, 2 and, on 64-bit targets, 4 bytes, each
      folded only where the address has that bit set. */
  method AlignPrefix(w: WordSize, addr: nat, crc0: bv32, buf: seq<bv8>) returns (s: Walk)
    ensures Sound(crc0, buf, 0, s)
    ensures s.pos + s.length == |buf|
    ensures s.pos < w.Width()
    ensures PrefixLoads(addr, s.loads, w.Width())
    ensures Low(addr + s.pos, w.Width()) == 0 || s.length < w.Width()
    ensures s.pos == Reach(addr, |buf|, w.Width())
  {
    s := Walk(crc0, 0, |buf|, []);
    assert buf[..0] == [];
    s := AlignStep(addr, 1, crc0, buf, s);
    s := AlignStep(addr, 2, crc0, buf, s);
    if w == W8 {
      s := AlignStep(addr, 4, crc0, buf, s);
    }
  }

  /** Whole words in `n` bytes. */
  function WordCount(n: nat, w: WordSize): nat {
    if w.W8? then n / 8 else n / 4
  }

  /** `WordCount` is the quotient of Euclidean division by the word size. */
  lemma WordCountDiv(n: nat, w: WordSize)
    ensures WordCount(n, w) == n / w.Width()
  {
  }

  /** `q` words, in bytes. */
  function Span(q: nat, w: WordSize): nat {
    if w.W8? then 8 * q else 4 * q
  }

  lemma Words4(n: nat)
    ensures n == 4 * (n / 4) + n % 4 && n % 4 < 4
    ensures n / 4 > 0 <==> n >= 4
  {
  }

  lemma Words8(n: nat)
    ensures n == 8 * (n / 8) + n % 8 && n % 8 < 8
    ensures n / 8 > 0 <==> n >= 8
  {
  }

  /** Division by the word size: `n` bytes are `WordCount(n, w)` whole words
      and a tail of fewer than a word. */
  lemma Words(n: nat, w: WordSize)
    ensures n == Span(WordCount(n, w), w) + Low(n, w.Width()) && Low(n, w.Width()) < w.Width()
    ensures WordCount(n, w) > 0 <==> n >= w.Width()
  {
    if w.W8? {
      Words8(n);
    } else {
      Words4(n);
    }
  }

  lemma AlignedStep(x: nat, w: WordSize)
    requires Aligned(x, w)
    ensures Aligned(x + w.Width(), w)
  {
  }

  /** Word-wide loads tiling a range that starts at an aligned address are
      all aligned. */
  lemma {:induction false} BulkAligned(addr: nat, w: WordSize, loads: seq<Chunk>, lo: nat, hi: nat)
    requires Tiles(loads, lo, hi) && Widths(loads, w.Width())
    requires |loads| > 0 ==> Aligned(addr + lo, w)
    ensures BulkLoads(addr, w, loads)
    decreases |loads|
  {
    if |loads| > 0 {
      var rest := loads[1..];
      AlignedStep(addr + lo, w);
      assert Widths(rest, w.Width()) by {
        forall k | 0 <= k < |rest|
          ensures rest[k].width == w.Width()
        {
          assert rest[k] == loads[k + 1];
        }
      }
      BulkAligned(addr, w, rest, lo + w.Width(), hi);
      forall k | 0 <= k < |loads|
        ensures loads[k].width == w.Width() && Aligned(addr + loads[k].offset, w)
      {
        if k > 0 {
          assert loads[k] == rest[k - 1];
        }
      }
    }
  }

  /** The bulk loop: `length / W` words, each at a word-aligned address.
      It leaves `length` alone. */
  method BulkWords(w: WordSize, addr: nat, crc0: bv32, buf: seq<bv8>, s: Walk) returns (r: Walk)
    requires Sound(crc0, buf, 0, s) && s.pos + s.length == |buf|
    requires s.length >= w.Width() ==> Aligned(addr + s.pos, w)
    ensures Sound(crc0, buf, s.pos, r) && r.length == s.length
    ensures |buf| - r.pos == Low(s.length, w.Width())
    ensures |r.loads| == WordCount(s.length, w) && BulkLoads(addr, w, r.loads)
  {
    r := Walk(s.crc, s.pos, s.length, []);
    var quotient := WordCount(s.length, w);
    Words(s.length, w);
    while quotient > 0
      invariant Sound(crc0, buf, s.pos, r) && r.length == s.length
      invariant |buf| - r.pos == Span(quotient, w) + Low(s.length, w.Width())
      invariant |r.loads| + quotient == WordCount(s.length, w) && Widths(r.loads, w.Width())
    {
      r := Advance(crc0, buf, s.pos, r, w.Width());
      quotient := quotient - 1;
    }
    BulkAligned(addr, w, r.loads, s.pos, r.pos);
  }

  /** The drain: 4 (on 64-bit targets), 2 and 1 bytes, as the low bits of
      `length` say. */
  method DrainTail(w: WordSize, length: nat, crc0: bv32, buf: seq<bv8>, s: Walk) returns (r: Walk)
    requires s.pos <= |buf| && s.crc == Fold(crc0, buf[..s.pos])
    requires |buf| - s.pos == Low(length, w.Width())
    // the whole buffer is checksummed, the drain's loads ending at its end
    ensures r.crc == Fold(crc0, buf) && Tiles(r.loads, s.pos, |buf|)
    ensures DrainLoads(r.loads, 1, w.Width() / 2)
  {
    var most := w.Width() / 2;
    r := Walk(s.crc, s.pos, s.length, []);
    if w == W8 {
      r := DrainStep(4, most, length, crc0, buf, s.pos, r);
    }
    r := DrainStep(2, most, length, crc0, buf, s.pos, r);
    r := DrainStep(1, most, length, crc0, buf, s.pos, r);
    TakeAll(buf);
  }

  /** When the buffer reaches the next word boundary, the prefix is
      exactly the gap to it. */
  lemma ReachWord(x: nat, n: nat, w: WordSize)
    ensures n >= Gap(x, w.Width()) ==> Reach(x, n, w.Width()) == Gap(x, w.Width())
  {
  }

  /** The three stages back to back: the prefix from the start of the
      buffer, the bulk from where the prefix stopped, the drain from where
      the bulk stopped. */
  method RunStages(w: WordSize, addr: nat, crc0: bv32, buf: seq<bv8>) returns (p: Walk, b: Walk, d: Walk)
    ensures d.crc == Fold(crc0, buf)
    ensures Tiles(p.loads, 0, p.pos) && Tiles(b.loads, p.pos, b.pos) && Tiles(d.loads, b.pos, |buf|)
    ensures p.pos + p.length == |buf| && p.pos < w.Width()
    ensures p.pos == Reach(addr, |buf|, w.Width())
    ensures PrefixLoads(addr, p.loads, w.Width())
    ensures Low(addr + p.pos, w.Width()) == 0 || p.length < w.Width()
    ensures |b.loads| == WordCount(p.length, w) && BulkLoads(addr, w, b.loads)
    ensures |buf| - b.pos == Low(p.length, w.Width())
    ensures DrainLoads(d.loads, 1, w.Width() / 2)
  {
    p := AlignPrefix(w, addr, crc0, buf);
    b := BulkWords(w, addr, crc0, buf, p);
    d := DrainTail(w, p.length, crc0, buf, b);
  }

  /** `FoldTiles` over the whole buffer. */
  lemma FoldWhole(c: bv32, buf: seq<bv8>, cs: seq<Chunk>)
    requires Tiles(cs, 0, |buf|)
    ensures forall k :: 0 <= k < |cs| ==> cs[k].offset + cs[k].width <= |buf|
    ensures FoldChunks(c, buf, cs) == Fold(c, buf)
  {
    FoldTiles(c, buf, cs, 0, |buf|);
    TakeAll(buf);
  }

  /** What a prefix of `pre` bytes leaves of `n`: an aligned address when a
      word remains, `length / W` words and `length mod W` bytes. */
  lemma PrefixLeaves(w: WordSize, addr: nat, n: nat, pre: nat, length: nat, words: nat, rest: nat)
    requires pre + length == n
    requires Low(addr + pre, w.Width()) == 0 || length < w.Width()
    requires words == WordCount(length, w) && rest == Low(length, w.Width())
    ensures n - pre >= w.Width() ==> Aligned(addr + pre, w)
    ensures words == WordCount(n - pre, w)
    ensures rest == Low(n - pre, w.Width())
  {
    assert n - pre == length;
  }

  /** `calculate_crc32c_sse4_2` on a buffer of fewer than 2^32 bytes (its
      `unsigned int length`) whose first byte sits at an address
      congruent to `addr`. Besides the checksum it reports the loads of the
      three stages. */
  method CalculateSse42(w: WordSize, addr: nat, crc0: bv32, buf: seq<bv8>)
    returns (crc: bv32, prefix: seq<Chunk>, bulk: seq<Chunk>, drain: seq<Chunk>)
    requires |buf| < 0x1_0000_0000
    // the same checksum as the byte-at-a-time reference, for every alignment
    ensures crc == Fold(crc0, buf)
    // every byte is loaded exactly once, in buffer order, and folding the
    // loads one by one gives the result
    ensures Tiles(prefix + bulk + drain, 0, |buf|)
    ensures forall k :: 0 <= k < |prefix + bulk + drain| ==>
              (prefix + bulk + drain)[k].offset + (prefix + bulk + drain)[k].width <= |buf|
    ensures crc == FoldChunks(crc0, buf, prefix + bulk + drain)
    // the prefix: at most one load each of 1, 2 and 4 bytes, in that order,
    // each where the address has that bit set, narrower than a word
    ensures PrefixLoads(addr, prefix, w.Width())
    ensures Total(prefix) < w.Width()
    // the prefix is the gap to the next word boundary when the buffer
    // reaches it, and otherwise the longest gap to a smaller boundary that
    // fits (see `ReachLongest`)
    ensures Total(prefix) == Reach(addr, |buf|, w.Width())
    ensures |buf| >= Gap(addr, w.Width()) ==> Total(prefix) == Gap(addr, w.Width())
    ensures |buf| - Total(prefix) >= w.Width() ==> Aligned(addr + Total(prefix), w)
    // the bulk: `length / W` words of what the prefix left, each aligned
    ensures |bulk| == WordCount(|buf| - Total(prefix), w)
    ensures BulkLoads(addr, w, bulk)
    // the drain: the `length mod W` bytes left, widths decreasing
    ensures Total(drain) == Low(|buf| - Total(prefix), w.Width())
    ensures DrainLoads(drain, 1, w.Width() / 2)
    // an empty buffer returns the seed and loads nothing
    ensures |buf| == 0 ==> crc == crc0 && prefix == [] && bulk == [] && drain == []
  {
    var p, b, d := RunStages(w, addr, crc0, buf);
    crc, prefix, bulk, drain := d.crc, p.loads, b.loads, d.loads;
    TilesThree(prefix, bulk, drain, p.pos, b.pos, |buf|);
    PrefixLeaves(w, addr, |buf|, Total(prefix), p.length, |bulk|, Total(drain));
    ReachWord(addr, |buf|, w);
    FoldWhole(crc0, buf, prefix + bulk + drain);
  }
}
