# CRC-32C in snzip, modelled in Dafny

snzip frames its compressed data with CRC-32C (Castagnoli) checksums, in the
masked form Snappy's framing format stores. This project models the three
pieces of code that produce those checksums, and proves what they promise.

- **The SSE4.2 engine** `calculate_crc32c_sse4_2` (`Sse42.CalculateSse42`).
  It walks the buffer in three stages:
  - an alignment prefix of 1, 2 and (on 64-bit targets) 4 bytes;
  - a bulk loop over native words (`size_t`: 4 or 8 bytes, the `WordSize`
    parameter);
  - a drain of 4/2/1 bytes, chosen by the low bits of the remaining length.

  The start address enters only through its low bits (`addr`). The buffer is a
  `seq<bv8>`. Each `_mm_crc32_u8/u16/u32/u64` instruction folds the bytes of
  its operand, least significant first, into the register. Operands come from
  little-endian loads at a buffer index (module `Intrinsics`). Besides the
  checksum, the engine reports the loads each stage issued. Its contract can
  therefore say which bytes each stage consumed, and with what width and
  alignment.
- **The reference checksum** `Crc32c.Fold`. It is a bytewise reflected
  CRC-32C with polynomial 0x82F63B78 (0x1EDC6F41 reflected). It also stands in
  for the portable engine `calculate_crc32c_generic`, which the header declares
  but whose body is not part of this model (`Crc32c.CalculateGeneric`).
- **Dispatch** (module `Dispatch`). It covers:
  - the three build configurations: run-time detection, forced SSE4.2 and
    forced portable;
  - the one-shot `crc32c_init`, as a pure state machine over the `initialized`
    flag and the `calculate_crc32c` pointer. The CPU probe is its ECX input.
    The fatal `exit(1)` is an `Exited(1)` outcome;
  - the entry point `calculate_crc32c` as each configuration binds it.
- **Masking** `masked_crc32c` (module `Masking`). The finalised checksum (seed
  all ones, result complemented) is rotated right by 15 and `MASK_DELTA` is
  added, wrapping modulo 2^32. The `size_t` length reaches the engine's
  `unsigned int` parameter, so it is reduced modulo 2^32 explicitly.

`WordCount(n, w)` is `n / W` (`Sse42.WordCountDiv`) and `Low(x, m)` is `x mod m` (`Sse42.LowMod`).

Integer widths: the register and every mask operation are `bv32`, so wrapping
and rotation are exact. Lengths and addresses are unbounded `nat`. The engine
requires `|buf| < 2^32`, which is the range of its `unsigned int length`.

## Model

| member | source | states |
|---|---|---|
| Crc32c.FoldAppend | crc32_sse4_2.c:133-181 | Checksumming a concatenation equals checksumming the second part seeded with the checksum of the first part. |
| Crc32c.FoldSplit | crc32_sse4_2.c:133-181 | For every split index, the checksum of the tail seeded with the checksum of the head equals the one-pass checksum. |
| Crc32c.CalculateGeneric | crc32.h:11 | The portable engine returns the reference CRC-32C of the whole buffer from the given seed. |
| Crc32c.CheckValue | crc32.h:26 | With seed all ones and the result complemented, "123456789" gives the published CRC-32C check value 0xE3069283. |
| Intrinsics.LoadBytes64 | crc32_sse4_2.c:158 | A little-endian 8-byte load, split back into bytes, gives exactly the eight buffer bytes it read, in order. |
| Intrinsics.CrcU8At | crc32_sse4_2.c:138 | `_mm_crc32_u8` on the byte at an index folds exactly that byte. |
| Intrinsics.CrcU16At | crc32_sse4_2.c:143 | `_mm_crc32_u16` on the 2-byte load at an index folds exactly those two bytes, in buffer order. |
| Intrinsics.CrcU32At | crc32_sse4_2.c:149 | `_mm_crc32_u32` on the 4-byte load at an index folds exactly those four bytes, in buffer order. |
| Intrinsics.CrcU64At | crc32_sse4_2.c:158 | `_mm_crc32_u64` on the 8-byte load at an index folds exactly those eight bytes, in buffer order. |
| Sse42.TilesExactlyOnce | crc32_sse4_2.c:137-179 | Loads that tile a range are disjoint, in increasing address order, and every index of the range lies in one of them. |
| Sse42.FoldTiles | crc32_sse4_2.c:137-179 | However a range is cut into consecutive loads, folding load by load gives the bytewise checksum of the range. |
| Sse42.HasBitDiv | crc32_sse4_2.c:137-148 | The single-bit test `x & m` the engine applies (`HasBit`: `x mod 2m` reaches `m`) agrees with the arithmetic bit test `(x / m) mod 2 == 1`, for m = 1, 2, 4. |
| Sse42.Fetch | crc32_sse4_2.c:157-160 | The instruction of width 1, 2, 4 or 8 applied to the load at the current index folds exactly the next m bytes. |
| Sse42.Advance | crc32_sse4_2.c:138-140 | After one instruction and a pointer advance of m, the register is the checksum of all bytes consumed. The stage's loads grow by exactly one chunk at the old position. |
| Sse42.PrefixLoadsAll | crc32_sse4_2.c:137-153 | Every prefix load is a 1-, 2- or 4-byte load at an address with that bit set, narrower than a word, with widths strictly increasing. |
| Sse42.PrefixStep | crc32_sse4_2.c:137-146 | An alignment step folds m bytes exactly when the address has bit m set and at least m bytes remain, and otherwise changes nothing. |
| Sse42.PrefixStepAligns | crc32_sse4_2.c:137-153 | After the step for bit m, the address is aligned to 2m or fewer than 2m bytes remain. The prefix loads keep their shape. |
| Sse42.GapDouble | crc32_sse4_2.c:137-146 | The distance to the next multiple of 2m is the distance to the next multiple of m, plus m when the address reached there has bit m set. This is why testing one bit at a time aligns the pointer. |
| Sse42.ReachAligned | crc32_sse4_2.c:137-153 | The prefix up to bit m is shorter than m and fits in the buffer. It ends at an m-aligned address, or fewer than m bytes remain after it. |
| Sse42.ReachStep | crc32_sse4_2.c:137-146 | The prefix up to bit 2m is the prefix up to bit m plus m bytes exactly when the address it reaches has bit m set and m more bytes fit, and equals it otherwise. |
| Sse42.ReachLongest | crc32_sse4_2.c:137-153 | The prefix length fits in the buffer and is the gap to a 1-, 2-, 4- or 8-byte boundary. No gap to a boundary up to the word size that fits is longer. |
| Sse42.ReachWord | crc32_sse4_2.c:137-153 | When the buffer reaches the next word boundary, the prefix is exactly the gap to that boundary. |
| Sse42.PrefixReach | crc32_sse4_2.c:137-146 | An alignment step that folds m bytes exactly when bit m is set and m bytes remain moves the prefix length from the prefix up to bit m to the prefix up to bit 2m. |
| Sse42.AlignStep | crc32_sse4_2.c:137-152 | One alignment step carries the prefix invariant from bit m to bit 2m. The register still checksums the consumed bytes, and the address is aligned to 2m unless fewer than 2m bytes remain. The prefix length so far is exactly the prefix up to bit 2m, so every step's take-or-skip is pinned (see `Sse42.ReachStep` and `Sse42.PrefixStep`). |
| Sse42.AlignPrefix | crc32_sse4_2.c:137-153 | The prefix leaves the address word-aligned unless fewer than a word of bytes remain. It consumes fewer than a word, in alignment loads of increasing width. Its length is exactly the longest alignment gap that fits (`Reach`, characterised by `Sse42.ReachLongest`). |
| Sse42.BulkAligned | crc32_sse4_2.c:155-165 | Word-wide loads that tile a range starting at an aligned address are each at an aligned address. |
| Sse42.BulkWords | crc32_sse4_2.c:155-165 | The bulk loop issues exactly `length / W` word loads, each word-aligned, and leaves `length mod W` bytes and `length` itself untouched. |
| Sse42.DrainStep | crc32_sse4_2.c:173-176 | A drain step folds m bytes exactly when `length` has bit m set, which takes the remainder from `length mod 2m` to `length mod m`. |
| Sse42.DrainTail | crc32_sse4_2.c:167-179 | Given `length mod W` bytes left, the drain consumes all of them, so the register holds the checksum of the whole buffer. Its loads tile the rest of the buffer with strictly decreasing widths of at most W/2 (so no 4-byte drain on 32-bit targets). |
| Sse42.CalculateSse42 | crc32_sse4_2.c:133-181 | For every start address, seed and length, the engine returns the bytewise CRC-32C. Prefix, bulk and drain loads together visit every byte exactly once, in order, and folding them load by load gives the result. The prefix is the gap to the next word boundary when the buffer reaches it, and otherwise the longest alignment gap that fits. The bulk loop runs `remaining / W` times (`WordCount`) on aligned words, and the drain covers `remaining mod W` bytes (`Low`). An empty buffer returns the seed. |
| Dispatch.Sse42SupportedBit | crc32_sse4_2.c:40-52 | SSE4.2 is reported supported exactly when bit 20 of ECX is set. |
| Dispatch.Init | crc32_sse4_2.c:109-131 | A call exits, with status 1, exactly on the first call in a forced SSE4.2 build on a CPU without SSE4.2. Every returning call sets the flag, except in the portable build, where it does nothing. Only run-time detection writes the pointer. |
| Dispatch.InitOnce | crc32_sse4_2.c:111-114 | Once initialised, a call returns at once, whatever the probe would read, with the state unchanged. |
| Dispatch.InitIdempotent | crc32_sse4_2.c:109-131 | A second call after a returning first call changes nothing, whatever the CPU reports. |
| Dispatch.InitBinds | crc32_sse4_2.c:116-125 | The first call with run-time detection returns, binding the SSE4.2 engine iff ECX bit 20 is set and the portable engine otherwise. |
| Dispatch.InitAllFirst | crc32_sse4_2.c:109-131 | Over any sequence of calls from program start, the outcome is decided by the first call alone. |
| Dispatch.InitAllStays | crc32_sse4_2.c:111-114 | Every further call after initialisation, or in the portable build, leaves the state alone. |
| Dispatch.InitBindsSomething | crc32_sse4_2.c:116-130 | After a returning first call of `crc32c_init`, `calculate_crc32c` names the portable engine in the portable build and, with run-time detection, on a CPU without SSE4.2. Otherwise it names the SSE4.2 engine, which is therefore bound only on a CPU with SSE4.2. |
| Dispatch.Calculate | crc32.h:7-21 | Whichever engine the build binds, `calculate_crc32c` returns the reference checksum. |
| Dispatch.CalculateChained | crc32.h:9 | Two calls, the first result seeding the second, equal one call over the concatenation. The two pieces may sit at independent addresses. |
| Masking.MaskRotates | crc32.h:27 | The shift-right-15 / shift-left-17 pair, or-ed together, is a right rotation by 15, and the delta is added modulo 2^32. |
| Masking.Unmask | crc32.h:27 | The unmasked value, rotated right by 15, equals the masked value minus `MASK_DELTA` modulo 2^32. |
| Masking.UnmaskMask | crc32.h:27 | Unmasking a masked checksum gives back the checksum, for every 32-bit value. |
| Masking.MaskUnmask | crc32.h:27 | Every 32-bit value is the mask of its unmasking. |
| Masking.MaskInjective | crc32.h:27 | Two checksums have the same mask iff they are equal. |
| Masking.MaskedEmpty | crc32.h:24-28 | The masked checksum of the empty buffer is `MASK_DELTA`, 0xa282ead8. |
| Masking.MaskedCrc32c | crc32.h:24-28 | `masked_crc32c(buf, len)` is the mask of the finalised checksum of the first `len mod 2^32` bytes, through whichever engine the build binds. |
| Masking.MaskedCrc32cNarrow | crc32.h:24-28 | On a 32-bit target `masked_crc32c` masks the finalised checksum of the whole buffer: the length is never reduced. |
| Masking.WrapsToEmpty | crc32.h:24-26 | On a 64-bit target a buffer of exactly 2^32 bytes is checksummed as the empty buffer. |

## Left out

- The CPUID mechanics: inline assembly, `__cpuid` and the compiler-version branches (crc32_sse4_2.c:42-103). Only "supported iff ECX bit 20 is set" is kept, and ECX is an input.
- The debug `printf` in the old-gcc probe (crc32_sse4_2.c:73) and the `fprintf` to stderr before the fatal exit (crc32_sse4_2.c:127): I/O. The exit itself is the `Exited(1)` outcome.
- Thread safety of `crc32c_init`: it has a static flag and no lock. The model is sequential.
- The silicon behind `_mm_crc32_*`: the instructions are defined by their documented meaning, a fold of the operand's bytes. The 64-bit result of `_mm_crc32_u64`, whose upper half is clear, is kept as a 32-bit register.
- Pointer casts and unaligned loads in C: loads are reads at a buffer index. Legality is not modelled.
- The body of `calculate_crc32c_generic`, which is not part of this model. `Crc32c.CalculateGeneric` is a bytewise loop that computes the reference checksum. No table-driven variant is modelled.
- The start address is a `nat` whose low bits decide the prefix. Pointer arithmetic overflow is not modelled.
- Calling `calculate_crc32c` before `crc32c_init` in the run-time detection build calls a null pointer. `Dispatch.Calculate` requires `Bound(mode, s).Some?` instead.
- Dispatch.Calculate: reports only the checksum. The loads issued by the SSE4.2 engine are stated on `Sse42.CalculateSse42`.
- Dispatch.Calculate: assumes the SSE4.2 engine runs on a CPU that has SSE4.2. It requires only that an engine is bound, as a forced SSE4.2 build needs no `crc32c_init` call to bind one. `Dispatch.InitBindsSomething` shows that a returning `crc32c_init` binds the SSE4.2 engine only on such a CPU.
- Test vectors beyond the "123456789" check value, such as the 32-byte vectors of RFC 3720 appendix B.4. Each costs a long chain of bit-vector steps.
