/**
  Which engine `calculate_crc32c` names, and the one-shot initialiser
  `crc32c_init` that binds it when the engine is chosen at run time.

  The build decides between three configurations: run-time detection (a
  function pointer set by `crc32c_init`), a forced SSE4.2 build (the name is
  a macro for the SSE4.2 engine and `crc32c_init` only checks the CPU), and
  a forced portable build (the name is a macro for the portable engine and
  `crc32c_init` expands to nothing). The CPU probe is an input: the ECX
  register that CPUID leaf 1 returns.
 */
module Dispatch {
  import opened Crc32c
  import opened Sse42

  /** `CPUID_ECX_BIT_SSE4_2`: bit 20 of ECX. */
  const CPUID_ECX_BIT_SSE4_2: bv32 := 1 << 20

  /** `sse4_2_is_supported`, given the ECX value the probe read. */
  predicate Sse42Supported(ecx: bv32) {
    ecx & CPUID_ECX_BIT_SSE4_2 != 0
  }

  /** The probe tests bit 20 and no other. */
  lemma Sse42SupportedBit(ecx: bv32)
    ensures Sse42Supported(ecx) <==> (ecx >> 20) & 1 == 1
  {
  }

  datatype BuildMode = RuntimeDetection | ForcedSse42 | ForcedGeneric

  datatype Engine = GenericEngine | Sse42Engine

  datatype Option<T> = None | Some(value: T)

  /** The file-level state: the `static int initialized` flag of
      `crc32c_init` and, in the run-time detection build, the
      `calculate_crc32c` pointer (None while it is still null). */
  datatype State = State(initialized: bool, pointer: Option<Engine>)

  /** Program start: not initialised, pointer null. */
  const Start: State := State(false, None)

  /** A call of `crc32c_init` either returns with a new state or ends the
      process with an exit status. */
  datatype Outcome = Running(state: State) | Exited(status: int)

  /** One call of `crc32c_init` in the given build, with `ecx` what the CPU
      probe would read if the call reaches it. */
  function Init(mode: BuildMode, s: State, ecx: bv32): (o: Outcome)
    // only a forced SSE4.2 build on a CPU without SSE4.2 exits, with status 1,
    // and only on the first call
    ensures o.Exited? <==> mode == ForcedSse42 && !s.initialized && !Sse42Supported(ecx)
    ensures o.Exited? ==> o.status == 1
    // the flag is set by every call that returns, except in the portable
    // build where the call does nothing
    ensures o.Running? && mode != ForcedGeneric ==> o.state.initialized
    ensures mode == ForcedGeneric ==> o == Running(s)
    // the pointer is only ever written in the run-time detection build
    ensures o.Running? && mode != RuntimeDetection ==> o.state.pointer == s.pointer
  {
    match mode
    case ForcedGeneric => Running(s)
    case _ =>
      if s.initialized then Running(s)
      else
        var t := s.(initialized := true);
        if Sse42Supported(ecx) then
          if mode == RuntimeDetection then Running(t.(pointer := Some(Sse42Engine))) else Running(t)
        else
          if mode == RuntimeDetection then Running(t.(pointer := Some(GenericEngine))) else Exited(1)
  }

  /** Once initialised, a call returns at once: it neither probes the CPU
      nor touches the pointer. */
  lemma InitOnce(mode: BuildMode, s: State, ecx: bv32)
    requires s.initialized
    ensures Init(mode, s, ecx) == Running(s)
  {
  }

  /** Calling `crc32c_init` a second time, whatever the probe would read
      then, changes nothing. */
  lemma InitIdempotent(mode: BuildMode, s: State, ecx1: bv32, ecx2: bv32)
    requires Init(mode, s, ecx1).Running?
    ensures Init(mode, Init(mode, s, ecx1).state, ecx2) == Init(mode, s, ecx1)
  {
  }

  /** The first call in the run-time detection build binds the SSE4.2
      engine exactly when ECX bit 20 is set, and the portable one
      otherwise. */
  lemma InitBinds(ecx: bv32)
    ensures Init(RuntimeDetection, Start, ecx).Running?
    ensures Init(RuntimeDetection, Start, ecx).state.pointer
            == Some(if (ecx >> 20) & 1 == 1 then Sse42Engine else GenericEngine)
  {
    Sse42SupportedBit(ecx);
  }

  /** A program that calls `crc32c_init` once per probe reading in
      `probes`; it stops at the first exit. */
  function InitAll(mode: BuildMode, s: State, probes: seq<bv32>): Outcome
    decreases |probes|
  {
    if |probes| == 0 then Running(s)
    else
      match Init(mode, s, probes[0])
      case Exited(status) => Exited(status)
      case Running(t) => InitAll(mode, t, probes[1..])
  }

  /** However many times the program calls `crc32c_init`, only the first
      call's probe decides the outcome. */
  lemma {:induction false} InitAllFirst(mode: BuildMode, probes: seq<bv32>)
    requires |probes| > 0
    ensures InitAll(mode, Start, probes) == Init(mode, Start, probes[0])
  {
    var o := Init(mode, Start, probes[0]);
    if o.Running? {
      InitAllStays(mode, o.state, probes[1..]);
    }
  }

  /** Further calls after one that returned leave its state alone. */
  lemma {:induction false} InitAllStays(mode: BuildMode, s: State, probes: seq<bv32>)
    requires s.initialized || mode == ForcedGeneric
    ensures InitAll(mode, s, probes) == Running(s)
    decreases |probes|
  {
    if |probes| > 0 {
      InitAllStays(mode, s, probes[1..]);
    }
  }

  /** The engine `calculate_crc32c` names in a build and state, None when it
      is the null pointer. */
  function Bound(mode: BuildMode, s: State): Option<Engine>
  {
    match mode
    case RuntimeDetection => s.pointer
    case ForcedSse42 => Some(Sse42Engine)
    case ForcedGeneric => Some(GenericEngine)
  }

  /** After `crc32c_init` has returned, `calculate_crc32c` names the
      portable engine in the portable build and, with run-time detection, on
      a CPU without SSE4.2; in every other case it names the SSE4.2 engine.
      So the SSE4.2 engine is only ever bound on a CPU that has SSE4.2. */
  lemma InitBindsSomething(mode: BuildMode, ecx: bv32)
    requires Init(mode, Start, ecx).Running?
    ensures Bound(mode, Init(mode, Start, ecx).state)
            == Some(if mode == ForcedGeneric || (mode == RuntimeDetection && !Sse42Supported(ecx))
                    then GenericEngine else Sse42Engine)
    ensures Bound(mode, Init(mode, Start, ecx).state) == Some(Sse42Engine) ==> Sse42Supported(ecx)
  {
    if mode == RuntimeDetection {
      assert Init(mode, Start, ecx).state.pointer.Some?;
    }
  }

  /** `calculate_crc32c(crc, buffer, length)` through whatever it names, on a
      buffer at an address congruent to `addr`: every engine computes the
      reference checksum. */
  method Calculate(mode: BuildMode, s: State, w: WordSize, addr: nat, crc0: bv32, buf: seq<bv8>)
    returns (crc: bv32)
    requires Bound(mode, s).Some?
    requires |buf| < 0x1_0000_0000
    ensures crc == Fold(crc0, buf)
  {
    match Bound(mode, s).value {
      case GenericEngine =>
        crc := CalculateGeneric(crc0, buf);
      case Sse42Engine =>
        var prefix, bulk, drain;
        crc, prefix, bulk, drain := CalculateSse42(w, addr, crc0, buf);
    }
  }

  /** Checksumming a buffer in two calls, the first result seeding the
      second, gives the one-call checksum of the concatenation. The two
      pieces may sit anywhere in memory (`addrA`, `addrB`), so their
      alignments are independent. */
  method CalculateChained(mode: BuildMode, s: State, w: WordSize, addrA: nat, addrB: nat, crc0: bv32, a: seq<bv8>, b: seq<bv8>)
    returns (crc: bv32)
    requires Bound(mode, s).Some?
    requires |a| < 0x1_0000_0000 && |b| < 0x1_0000_0000
    ensures crc == Fold(crc0, a + b)
  {
    var mid := Calculate(mode, s, w, addrA, crc0, a);
    crc := Calculate(mode, s, w, addrB, mid, b);
    FoldAppend(crc0, a, b);
  }
}
