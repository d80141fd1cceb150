/**
 * The fixed symbols, capacities and flag bits of the tracing engine
 * (tracing.h:3-12), plus the two literals of the frame recorder (tracing.h:120).
 */
module Constants {

  /** Function name given to the synthetic root frame. */
  const ROOT_SYMBOL: string := "main()"

  /** Number of auxiliary per-function counters cleared by `begin`. */
  const CALLGRAPH_COUNTER_SIZE: nat := 1024

  /** Number of slots of the call-graph bucket table. */
  const CALLGRAPH_SLOTS: nat := 8192

  /** Flags are a `zend_long` bit mask; bv64 is its bit pattern. */
  const FLAGS_CPU: bv64 := 1
  const FLAGS_MEMORY_MU: bv64 := 2
  const FLAGS_MEMORY_PMU: bv64 := 4
  const FLAGS_MEMORY: bv64 := 6
  const FLAGS_MEMORY_ALLOC: bv64 := 16
  const FLAGS_MEMORY_ALLOC_AS_MU: bv64 := 32 | 16
  const FLAGS_NO_BUILTINS: bv64 := 8

  /** Capacity of the completed-frame buffer `frame_list`. */
  const FRAME_LIST_CAPACITY: nat := 10000

  /** A frame is recorded only when its duration is strictly above this (milliseconds). */
  const MIN_RECORDED_DURATION: int := 10

  /** Whether `begin` installs the counting allocator hooks for these flags (tracing.c:228). */
  function InstallsAllocHooks(flags: bv64): (r: bool)
    ensures flags & FLAGS_MEMORY_ALLOC_AS_MU == FLAGS_MEMORY_ALLOC_AS_MU ==> r
    ensures flags & (FLAGS_CPU | FLAGS_MEMORY | FLAGS_NO_BUILTINS) == flags ==> !r
  {
    flags & FLAGS_MEMORY_ALLOC != 0
  }

  /** The combined flags are the unions of the single bits they name. */
  lemma FlagLayout()
    ensures FLAGS_MEMORY == FLAGS_MEMORY_MU | FLAGS_MEMORY_PMU
    ensures FLAGS_MEMORY_ALLOC_AS_MU & FLAGS_MEMORY_ALLOC == FLAGS_MEMORY_ALLOC
    ensures FLAGS_MEMORY_ALLOC_AS_MU != FLAGS_MEMORY_ALLOC
    ensures InstallsAllocHooks(FLAGS_MEMORY_ALLOC) && InstallsAllocHooks(FLAGS_MEMORY_ALLOC_AS_MU)
    ensures !InstallsAllocHooks(FLAGS_MEMORY) && !InstallsAllocHooks(FLAGS_CPU)
  {
  }

  /** The five single-bit flags are pairwise disjoint, so they combine independently. */
  lemma FlagBitsDisjoint()
    ensures FLAGS_CPU & FLAGS_MEMORY_MU == 0 && FLAGS_CPU & FLAGS_MEMORY_PMU == 0
    ensures FLAGS_CPU & FLAGS_NO_BUILTINS == 0 && FLAGS_CPU & FLAGS_MEMORY_ALLOC == 0
    ensures FLAGS_MEMORY_MU & FLAGS_MEMORY_PMU == 0 && FLAGS_MEMORY_MU & FLAGS_NO_BUILTINS == 0
    ensures FLAGS_MEMORY_MU & FLAGS_MEMORY_ALLOC == 0 && FLAGS_MEMORY_PMU & FLAGS_NO_BUILTINS == 0
    ensures FLAGS_MEMORY_PMU & FLAGS_MEMORY_ALLOC == 0 && FLAGS_NO_BUILTINS & FLAGS_MEMORY_ALLOC == 0
  {
  }
}
