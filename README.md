# Instrumentation core of the tideways/xhprof PHP profiler, in Dafny

This project models the tracing engine of the profiler extension: the request-scoped
trace state (`TXRG(...)`), the shadow call stack of frames that `enter` pushes and `exit`
pops, the bounded buffer of completed frames (`frame_list`, 10000 entries, a frame kept
only when it ran more than 10 ms), the frame free list, the call-graph edge key (a djb
rolling hash over 4-byte name hashes) and the lookup of an edge in a bucket's collision
chain, the rendering of edge labels and exported function names, the export of recorded
frames, the per-request reset logic and the allocation counters.

Layout, one module per file:

- `wrappers.dfy`: `Option`.
- `constants.dfy`: the root symbol, the capacities and the flag bits of `tracing.h`.
- `edge_key.dfy`: `hash_data`, `hash_int` and `tracing_callgraph_bucket_key`. It uses
  64-bit wrap-around, signed `char` bytes, little-endian `int` layout, and `ZSTR_HASH`
  as a parameter `H`.
- `buckets.dfy`: `tracing_callgraph_bucket_find` over a chain given as a sequence.
- `symbols.dfy`: `tracing_callgraph_get_parent_child_name`,
  `tracing_callgraph_get_function_name` and `%d`.
- `frames.dfy`: frames in an arena, and the pure step functions of `enter` and `exit`
  on a `Shadow` value. `Shadow` holds the arena, the set of live frames, the head and
  the recorded indices. The file also has runs of events, the export, and scenarios.
- `stack_invariant.dfy`: the invariant over the arena. The active stack and the free
  list are chains of `previous_frame` links, and they share no frame. The recorded
  frames are live and on neither list. The file has one preservation lemma per kind of
  update.
- `trace_context.dfy`: class `TraceContext`, whose fields are the module globals. Its
  methods update them in place. Each frame-moving method is proved to act on its state
  as the matching step function of `Frames` does.

Pointers are arena indices: `my_frame`, `frame_free_list`, `callgraph_frames` and every
`previous_frame` are `Option<nat>`. `emalloc` appends to the arena, and `efree` removes
an index from the set of live frames.

## Model

| member | source | states |
|---|---|---|
| Constants.InstallsAllocHooks | tracing.c:228 | begin installs the counting hooks under `FLAGS_MEMORY_ALLOC` and under `FLAGS_MEMORY_ALLOC_AS_MU`, and never for flags made only of the CPU, memory and no-builtins bits |
| Constants.FlagLayout | tracing.h:6-12 | `FLAGS_MEMORY == MU \| PMU`; `ALLOC_AS_MU` contains the `ALLOC` bit and differs from it |
| Constants.FlagBitsDisjoint | tracing.h:6-12 | the single-bit flags are pairwise disjoint |
| EdgeKey.Mix | tracing.c:106 | one round `hash = hash * 33 + data[i]`: the byte read as a signed `char`, wrapped to 64 bits. It has no contract of its own; `HashData`, `HashFoldAppend` and `ZeroHashCanVanish` state what it does |
| EdgeKey.HashFold | tracing.c:101-110 | the reference definition of `hash_data`, `Mix` over the bytes first to last; `HashData` is proved to compute it and `HashFoldAppend` splits it |
| EdgeKey.SignedChar | tracing.c:106 | a byte read through `char` lies in -128..127 and is congruent to the byte modulo 256 |
| EdgeKey.HashData | tracing.c:101-110 | the loop returns the left fold of `h * 33 + byte` (mod 2^64) over the bytes, first to last |
| EdgeKey.HashFoldAppend | tracing.c:101-110 | hashing `a + b` equals hashing `b` starting from the hash of `a` |
| EdgeKey.IntBytes | tracing.c:112-115 | an `int` is read as exactly 4 bytes, which reassemble little-endian to the value |
| EdgeKey.HashInt | tracing.c:112-115 | `hash_data` over the 4 bytes of the `int`, as `IntBytes` lays them out; no contract of its own |
| EdgeKey.HashName | tracing.c:123-139 | one `if (name) hash = hash_int(hash, ZSTR_HASH(name))`: a present name's hash is folded in, an absent name leaves the hash alone. No contract of its own; `HashNamesIsHashFold` and `AbsentNameIsNotZeroHash` state its properties |
| EdgeKey.AddLevel | tracing.c:141 | `hash += recurse_level` with 64-bit wrap-around; no contract of its own |
| EdgeKey.BucketKey | tracing.c:117-144 | the key of a frame and its caller. No contract of its own; `BucketKeyIsDjb` proves it equal to the djb reference `DjbKey`, and the next rows state what it depends on |
| EdgeKey.HashNamesIsHashFold | tracing.c:123-129 | folding the two present name hashes one after the other is one fold over their bytes |
| EdgeKey.BucketKeyIsDjb | tracing.c:117-144 | the key equals the reference definition: the djb fold from 5381 over the caller's present name bytes, plus the caller's level; then over the callee's present name bytes, plus the callee's level |
| EdgeKey.RootKeyUsesOwnFieldsOnly | tracing.c:122-141 | with no `previous_frame`, the key is the seed folded with the frame's own names, plus its own level |
| EdgeKey.KeyDependsOnlyOnPresentNames | tracing.c:122-141 | two hash functions that agree on the present names give the same key |
| EdgeKey.AbsentNameIsNotZeroHash | tracing.c:133-139 | for a root frame whose only name is its function name, a name hashing to 0 still changes the key: from the seed 5381, four zero bytes do not wrap back |
| EdgeKey.ZeroHashCanVanish | tracing.c:133-139 | the previous row does not hold in general: from the hash 2^57, a name hashing to 0 leaves the hash where skipping the name leaves it, since 33^4 - 1 is a multiple of 2^7 |
| Buckets.Matches | tracing.c:78-92 | the test `bucket_find` applies to each bucket. No contract of its own; `MatchIsExactEdge`, `RootLookupFindsOnlyRootBuckets` and `DistinctEdgesNeverShareABucket` state what it accepts |
| Buckets.BucketFind | tracing.c:75-99 | the result is the first chain position whose bucket matches: the key, the child level, class and function, and either the root case or an equal parent. The result is None exactly when no bucket matches. The chain is a value and is not changed |
| Buckets.MatchIsExactEdge | tracing.c:78-91 | for a caller with a function name, a bucket matches exactly when its key is the lookup key and its edge is the looked-up edge |
| Buckets.RootLookupFindsOnlyRootBuckets | tracing.c:83-85 | a lookup with no `previous` only returns a bucket with both parent names absent |
| Buckets.DistinctEdgesNeverShareABucket | tracing.c:86-91 | a bucket matched by two lookups belongs to one edge, even when the keys collide |
| Buckets.CollidingKeysStayApart | tracing.c:78-81 | two root functions with equal name hashes get the same key, yet one's bucket is not found for the other |
| Symbols.Decimal | tracing.c:150 | the digits `%d` prints for a non-negative level. No contract of its own; the next two rows state its properties |
| Symbols.DecimalRoundTrip | tracing.c:150 | the digits `%d` prints for a level read back as that level |
| Symbols.DecimalIsDigits | tracing.c:150 | `%d` of a level is a non-empty string of digits with no leading zero |
| Symbols.Qualified | tracing.c:148-175 | one end of an edge as the label prints it: `Class::fn` with a class, `fn` without, then `@N` when the level is positive. No contract of its own; `SuffixExactlyWhenRecursive` states when the suffix appears |
| Symbols.ParentPart | tracing.c:148-162 | the caller half of the label: empty when both parent names are absent, otherwise the qualified caller and `==>`. No contract of its own; `LabelShape` states its shape |
| Symbols.ChildPart | tracing.c:164-176 | the callee half of the label: empty when both child names are absent, otherwise the qualified callee. No contract of its own; `LabelShape` and `LabelMarksRecursion` state its properties |
| Symbols.ParentChildName | tracing.c:146-177 | the label is the caller half followed by the callee half. No contract of its own; the next three rows state its properties |
| Symbols.LabelShape | tracing.c:146-176 | the caller half is empty exactly when both parent names are absent, and the label of such a root bucket is its callee half alone; otherwise the caller half ends in `==>`. A present class leads its half as `Class::fn` |
| Symbols.SuffixExactlyWhenRecursive | tracing.c:164-175 | for names without `@`, a rendered name carries an `@` exactly when its recursion level is positive |
| Symbols.LabelMarksRecursion | tracing.c:148-176 | both halves of the label carry `@N` exactly when their edge end is present and its level is positive |
| Symbols.FunctionName | tracing.c:179-186 | the exported name is the owner, `::`, the function and `()`, so its length is theirs plus 4 |
| Symbols.ClosureIsIndistinguishable | tracing.c:181-185 | a name without a class exports exactly like a method of a class named `closure` |
| Symbols.FunctionNameInjective | tracing.c:179-186 | for owners without `:`, the exported name determines the owner and the function |
| Frames.RecordOf | tracing.c:199-204 | the record of one frame: its exported name, `wt_start`, `wt_end` and `duration`; no contract of its own, `ExportAt` states how the export uses it |
| Frames.Export | tracing.c:197-206 | the records of the recorded frames in buffer order. No contract of its own; `ExportSnoc`, `ExportAt` and `ExportReadsOnlyRecorded` state its properties |
| Frames.ExportReadsOnlyRecorded | tracing.c:197-206 | the export reads only the recorded frames: two arenas that agree on them export the same records |
| Frames.Keeps | tracing.h:120 | the test of `exit`: fewer than 10000 frames recorded and a duration above 10. No contract of its own; `ExitStep` states what it decides |
| Frames.EnterStep | tracing.h:93-111 | with no name nothing changes. Otherwise a new arena slot becomes the head, with the old head as `previous_frame`, `wt_start == wt_end == now`, the given name, no class for the root, and the level. The buffer is unchanged and well-formedness is kept |
| Frames.ExitStep | tracing.h:113-126 | only the head frame changes: it gets `wt_end = now` and `duration = wt_end - wt_start`, which is at least 0 when `now >= wt_start`. The head becomes its `previous_frame`. The frame is appended to the buffer exactly when `n_frame < 10000 && duration > 10`, and is otherwise no longer live. Earlier entries are kept and the 10000 bound holds |
| Frames.RunKeepsBufferBoundedAndAppendOnly | tracing.h:120-121 | over any sequence of enters and exits, the state stays well formed, `n_frame` never exceeds 10000, and earlier entries are never overwritten |
| Frames.EnterKeepsExport | tracing.h:93-111 | entering a frame leaves every exported record as it was |
| Frames.EnterThenExitRestoresHead | tracing.h:105-119 | enter then exit restores the head. The frame's duration is the clock difference; it is recorded when that qualifies and is otherwise freed again |
| Frames.ExportSnoc | tracing.c:197-206 | exporting one more recorded frame appends that frame's record |
| Frames.ExportAt | tracing.c:197-206 | the export has one record per recorded frame, and record `i` carries the name, `wt_start`, `wt_end` and `duration` of `frame_list[i]` |
| Frames.NestedCallFrames | tracing.h:93-126 | root plus `Foo::bar`, both returning at 20 ms: the stack ends empty and both frames are recorded, the callee first, with their stamps |
| Frames.RootExportName | tracing.c:184 | the root frame, having no class, exports as `closure::main()()` |
| Frames.FooBarExportName | tracing.c:182 | a method `bar` of class `Foo` exports as `Foo::bar()` |
| Frames.NestedCallScenario | tracing.c:188-207 | that run exports `Foo::bar()` 0/20/20 and then `closure::main()()` 0/20/20 |
| Frames.Exits | tracing.c:54-56 | one exit per clock reading, in order; as many exits as readings, and `ExitsAt` states which reading each carries |
| Frames.ExitsAt | tracing.c:54-56 | the `i`-th exit of the unwind is stamped with the `i`-th clock reading |
| Frames.RunExitsSnoc | tracing.c:54-56 | one more exit at the next reading extends a run of exits by one `ExitStep` |
| Frames.ShortCallScenario | tracing.h:120-125 | a 2 ms call leaves the buffer as it was, and its frame is freed |
| StackInvariant.ChainUnique | tracing.c:31-33 | following `previous_frame` from one head gives one chain |
| StackInvariant.ChainSuffix | tracing.c:31-33 | every suffix of a chain is the chain from its first frame |
| StackInvariant.ChainDistinct | tracing.c:31-35 | a chain that ends never meets a frame twice, so draining the free list frees each frame once |
| StackInvariant.StackChainBelowHead | tracing.h:105 | every frame on the stack is live, and every caller is older than the head |
| StackInvariant.HeadExactlyWhenStacked | tracing.h:115 | in a consistent state there is a head exactly when the stack is not empty |
| StackInvariant.EnterKeepsConsistent | tracing.h:102-109 | entering pushes the new slot on the stack and keeps the invariant: the stack, the free list, their disjointness, and the recorded frames live, on neither list and completed (`duration == wt_end - wt_start > 10`) |
| StackInvariant.ExitKeepsConsistent | tracing.h:115-125 | exiting pops exactly the head, which is live and not yet recorded, and keeps the invariant whether the frame is recorded or freed; a recorded frame is completed |
| StackInvariant.ExportedRecordsAreCompleted | tracing.h:116-121 | every record a consistent state exports has `duration == wt_end - wt_start` and a duration above 10 |
| StackInvariant.ExitAppendsToExport | tracing.h:113-126 | exiting leaves the records of the frames already in the buffer as they were, and appends the popped frame's record exactly when it is kept |
| StackInvariant.ReleaseKeepsConsistent | tracing.c:31-35 | freeing frames that are neither on the stack nor recorded keeps the invariant |
| StackInvariant.PushFreeKeepsConsistent | tracing.h:43-44 | pushing a frame onto the free list keeps the invariant, when the frame is on neither list and not recorded |
| Tracing.TraceContext.constructor | tracing.h:26 | the globals `TXRG` reaches before the first request: the flags, `enabled`, the three clock fields and the three counters are 0, there is no root, no frame, no head and no free list, all 8192 bucket slots are empty, all 1024 counters are 0, the hooks are not installed, and the invariant holds |
| Tracing.TraceContext.FastAllocFrame | tracing.h:47-50 | always a fresh arena slot; the free list is not consulted |
| Tracing.TraceContext.FastFreeFrame | tracing.h:32-45 | for a live frame on neither list and not recorded, `p` becomes the free-list head, its `previous_frame` is the old head, and the rest of the list is unchanged |
| Tracing.TraceContext.FrameFree | tracing.c:63-74 | a live frame is no longer live; freeing a frame twice is excluded |
| Tracing.TraceContext.Enter | tracing.h:93-111 | returns 1 exactly when a name resolves. The new state is `EnterStep` of the old one, and the stack gains the new frame; with no name nothing changes |
| Tracing.TraceContext.Exit | tracing.h:113-126 | the new state is `ExitStep` of the old one and the stack loses its head; with `ExitAppendsToExport`, the records already exported stay as they were. `frame_list[n_frame]` is the popped frame when it is recorded, and no other entry changes |
| Tracing.TraceContext.RecordFrame | tracing.h:121 | the popped frame goes into slot `n_frame` and `n_frame` grows by 1; no other entry changes |
| Tracing.TraceContext.FreeTheFreeList | tracing.c:26-36 | when every free-list frame is live, exactly those frames stop being live, each freed once; the head pointer is left dangling, so a second drain is excluded |
| Tracing.TraceContext.RequestShutdown | tracing.c:249-252 | drains the free list as above |
| Tracing.TraceContext.RequestInit | tracing.c:236-247 | the timebase is stored and `enabled`, `flags`, the free-list head, the three counters and `n_frame` are zeroed, keeping the invariant |
| Tracing.TraceContext.Begin | tracing.c:209-234 | `flags` is stored. `callgraph_frames` and `my_frame` are cleared and `n_frame` is 0. All 8192 slots are empty and all 1024 counters are 0. The hooks are installed exactly under the alloc bit |
| Tracing.TraceContext.ClearBuckets | tracing.c:220-222 | every bucket slot is emptied |
| Tracing.TraceContext.ClearCounters | tracing.c:224-226 | every per-function counter is zero |
| Tracing.TraceContext.EnterRootFrame | tracing.c:38-46 | `enabled` is 1, the first clock reading and the timestamp are stored, the buffer is emptied, and a root frame `main()` without class, started at the second clock reading, becomes the head |
| Tracing.TraceContext.End | tracing.c:48-61 | nothing changes unless `enabled == 1`. Then, with `callgraph_frames` unset, only `enabled` becomes 0 and `callgraph_frames` is unset, so a second call does nothing. With it set, every frame is exited, each at its own clock reading, and the call faults |
| Tracing.TraceContext.UnwindStack | tracing.c:54-56 | the loop exits every stack frame in turn, the `n`-th at the `n`-th clock reading: the final state is that of the run of those exits, and the stack ends empty |
| Tracing.TraceContext.AppendToArray | tracing.c:188-207 | exactly `n_frame` records, in buffer order; record `i` is that of `frame_list[i]`, and every record has `duration == wt_end - wt_start` and a duration above 10 |
| Tracing.TraceContext.CountMalloc | tracing.c:254-258 | `num_alloc` grows by 1 and `amount_alloc` grows by `size` |
| Tracing.TraceContext.CountFree | tracing.c:267-269 | only `num_free` grows, by 1 |
| Tracing.TraceContext.CountRealloc | tracing.c:279-283 | both counts grow by 1 and `amount_alloc` grows by `size` |

## Left out

- Zend string reference counting (`zend_string_addref`, `zend_string_release`, `zend_string_copy`) is left out. Names are immutable values, and the pointer comparisons of class names are value equality, which interning makes the same.
- A NULL function name compared with `zend_string_equals`, or printed with `ZSTR_VAL`, would crash in C. In the model it is an absent `Option` that compares as a value and prints as empty text.
- The host lookups `tracing_get_class_name` and `tracing_get_function_name` (tracing.h:52-91) are left out. Their results are the `resolvedClass` and `resolvedFunction` inputs of `Enter`.
- `Enter`: `recurse_level` is never assigned by the source, so whatever the fresh frame holds is the input `recurseLevel`. The uninitialised `duration` of a fresh frame is taken as 0; `exit` overwrites it before it is read.
- The clock and timestamp (`time_milliseconds`, `get_timebase_factor`, `current_timestamp`) are inputs: `now`, `timestamp` and `timebase`. Every clock read is its own input: `End` and `UnwindStack` take one reading per frame they exit (`nows`), since each exit reads the clock again (tracing.h:116).
- EnterRootFrame: `start_time` (tracing.c:40) and the root frame's `wt_start` (tracing.h:106) are two separate clock readings, the independent inputs `startClock` and `now`; nothing relates them. `wt_start`, `wt_end` and `duration` are unbounded integers, since the declaration of the frame's C field types is not part of this model; overflow of `wt_end - wt_start` is not modelled.
- FunctionName, ParentChildName: names are modelled as strings with no NUL character. `%s` of `ZSTR_VAL` stops at the first NUL, so a name that holds one (an anonymous class is named `class@anonymous`, NUL, then its file and line) prints cut short in C; the length and shape contracts hold only for NUL-free names.
- FrameFree, FreeTheFreeList, RequestShutdown: they require the frames they free to be live. A second `efree` of a frame is undefined in C; in particular a second drain of the free list without the reset of `tracing_request_init` in between is excluded, not modelled.
- `ZSTR_HASH` is the parameter `H`, giving the low 32 bits that the `int` parameter of `hash_int` receives. The platform is fixed at signed `char` and little-endian.
- The 512-byte `snprintf` buffer is left out. Its truncation, and the undefined behaviour of printing `symbol` into itself (tracing.c:166-174), are modelled as plain, unbounded concatenation.
- PHP array construction in `tracing_callgraph_append_to_array` is left out. The result is a sequence of records.
- Swapping the heap handlers with `zend_mm_get/set_custom_handlers`, and forwarding to the saved or default allocator, are left out. They are process-wide function-pointer mutation. `Begin` only records in `countingHooks` that the hooks are installed, and the counter methods keep only the counter arithmetic.
- CountMalloc, CountRealloc: the counters are unbounded integers; the wrap-around of the C integer types is not modelled.
- TSRM thread-local access (`TXRG`, tracing.h:26-30) and module wiring are left out. The globals are the fields of one object.
- Memory is an arena that never shrinks: a freed frame leaves the set of live frames and its slot is never reused. `tracing_fast_alloc_frame` never pops the free list, so the model never needs reuse.
- The edge table's chains (`bucket->next`) are a sequence per slot. Inserting buckets and incrementing `function_hash_counters` are not part of this core.
- Begin: the source's loop that clears `frame_list` (tracing.c:216-218) runs to `n_frame` right after `n_frame` was set to 0, so it clears nothing. The model leaves the buffer's contents as they were.
- End: nothing in this core sets `callgraph_frames`, so the unwinding loop (tracing.c:54-56) normally does not run and frames still open at the end stay on the stack. When it is set, exit never clears it. The source then exits every frame and dereferences the NULL head; the model stops after the last frame and returns `fault`.
- The root frame has no class, so the code exports it as `closure::main()()` (tracing.c:184), not as `main()`. The model follows the code.
