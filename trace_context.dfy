/**
 * The request-scoped globals of the tracing engine (`TXRG(...)`) as one object,
 * and the operations of tracing.h and tracing.c that update them in place.
 *
 * Frames live in the arena `frames`; `live` is the set of arena slots that have
 * been allocated and not yet released with `efree`. `my_frame`, `frame_free_list`,
 * `callgraph_frames` and every `previous_frame` are optional arena indices.
 * The ghost sequences `stack` and `freeList` list the frames reachable from
 * `my_frame` and from `frame_free_list` along `previous_frame`.
 */
module Tracing {
  import opened Wrappers
  import opened Constants
  import opened Buckets
  import opened Frames
  import opened StackInvariant

  class TraceContext {
    var enabled: int
    var flags: bv64
    var root: Option<string>
    var startTime: int
    var startTimestamp: int
    var timebaseFactor: int
    var frames: seq<Frame>
    var live: set<nat>
    var myFrame: Option<nat>
    var callgraphFrames: Option<nat>
    var frameFreeList: Option<nat>
    var frameList: array<nat>
    var nFrame: nat
    var callgraphBuckets: array<seq<Bucket>>
    var functionHashCounters: array<int>
    var numAlloc: int
    var numFree: int
    var amountAlloc: int
    /** Whether the counting allocator wrappers are installed as the heap's handlers. */
    var countingHooks: bool

    ghost var stack: seq<nat>
    ghost var freeList: seq<nat>

    /** The shadow-stack part of the state, as the step functions of `Frames` see it. */
    ghost function Snapshot(): Shadow
      reads this, frameList
      requires nFrame <= frameList.Length
    {
      Shadow(frames, live, myFrame, frameList[..nFrame])
    }

    /** The recorded frames, `frame_list[0..n_frame)`. */
    ghost function Recorded(): seq<nat>
      reads this, frameList
      requires nFrame <= frameList.Length
    {
      frameList[..nFrame]
    }

    ghost predicate Valid()
      reads this, frameList
    {
      frameList.Length == FRAME_LIST_CAPACITY
      && callgraphBuckets.Length == CALLGRAPH_SLOTS
      && functionHashCounters.Length == CALLGRAPH_COUNTER_SIZE
      && nFrame <= frameList.Length
      && Consistent(Snapshot(), stack, frameFreeList, freeList)
    }

    /** The module globals before the first request: zero everywhere. */
    constructor ()
      ensures Valid()
      ensures enabled == 0 && flags == 0 && root.None? && !countingHooks
      ensures startTime == 0 && startTimestamp == 0 && timebaseFactor == 0
      ensures forall i :: 0 <= i < callgraphBuckets.Length ==> callgraphBuckets[i] == []
      ensures forall i :: 0 <= i < functionHashCounters.Length ==> functionHashCounters[i] == 0
      ensures Snapshot() == EMPTY && stack == [] && freeList == []
      ensures callgraphFrames.None? && frameFreeList.None?
      ensures numAlloc == 0 && numFree == 0 && amountAlloc == 0
      ensures fresh(frameList) && fresh(callgraphBuckets) && fresh(functionHashCounters)
    {
      enabled, flags, root := 0, 0, None;
      startTime, startTimestamp, timebaseFactor := 0, 0, 0;
      frames, live := [], {};
      myFrame, callgraphFrames, frameFreeList := None, None, None;
      frameList := new nat[FRAME_LIST_CAPACITY];
      nFrame := 0;
      callgraphBuckets := new seq<Bucket>[CALLGRAPH_SLOTS](_ => []);
      functionHashCounters := new int[CALLGRAPH_COUNTER_SIZE](_ => 0);
      numAlloc, numFree, amountAlloc := 0, 0, 0;
      countingHooks := false;
      stack, freeList := [], [];
    }

    /** `tracing_fast_alloc_frame` (tracing.h:47-50): always a new allocation, the free list is not consulted. */
    method FastAllocFrame() returns (p: nat)
      modifies this`frames, this`live
      ensures p == |old(frames)| && frames == old(frames) + [UNSET_FRAME] && live == old(live) + {p}
    {
      p := |frames|;
      frames := frames + [UNSET_FRAME];
      live := live + {p};
    }

    /**
     * `tracing_fast_free_frame` (tracing.h:32-45): `p` becomes the head of the free list,
     * its `previous_frame` reused as the link to the old head. The names it holds are
     * released, which the model, having no reference counts, leaves out.
     */
    method FastFreeFrame(p: nat)
      requires Valid()
      requires p < |frames| && p in live && p !in stack && p !in freeList && p !in Recorded()
      modifies this`frames, this`frameFreeList, this`freeList
      ensures Valid()
      ensures frameFreeList == Some(p) && freeList == [p] + old(freeList)
      ensures frames == old(frames)[p := old(frames)[p].(previous := old(frameFreeList))]
    {
      PushFreeKeepsConsistent(Snapshot(), stack, frameFreeList, freeList, p);
      frames := frames[p := frames[p].(previous := frameFreeList)];
      frameFreeList := Some(p);
      freeList := [p] + freeList;
    }

    /** `tracing_callgraph_frame_free` (tracing.c:63-74): the frame is released with `efree`. */
    method FrameFree(p: nat)
      requires p in live
      modifies this`live
      ensures live == old(live) - {p}
    {
      live := live - {p};
    }

    /**
     * `tracing_enter_frame_callgraph` (tracing.h:93-111). The host lookups of the
     * current function's name and class are the inputs `resolvedFunction` and
     * `resolvedClass`; `recurseLevel` is whatever the fresh frame's field holds,
     * since the source never assigns it.
     */
    method Enter(rootSymbol: Option<string>, resolvedFunction: Option<string>, resolvedClass: Option<string>,
                 recurseLevel: int, now: int) returns (r: int)
      requires Valid()
      modifies this`frames, this`live, this`myFrame, this`stack
      ensures Valid()
      ensures r == (if EnterName(rootSymbol, resolvedFunction).Some? then 1 else 0)
      ensures Snapshot() == EnterStep(old(Snapshot()), rootSymbol, resolvedFunction, resolvedClass, recurseLevel, now)
      ensures r == 1 ==> stack == [old(|frames|)] + old(stack)
      ensures r == 0 ==> stack == old(stack)
    {
      var functionName := if rootSymbol.Some? then rootSymbol else resolvedFunction;
      if functionName.None? {
        return 0;
      }
      ghost var s0 := Snapshot();
      EnterKeepsConsistent(s0, stack, frameFreeList, freeList, rootSymbol, resolvedFunction, resolvedClass,
                           recurseLevel, now);
      var current := FastAllocFrame();
      var className := if rootSymbol.None? then resolvedClass else None;
      frames := frames[current := Frame(className, functionName.value, recurseLevel, myFrame, now, now, 0)];
      assert frames == s0.heap + [Frame(className, functionName.value, recurseLevel, myFrame, now, now, 0)];
      stack := [current] + stack;
      myFrame := Some(current);
      return 1;
    }

    /**
     * `tracing_exit_frame_callgraph` (tracing.h:113-126). The host only reports a return
     * for a call whose `enter` succeeded, so the stack is not empty.
     */
    method Exit(now: int)
      requires Valid() && myFrame.Some?
      modifies this`frames, this`live, this`myFrame, this`nFrame, this`stack, frameList
      ensures Valid()
      ensures Snapshot() == ExitStep(old(Snapshot()), now)
      ensures stack == old(stack)[1..]
      ensures nFrame == old(nFrame) + 1 ==> frameList[old(nFrame)] == old(myFrame).value
      ensures forall i :: 0 <= i < frameList.Length && i != old(nFrame) ==> frameList[i] == old(frameList[i])
    {
      ghost var s0 := Snapshot();
      ghost var s1 := ExitStep(s0, now);
      ExitKeepsConsistent(s0, stack, frameFreeList, freeList, now);
      var current := myFrame.value;
      var f := frames[current];
      var duration := now - f.wtStart;
      frames := frames[current := f.(wtEnd := now, duration := duration)];
      myFrame := f.previous;
      stack := stack[1..];
      if nFrame < FRAME_LIST_CAPACITY && duration > MIN_RECORDED_DURATION {
        RecordFrame(current);
      } else {
        FrameFree(current);
      }
      assert Snapshot() == s1;
    }

    /** The append of `exit` (tracing.h:121): `p` goes into the next slot of the buffer. */
    method RecordFrame(p: nat)
      requires nFrame < frameList.Length
      modifies this`nFrame, frameList
      ensures nFrame == old(nFrame) + 1 && frameList[..nFrame] == old(frameList[..nFrame]) + [p]
      ensures forall i :: 0 <= i < frameList.Length && i != old(nFrame) ==> frameList[i] == old(frameList[i])
    {
      frameList[nFrame] := p;
      nFrame := nFrame + 1;
      assert frameList[..nFrame] == old(frameList[..nFrame]) + [p];
    }

    /** `tracing_free_the_free_list` (tracing.c:26-36): every frame of the free list is freed; the head is left as it was. */
    method FreeTheFreeList()
      requires Valid() && Elements(freeList) <= live
      modifies this`live
      ensures Valid()
      ensures live == old(live) - Elements(freeList)
      ensures frameFreeList.Some? ==> frameFreeList.value !in live
    {
      ghost var s0 := Snapshot();
      var frame := frameFreeList;
      ghost var k := 0;
      ChainDistinct(frames, frameFreeList, freeList);
      while frame.Some?
        invariant 0 <= k <= |freeList|
        invariant Chain(frames, frame, freeList[k..])
        invariant live == old(live) - Elements(freeList[..k])
        decreases |freeList| - k
      {
        var current := frame.value;
        assert current == freeList[k] && current !in freeList[..k];
        frame := frames[current].previous;
        FrameFree(current);
        assert Elements(freeList[..k + 1]) == Elements(freeList[..k]) + {current} by {
          assert freeList[..k + 1] == freeList[..k] + [current];
        }
        k := k + 1;
      }
      assert freeList[k..] == [];
      assert freeList[..k] == freeList;
      assert frameFreeList.Some? ==> frameFreeList.value == freeList[0];
      ReleaseKeepsConsistent(s0, stack, frameFreeList, freeList, Elements(freeList));
    }

    /** `tracing_request_shutdown` (tracing.c:249-252). */
    method RequestShutdown()
      requires Valid() && Elements(freeList) <= live
      modifies this`live
      ensures Valid()
      ensures live == old(live) - Elements(freeList)
    {
      FreeTheFreeList();
    }

    /** `tracing_request_init` (tracing.c:236-247); the clock's timebase factor is the input `timebase`. */
    method RequestInit(timebase: int)
      requires Valid()
      modifies this`timebaseFactor, this`enabled, this`flags, this`frameFreeList, this`freeList,
               this`numAlloc, this`numFree, this`amountAlloc, this`nFrame
      ensures Valid()
      ensures timebaseFactor == timebase && enabled == 0 && flags == 0
      ensures frameFreeList.None? && freeList == []
      ensures numAlloc == 0 && numFree == 0 && amountAlloc == 0 && nFrame == 0
    {
      ghost var s0 := Snapshot();
      ForgetKeepsConsistent(s0, stack, frameFreeList, freeList);
      ForgetKeepsConsistent(s0.(recorded := []), stack, frameFreeList, freeList);
      timebaseFactor := timebase;
      enabled := 0;
      flags := 0;
      frameFreeList := None;
      freeList := [];
      numAlloc := 0;
      numFree := 0;
      amountAlloc := 0;
      nFrame := 0;
      assert Snapshot() == s0.(recorded := []);
    }

    /**
     * `tracing_begin` (tracing.c:209-234). The loop that would clear `frame_list` runs up to
     * `n_frame` after `n_frame` was set to 0, so it clears nothing and is not repeated here.
     */
    method Begin(newFlags: bv64)
      requires Valid()
      modifies this`flags, this`callgraphFrames, this`nFrame, this`myFrame, this`stack, this`countingHooks,
               callgraphBuckets, functionHashCounters
      ensures Valid()
      ensures flags == newFlags && callgraphFrames.None? && nFrame == 0 && myFrame.None? && stack == []
      ensures forall i :: 0 <= i < callgraphBuckets.Length ==> callgraphBuckets[i] == []
      ensures forall i :: 0 <= i < functionHashCounters.Length ==> functionHashCounters[i] == 0
      ensures countingHooks == (old(countingHooks) || InstallsAllocHooks(newFlags))
    {
      ghost var s0 := Snapshot();
      ForgetKeepsConsistent(s0, stack, frameFreeList, freeList);
      ForgetKeepsConsistent(s0.(recorded := []), stack, frameFreeList, freeList);
      flags := newFlags;
      callgraphFrames := None;
      nFrame := 0;
      ClearBuckets();
      ClearCounters();
      if newFlags & FLAGS_MEMORY_ALLOC != 0 {
        countingHooks := true;
      }
      myFrame := None;
      stack := [];
      assert Snapshot() == s0.(recorded := [], head := None);
    }

    /** The loop of `tracing_begin` that empties every slot of the edge table (tracing.c:220-222). */
    method ClearBuckets()
      modifies callgraphBuckets
      ensures forall i :: 0 <= i < callgraphBuckets.Length ==> callgraphBuckets[i] == []
    {
      for i := 0 to callgraphBuckets.Length
        invariant forall k :: 0 <= k < i ==> callgraphBuckets[k] == []
      {
        callgraphBuckets[i] := [];
      }
    }

    /** The loop of `tracing_begin` that zeroes every per-function counter (tracing.c:224-226). */
    method ClearCounters()
      modifies functionHashCounters
      ensures forall i :: 0 <= i < functionHashCounters.Length ==> functionHashCounters[i] == 0
    {
      for i := 0 to functionHashCounters.Length
        invariant forall k :: 0 <= k < i ==> functionHashCounters[k] == 0
      {
        functionHashCounters[i] := 0;
      }
    }

    /**
     * `tracing_enter_root_frame` (tracing.c:38-46): the trace is enabled, the buffer
     * emptied, and the root frame `main()` entered. The source reads the clock twice,
     * once for `start_time` and once more inside `enter` for the root frame's start:
     * the two readings are the independent inputs `startClock` and `now`, and the
     * timestamp is the input `timestamp`.
     */
    method EnterRootFrame(startClock: int, timestamp: int, recurseLevel: int, now: int)
      requires Valid()
      modifies this`startTime, this`startTimestamp, this`enabled, this`root, this`nFrame,
               this`frames, this`live, this`myFrame, this`stack
      ensures Valid()
      ensures enabled == 1 && root == Some(ROOT_SYMBOL) && startTime == startClock && startTimestamp == timestamp
      ensures Snapshot() == EnterStep(old(Snapshot()).(recorded := []), Some(ROOT_SYMBOL), None, None, recurseLevel, now)
      ensures myFrame == Some(old(|frames|)) && stack == [old(|frames|)] + old(stack)
      ensures frames[old(|frames|)].className.None? && frames[old(|frames|)].functionName == ROOT_SYMBOL
      ensures frames[old(|frames|)].wtStart == now
    {
      startTime := startClock;
      startTimestamp := timestamp;
      enabled := 1;
      root := Some(ROOT_SYMBOL);
      ghost var s0 := Snapshot();
      ForgetKeepsConsistent(s0, stack, frameFreeList, freeList);
      nFrame := 0;
      assert Snapshot() == s0.(recorded := []);
      var _ := Enter(root, None, None, recurseLevel, now);
    }

    /**
     * `tracing_end` (tracing.c:48-61). Frames are unwound with the ordinary exit, so
     * they may be recorded, while `callgraph_frames` is set; nothing in this core sets
     * it, so normally nothing is unwound. Should it be set, the source calls exit
     * again once the stack is empty and dereferences the NULL head: the model stops
     * there and reports `fault`. Each exit reads the clock again: `nows` holds one
     * reading per frame on the stack, in the order the frames are exited.
     */
    method End(nows: seq<int>) returns (fault: bool)
      requires Valid() && |nows| == |stack|
      modifies this`enabled, this`callgraphFrames, this`frames, this`live, this`myFrame, this`nFrame,
               this`stack, frameList
      ensures Valid()
      ensures fault <==> old(enabled) == 1 && old(callgraphFrames).Some?
      ensures old(enabled) != 1 ==>
                enabled == old(enabled) && callgraphFrames == old(callgraphFrames)
                && Snapshot() == old(Snapshot()) && stack == old(stack) && frameList[..] == old(frameList[..])
      ensures old(enabled) == 1 && old(callgraphFrames).None? ==>
                enabled == 0 && callgraphFrames.None?
                && Snapshot() == old(Snapshot()) && stack == old(stack) && frameList[..] == old(frameList[..])
      ensures fault ==> Run(old(Snapshot()), Exits(nows)) == Some(Snapshot()) && stack == [] && myFrame.None?
    {
      fault := false;
      if enabled == 1 {
        // the root name is released here; names carry no reference counts in the model
        if callgraphFrames.Some? {
          UnwindStack(nows);
          fault := true;
          return;
        }
        enabled := 0;
        callgraphFrames := None;
      }
    }

    /**
     * The loop of `tracing_end` (tracing.c:54-56) when `callgraph_frames` is set: exit
     * never changes it, so every frame of the stack is exited, in order, until the stack
     * is empty and the next exit would dereference the NULL head. The `n`-th exit reads
     * the clock as `nows[n]`.
     */
    method UnwindStack(nows: seq<int>)
      requires Valid() && |nows| == |stack|
      modifies this`frames, this`live, this`myFrame, this`nFrame, this`stack, frameList
      ensures Valid()
      ensures Run(old(Snapshot()), Exits(nows)) == Some(Snapshot())
      ensures stack == [] && myFrame.None?
    {
      ghost var start := Snapshot();
      var n := 0;
      while myFrame.Some?
        invariant Valid()
        invariant n + |stack| == |nows|
        invariant Run(start, Exits(nows[..n])) == Some(Snapshot())
        decreases |stack|
      {
        ghost var before := Snapshot();
        HeadExactlyWhenStacked(before, stack, frameFreeList, freeList);
        RunExitsSnoc(start, nows, n, before);
        Exit(nows[n]);
        n := n + 1;
      }
      assert stack == [] && nows[..n] == nows;
    }

    /**
     * `tracing_callgraph_append_to_array` (tracing.c:188-207): one record per recorded
     * frame, in buffer order.
     */
    method AppendToArray() returns (records: seq<ExportRecord>)
      requires Valid()
      ensures records == Export(frames, Recorded())
      ensures |records| == nFrame
      ensures forall i :: 0 <= i < nFrame ==> records[i] == RecordOf(frames[frameList[i]])
      ensures forall i :: 0 <= i < nFrame ==>
                records[i].duration == records[i].wtEnd - records[i].wtStart
                && records[i].duration > MIN_RECORDED_DURATION
    {
      records := [];
      ghost var rec := Recorded();
      assert IndicesIn(frames, rec);
      for i := 0 to nFrame
        invariant IndicesIn(frames, rec[..i]) && records == Export(frames, rec[..i])
      {
        ExportSnoc(frames, rec, i);
        assert frameList[i] == rec[i];
        records := records + [RecordOf(frames[frameList[i]])];
      }
      assert rec[..nFrame] == rec;
      assert forall i :: 0 <= i < |rec| ==> Completed(frames[rec[i]]);
      forall i | 0 <= i < |rec|
        ensures |records| == |rec| && records[i] == RecordOf(frames[rec[i]])
      {
        ExportAt(frames, rec, i);
      }
      if nFrame == 0 {
        assert records == [];
      }
    }

    /** The counter update of `tideways_malloc` (tracing.c:254-258). */
    method CountMalloc(size: nat)
      modifies this`numAlloc, this`amountAlloc
      ensures numAlloc == old(numAlloc) + 1 && amountAlloc == old(amountAlloc) + size
    {
      numAlloc := numAlloc + 1;
      amountAlloc := amountAlloc + size;
    }

    /** The counter update of `tideways_free` (tracing.c:267-269). */
    method CountFree()
      modifies this`numFree
      ensures numFree == old(numFree) + 1
    {
      numFree := numFree + 1;
    }

    /** The counter update of `tideways_realloc` (tracing.c:279-283). */
    method CountRealloc(size: nat)
      modifies this`numAlloc, this`numFree, this`amountAlloc
      ensures numAlloc == old(numAlloc) + 1 && numFree == old(numFree) + 1
      ensures amountAlloc == old(amountAlloc) + size
    {
      numAlloc := numAlloc + 1;
      numFree := numFree + 1;
      amountAlloc := amountAlloc + size;
    }
  }
}
