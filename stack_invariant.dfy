/**
 * The invariant the trace context keeps over its frames, stated on values: the
 * active stack and the free list are chains of `previous` links through the arena,
 * and the two never share a frame. Entering, leaving, releasing and recycling
 * frames, as `Frames` and the trace context perform them, keep it.
 */
module StackInvariant {
  import opened Wrappers
  import opened Frames
  import opened Constants

  /** `s` lists the frames met by following `previous` from `head` until it is absent. */
  ghost predicate Chain(heap: seq<Frame>, head: Option<nat>, s: seq<nat>)
    decreases |s|
  {
    if s == [] then head.None?
    else head == Some(s[0]) && s[0] < |heap| && Chain(heap, heap[s[0]].previous, s[1..])
  }

  /** A chain survives any change to the arena that keeps the links of its own frames. */
  lemma {:induction false} ChainKept(h1: seq<Frame>, h2: seq<Frame>, head: Option<nat>, s: seq<nat>)
    requires Chain(h1, head, s) && |h1| <= |h2|
    requires forall i :: 0 <= i < |s| && s[i] < |h1| ==> h2[s[i]].previous == h1[s[i]].previous
    ensures Chain(h2, head, s)
    decreases |s|
  {
    if s != [] {
      assert h2[s[0]].previous == h1[s[0]].previous;
      ChainKept(h1, h2, h1[s[0]].previous, s[1..]);
    }
  }

  /** Every frame of a chain is a frame of the arena. */
  lemma {:induction false} ChainInArena(heap: seq<Frame>, head: Option<nat>, s: seq<nat>)
    requires Chain(heap, head, s)
    ensures forall i :: 0 <= i < |s| ==> s[i] < |heap|
    decreases |s|
  {
    if s != [] {
      ChainInArena(heap, heap[s[0]].previous, s[1..]);
      assert forall i :: 1 <= i < |s| ==> s[i] == s[1..][i - 1];
    }
  }

  /**
   * The active stack: a chain whose frames are all live, each one allocated after
   * (at a higher index than) its caller.
   */
  ghost predicate StackChain(heap: seq<Frame>, live: set<nat>, head: Option<nat>, s: seq<nat>)
    decreases |s|
  {
    if s == [] then head.None?
    else
      head == Some(s[0]) && s[0] < |heap| && s[0] in live
      && (|s| > 1 ==> s[1] < s[0])
      && StackChain(heap, live, heap[s[0]].previous, s[1..])
  }

  /** The stack survives changes that keep its frames' links and keep its frames live. */
  lemma {:induction false} StackChainKept(h1: seq<Frame>, h2: seq<Frame>, l1: set<nat>, l2: set<nat>,
                                          head: Option<nat>, s: seq<nat>)
    requires StackChain(h1, l1, head, s) && |h1| <= |h2|
    requires forall i :: 0 <= i < |s| && s[i] < |h1| ==>
               h2[s[i]].previous == h1[s[i]].previous && (s[i] in l1 ==> s[i] in l2)
    ensures StackChain(h2, l2, head, s)
    decreases |s|
  {
    if s != [] {
      assert h2[s[0]].previous == h1[s[0]].previous;
      StackChainKept(h1, h2, l1, l2, h1[s[0]].previous, s[1..]);
    }
  }

  /** Every frame of the stack is live, and the callers of the head are older than it. */
  lemma {:induction false} StackChainBelowHead(heap: seq<Frame>, live: set<nat>, head: Option<nat>, s: seq<nat>)
    requires StackChain(heap, live, head, s)
    ensures forall i :: 0 <= i < |s| ==> s[i] < |heap| && s[i] in live
    ensures forall i :: 1 <= i < |s| ==> s[i] < s[0]
    decreases |s|
  {
    if s != [] {
      StackChainBelowHead(heap, live, heap[s[0]].previous, s[1..]);
      assert forall i :: 1 <= i < |s| ==> s[i] == s[1..][i - 1];
    }
  }

  /** The set of the elements of `s`. */
  ghost function Elements(s: seq<nat>): set<nat>
  {
    set x | x in s
  }

  /** Two chains from the same head are the same chain. */
  lemma {:induction false} ChainUnique(heap: seq<Frame>, h1: Option<nat>, h2: Option<nat>, s1: seq<nat>, s2: seq<nat>)
    requires Chain(heap, h1, s1) && Chain(heap, h2, s2)
    ensures h1 == h2 ==> s1 == s2
    decreases |s1|
  {
    if h1 == h2 && s1 != [] {
      ChainUnique(heap, heap[s1[0]].previous, heap[s2[0]].previous, s1[1..], s2[1..]);
      assert s1 == [s1[0]] + s1[1..] && s2 == [s2[0]] + s2[1..];
    }
  }

  /** Every suffix of a chain is the chain from its first frame. */
  lemma {:induction false} ChainSuffix(heap: seq<Frame>, head: Option<nat>, s: seq<nat>, i: nat)
    requires Chain(heap, head, s) && i < |s|
    ensures Chain(heap, Some(s[i]), s[i..])
    decreases i
  {
    if i == 0 {
      assert s[0..] == s;
    } else {
      ChainSuffix(heap, heap[s[0]].previous, s[1..], i - 1);
      assert s[1..][i - 1..] == s[i..];
    }
  }

  /** A chain never meets the same frame twice, since it ends. */
  lemma ChainDistinct(heap: seq<Frame>, head: Option<nat>, s: seq<nat>)
    requires Chain(heap, head, s)
    ensures forall i, j :: 0 <= i < j < |s| ==> s[i] != s[j]
  {
    forall i, j | 0 <= i < j < |s|
      ensures s[i] != s[j]
    {
      ChainSuffix(heap, head, s, i);
      ChainSuffix(heap, head, s, j);
      ChainUnique(heap, Some(s[i]), Some(s[j]), s[i..], s[j..]);
      assert |s[i..]| != |s[j..]|;
    }
  }

  /**
   * The invariant of the shadow-stack state: well formed, `stack` is the active stack
   * from the head, `freeList` the free list from `freeHead`, and no frame is on both.
   * The recorded frames are live and on neither list, so nothing but `exit` ever
   * writes to a frame the buffer holds, and each is completed as `exit` left it.
   */
  ghost predicate Consistent(s: Shadow, stack: seq<nat>, freeHead: Option<nat>, freeList: seq<nat>)
  {
    WellFormed(s)
    && StackChain(s.heap, s.live, s.head, stack)
    && Chain(s.heap, freeHead, freeList)
    && Elements(freeList) !! Elements(stack)
    && Elements(s.recorded) !! Elements(stack)
    && Elements(s.recorded) !! Elements(freeList)
    && Elements(s.recorded) <= s.live
    && (forall i :: 0 <= i < |s.recorded| ==> Completed(s.heap[s.recorded[i]]))
  }

  /** The stack is empty exactly when there is no head. */
  lemma HeadExactlyWhenStacked(s: Shadow, stack: seq<nat>, freeHead: Option<nat>, freeList: seq<nat>)
    requires Consistent(s, stack, freeHead, freeList)
    ensures s.head.Some? <==> stack != []
  {
  }

  /** Entering a named frame pushes the new arena slot on the stack and keeps the invariant. */
  lemma EnterKeepsConsistent(s: Shadow, stack: seq<nat>, freeHead: Option<nat>, freeList: seq<nat>,
                             rootSymbol: Option<string>, resolvedFunction: Option<string>,
                             resolvedClass: Option<string>, level: int, now: int)
    requires Consistent(s, stack, freeHead, freeList)
    requires EnterName(rootSymbol, resolvedFunction).Some?
    ensures Consistent(EnterStep(s, rootSymbol, resolvedFunction, resolvedClass, level, now),
                       [|s.heap|] + stack, freeHead, freeList)
  {
    var r := EnterStep(s, rootSymbol, resolvedFunction, resolvedClass, level, now);
    var p := |s.heap|;
    StackChainBelowHead(s.heap, s.live, s.head, stack);
    ChainInArena(s.heap, freeHead, freeList);
    assert forall i :: 0 <= i < p ==> r.heap[i] == s.heap[i] by {
      assert forall i :: 0 <= i < p ==> r.heap[i] == r.heap[..p][i];
    }
    StackChainKept(s.heap, r.heap, s.live, r.live, s.head, stack);
    ChainKept(s.heap, r.heap, freeHead, freeList);
    assert ([p] + stack)[1..] == stack;
    assert p !in Elements(s.recorded);
    assert Elements([p] + stack) == {p} + Elements(stack);
  }

  /** Leaving the head frame pops it from the stack and keeps the invariant. */
  lemma ExitKeepsConsistent(s: Shadow, stack: seq<nat>, freeHead: Option<nat>, freeList: seq<nat>, now: int)
    requires Consistent(s, stack, freeHead, freeList) && s.head.Some?
    ensures stack != [] && stack[0] == s.head.value && s.head.value in s.live
    ensures s.head.value !in s.recorded
    ensures Consistent(ExitStep(s, now), stack[1..], freeHead, freeList)
  {
    var r := ExitStep(s, now);
    var cur := s.head.value;
    StackChainBelowHead(s.heap, s.live, s.head, stack);
    var rest := stack[1..];
    assert forall i :: 0 <= i < |rest| ==> rest[i] == stack[i + 1];
    StackChainKept(s.heap, r.heap, s.live, r.live, s.heap[cur].previous, rest);
    ChainKept(s.heap, r.heap, freeHead, freeList);
    assert Elements(rest) <= Elements(stack);
    assert cur in Elements(stack) && cur !in Elements(rest);
    assert Elements(s.recorded + [cur]) == Elements(s.recorded) + {cur};
  }

  /**
   * Leaving the head frame leaves the records of the frames already in the buffer as
   * they were, and appends the record of the head frame exactly when it is kept.
   */
  lemma ExitAppendsToExport(s: Shadow, stack: seq<nat>, freeHead: Option<nat>, freeList: seq<nat>, now: int)
    requires Consistent(s, stack, freeHead, freeList) && s.head.Some?
    ensures var r := ExitStep(s, now);
            var cur := s.head.value;
            IndicesIn(r.heap, r.recorded)
            && Export(r.heap, r.recorded)
               == Export(s.heap, s.recorded)
                  + (if Keeps(|s.recorded|, now - s.heap[cur].wtStart) then [RecordOf(r.heap[cur])] else [])
  {
    var r := ExitStep(s, now);
    var cur := s.head.value;
    ExitKeepsConsistent(s, stack, freeHead, freeList, now);
    ExportReadsOnlyRecorded(s.heap, r.heap, s.recorded);
    if Keeps(|s.recorded|, now - s.heap[cur].wtStart) {
      ExportSnoc(r.heap, r.recorded, |s.recorded|);
      assert r.recorded[..|s.recorded|] == s.recorded;
      assert r.recorded[..|s.recorded| + 1] == r.recorded;
    }
  }

  /**
   * Every record a consistent state exports has `duration == wt_end - wt_start` and a
   * duration above the 10 ms threshold.
   */
  lemma ExportedRecordsAreCompleted(s: Shadow, stack: seq<nat>, freeHead: Option<nat>, freeList: seq<nat>)
    requires Consistent(s, stack, freeHead, freeList)
    ensures var e := Export(s.heap, s.recorded);
            forall i :: 0 <= i < |e| ==> e[i].duration == e[i].wtEnd - e[i].wtStart && e[i].duration > MIN_RECORDED_DURATION
  {
    var e := Export(s.heap, s.recorded);
    if s.recorded != [] {
      ExportAt(s.heap, s.recorded, 0);
    }
    forall i | 0 <= i < |e|
      ensures e[i].duration == e[i].wtEnd - e[i].wtStart && e[i].duration > MIN_RECORDED_DURATION
    {
      ExportAt(s.heap, s.recorded, i);
    }
  }

  /** Releasing frames that are neither on the stack nor in the buffer keeps the invariant. */
  lemma ReleaseKeepsConsistent(s: Shadow, stack: seq<nat>, freeHead: Option<nat>, freeList: seq<nat>, gone: set<nat>)
    requires Consistent(s, stack, freeHead, freeList) && gone !! Elements(stack) && gone !! Elements(s.recorded)
    ensures Consistent(s.(live := s.live - gone), stack, freeHead, freeList)
  {
    StackChainKept(s.heap, s.heap, s.live, s.live - gone, s.head, stack);
  }

  /** Pushing a frame that is on neither list and not in the buffer onto the free list keeps the invariant. */
  lemma PushFreeKeepsConsistent(s: Shadow, stack: seq<nat>, freeHead: Option<nat>, freeList: seq<nat>, p: nat)
    requires Consistent(s, stack, freeHead, freeList)
    requires p < |s.heap| && p !in stack && p !in freeList && p !in s.recorded
    ensures Consistent(s.(heap := s.heap[p := s.heap[p].(previous := freeHead)]), stack, Some(p), [p] + freeList)
  {
    var h := s.heap[p := s.heap[p].(previous := freeHead)];
    StackChainBelowHead(s.heap, s.live, s.head, stack);
    StackChainKept(s.heap, h, s.live, s.live, s.head, stack);
    ChainKept(s.heap, h, freeHead, freeList);
    assert ([p] + freeList)[1..] == freeList;
    assert Elements([p] + freeList) == {p} + Elements(freeList);
  }

  /** Forgetting the buffer, the free list or the whole stack keeps the invariant. */
  lemma ForgetKeepsConsistent(s: Shadow, stack: seq<nat>, freeHead: Option<nat>, freeList: seq<nat>)
    requires Consistent(s, stack, freeHead, freeList)
    ensures Consistent(s.(recorded := []), stack, freeHead, freeList)
    ensures Consistent(s, stack, None, [])
    ensures Consistent(s.(head := None), [], freeHead, freeList)
  {
  }
}
