/**
 * Frames, the shadow call stack and the completed-frame buffer as values
 * (tracing.h:93-126, tracing.c:188-207).
 *
 * Frames live in an arena: `heap` holds every frame ever allocated, indexed
 * by position, and `live` the positions not yet freed. A `previous_frame`
 * pointer is an optional index. `head` is `my_frame` and `recorded` is
 * `frame_list[0..n_frame)`. The trace context's methods are proved to act
 * on their state as the step functions here do.
 */
module Frames {
  import opened Wrappers
  import opened Constants
  import opened Symbols

  /** One call activation (`xhprof_frame_t`). */
  datatype Frame = Frame(
    className: Option<string>,
    functionName: string,
    recurseLevel: int,
    previous: Option<nat>,
    wtStart: int,
    wtEnd: int,
    duration: int)

  /**
   * A frame as `emalloc` hands it out. `enter` overwrites every field except
   * `duration`, which `exit` writes before anything reads it.
   */
  const UNSET_FRAME: Frame := Frame(None, "", 0, None, 0, 0, 0)

  /** One entry of the exported array (tracing.c:200-205). */
  datatype ExportRecord = ExportRecord(functionName: string, wtStart: int, wtEnd: int, duration: int)

  function RecordOf(f: Frame): ExportRecord
  {
    ExportRecord(FunctionName(f.className, f.functionName), f.wtStart, f.wtEnd, f.duration)
  }

  predicate IndicesIn(heap: seq<Frame>, ids: seq<nat>)
  {
    forall i :: 0 <= i < |ids| ==> ids[i] < |heap|
  }

  /** The records `tracing_callgraph_append_to_array` builds from the recorded frames, in order. */
  function Export(heap: seq<Frame>, recorded: seq<nat>): seq<ExportRecord>
    requires IndicesIn(heap, recorded)
    decreases |recorded|
  {
    if recorded == [] then []
    else Export(heap, recorded[..|recorded| - 1]) + [RecordOf(heap[recorded[|recorded| - 1]])]
  }

  /** Exporting one more recorded frame appends that frame's record. */
  lemma ExportSnoc(heap: seq<Frame>, recorded: seq<nat>, i: nat)
    requires IndicesIn(heap, recorded) && i < |recorded|
    ensures IndicesIn(heap, recorded[..i]) && IndicesIn(heap, recorded[..i + 1])
    ensures Export(heap, recorded[..i + 1]) == Export(heap, recorded[..i]) + [RecordOf(heap[recorded[i]])]
  {
    assert recorded[..i + 1][..i] == recorded[..i];
  }

  /** The export has one record per recorded frame, and record `i` is that of `recorded[i]`. */
  lemma {:induction false} ExportAt(heap: seq<Frame>, recorded: seq<nat>, i: nat)
    requires IndicesIn(heap, recorded)
    requires i < |recorded|
    ensures |Export(heap, recorded)| == |recorded|
    ensures Export(heap, recorded)[i] == RecordOf(heap[recorded[i]])
    decreases |recorded|
  {
    var front := recorded[..|recorded| - 1];
    if i < |front| {
      ExportAt(heap, front, i);
    } else if front != [] {
      ExportAt(heap, front, 0);
    }
  }

  /** The export reads only the recorded frames: changing any other frame leaves it as it was. */
  lemma {:induction false} ExportReadsOnlyRecorded(h1: seq<Frame>, h2: seq<Frame>, recorded: seq<nat>)
    requires IndicesIn(h1, recorded) && IndicesIn(h2, recorded)
    requires forall i :: 0 <= i < |recorded| ==> h1[recorded[i]] == h2[recorded[i]]
    ensures Export(h1, recorded) == Export(h2, recorded)
    decreases |recorded|
  {
    if recorded != [] {
      var front := recorded[..|recorded| - 1];
      assert forall i :: 0 <= i < |front| ==> front[i] == recorded[i];
      ExportReadsOnlyRecorded(h1, h2, front);
    }
  }

  /** The part of the trace state that entering and leaving frames works on. */
  datatype Shadow = Shadow(heap: seq<Frame>, live: set<nat>, head: Option<nat>, recorded: seq<nat>)

  /** Every pointer of the state, the head, the links and the recorded entries, names a frame of the arena. */
  ghost predicate WellFormed(s: Shadow)
  {
    (s.head.Some? ==> s.head.value < |s.heap|)
    && (forall i :: 0 <= i < |s.heap| && s.heap[i].previous.Some? ==> s.heap[i].previous.value < |s.heap|)
    && IndicesIn(s.heap, s.recorded)
    && (forall k :: k in s.live ==> k < |s.heap|)
  }

  /** The function name `enter` works with: the root symbol when one is given, else the resolved name. */
  function EnterName(rootSymbol: Option<string>, resolvedFunction: Option<string>): Option<string>
  {
    if rootSymbol.Some? then rootSymbol else resolvedFunction
  }

  /**
   * `tracing_enter_frame_callgraph` (tracing.h:93-111). With no name it changes nothing;
   * otherwise it allocates a new frame, never reusing a freed one, and makes it the head.
   */
  function EnterStep(s: Shadow, rootSymbol: Option<string>, resolvedFunction: Option<string>,
                     resolvedClass: Option<string>, level: int, now: int): (r: Shadow)
    ensures EnterName(rootSymbol, resolvedFunction).None? ==> r == s
    ensures EnterName(rootSymbol, resolvedFunction).Some? ==>
              var p := |s.heap|;
              |r.heap| == p + 1 && r.heap[..p] == s.heap && r.head == Some(p)
              && r.live == s.live + {p} && r.recorded == s.recorded
              && r.heap[p].previous == s.head
              && r.heap[p].wtStart == now && r.heap[p].wtEnd == now
              && r.heap[p].functionName == EnterName(rootSymbol, resolvedFunction).value
              && r.heap[p].className == (if rootSymbol.Some? then None else resolvedClass)
              && r.heap[p].recurseLevel == level
    ensures WellFormed(s) ==> WellFormed(r)
  {
    var name := EnterName(rootSymbol, resolvedFunction);
    if name.None? then s
    else
      var cls := if rootSymbol.None? then resolvedClass else None;
      var p := |s.heap|;
      Shadow(s.heap + [Frame(cls, name.value, level, s.head, now, now, 0)], s.live + {p}, Some(p), s.recorded)
  }

  /** Entering a frame leaves the records of the buffer as they were. */
  lemma EnterKeepsExport(s: Shadow, rootSymbol: Option<string>, resolvedFunction: Option<string>,
                         resolvedClass: Option<string>, level: int, now: int)
    requires WellFormed(s)
    ensures var r := EnterStep(s, rootSymbol, resolvedFunction, resolvedClass, level, now);
            IndicesIn(r.heap, r.recorded) && Export(r.heap, r.recorded) == Export(s.heap, s.recorded)
  {
    var r := EnterStep(s, rootSymbol, resolvedFunction, resolvedClass, level, now);
    if EnterName(rootSymbol, resolvedFunction).Some? {
      var p := |s.heap|;
      assert forall i :: 0 <= i < p ==> r.heap[i] == s.heap[i] by {
        assert forall i :: 0 <= i < p ==> r.heap[i] == r.heap[..p][i];
      }
      ExportReadsOnlyRecorded(s.heap, r.heap, s.recorded);
    }
  }

  /** A frame as `exit` leaves it when it keeps it: stamped, with a duration above the threshold. */
  predicate Completed(f: Frame)
  {
    f.duration == f.wtEnd - f.wtStart && f.duration > MIN_RECORDED_DURATION
  }

  /** Whether `exit` keeps a frame: room left in the buffer and a duration above the threshold (tracing.h:120). */
  predicate Keeps(nFrame: nat, duration: int)
  {
    nFrame < FRAME_LIST_CAPACITY && duration > MIN_RECORDED_DURATION
  }

  /**
   * `tracing_exit_frame_callgraph` (tracing.h:113-126): stamps the head frame, pops it,
   * and either appends it to the buffer or frees it.
   */
  function ExitStep(s: Shadow, now: int): (r: Shadow)
    requires s.head.Some? && s.head.value < |s.heap|
    ensures var cur := s.head.value;
            var f := s.heap[cur];
            |r.heap| == |s.heap|
            && (forall i :: 0 <= i < |s.heap| && i != cur ==> r.heap[i] == s.heap[i])
            && r.heap[cur] == f.(wtEnd := now, duration := now - f.wtStart)
            && r.head == f.previous
    ensures var f := r.heap[s.head.value];
            f.duration == f.wtEnd - f.wtStart && (now >= f.wtStart ==> f.duration >= 0)
    ensures s.recorded <= r.recorded
    ensures var cur := s.head.value;
            if Keeps(|s.recorded|, now - s.heap[cur].wtStart) then
              r.recorded == s.recorded + [cur] && r.live == s.live
            else
              r.recorded == s.recorded && r.live == s.live - {cur}
    ensures |s.recorded| <= FRAME_LIST_CAPACITY ==> |r.recorded| <= FRAME_LIST_CAPACITY
    ensures WellFormed(s) ==> WellFormed(r)
  {
    var cur := s.head.value;
    var f := s.heap[cur];
    var done := f.(wtEnd := now, duration := now - f.wtStart);
    var heap := s.heap[cur := done];
    if Keeps(|s.recorded|, done.duration) then Shadow(heap, s.live, f.previous, s.recorded + [cur])
    else Shadow(heap, s.live - {cur}, f.previous, s.recorded)
  }

  /** A call or return reported by the host; `now` is the clock reading at that moment. */
  datatype Event =
    | Enter(rootSymbol: Option<string>, resolvedFunction: Option<string>, resolvedClass: Option<string>, level: int, now: int)
    | Exit(now: int)

  /** One event; an exit with an empty stack has no outcome, since the source dereferences the NULL head. */
  function Step(s: Shadow, e: Event): Option<Shadow>
  {
    match e
    case Enter(root, fn, cls, level, now) => Some(EnterStep(s, root, fn, cls, level, now))
    case Exit(now) => if s.head.Some? && s.head.value < |s.heap| then Some(ExitStep(s, now)) else None
  }

  /** The state after a sequence of events, or None when one of them was an exit on an empty stack. */
  function Run(s: Shadow, events: seq<Event>): Option<Shadow>
    decreases |events|
  {
    if events == [] then Some(s)
    else
      match Run(s, events[..|events| - 1])
      case None => None
      case Some(t) => Step(t, events[|events| - 1])
  }

  /** One exit per clock reading, in order. */
  function Exits(nows: seq<int>): (r: seq<Event>)
    ensures |r| == |nows|
    decreases |nows|
  {
    if nows == [] then [] else Exits(nows[..|nows| - 1]) + [Exit(nows[|nows| - 1])]
  }

  /** One more exit, at the next reading, extends a run of exits by one `ExitStep`. */
  lemma RunExitsSnoc(s: Shadow, nows: seq<int>, n: nat, t: Shadow)
    requires n < |nows| && Run(s, Exits(nows[..n])) == Some(t)
    requires t.head.Some? && t.head.value < |t.heap|
    ensures Run(s, Exits(nows[..n + 1])) == Some(ExitStep(t, nows[n]))
  {
    assert nows[..n + 1][..n] == nows[..n];
    assert Exits(nows[..n + 1]) == Exits(nows[..n]) + [Exit(nows[n])];
  }

  /** The `i`-th of those exits is stamped with the `i`-th reading. */
  lemma {:induction false} ExitsAt(nows: seq<int>, i: nat)
    requires i < |nows|
    ensures Exits(nows)[i] == Exit(nows[i])
    decreases |nows|
  {
    var front := nows[..|nows| - 1];
    if i < |front| {
      ExitsAt(front, i);
    }
  }

  /**
   * Over any sequence of calls and returns, the state stays well formed, the buffer
   * never holds more than 10000 frames, and what it held before is never overwritten.
   */
  lemma {:induction false} RunKeepsBufferBoundedAndAppendOnly(s: Shadow, events: seq<Event>)
    requires WellFormed(s) && |s.recorded| <= FRAME_LIST_CAPACITY
    requires Run(s, events).Some?
    ensures var t := Run(s, events).value;
            WellFormed(t) && |t.recorded| <= FRAME_LIST_CAPACITY && s.recorded <= t.recorded
    decreases |events|
  {
    if events != [] {
      var front := events[..|events| - 1];
      RunKeepsBufferBoundedAndAppendOnly(s, front);
    }
  }

  /**
   * `enter` followed by `exit` puts the stack head back where it was; the frame is kept
   * when its duration qualifies, and otherwise freed again.
   */
  lemma EnterThenExitRestoresHead(s: Shadow, rootSymbol: Option<string>, resolvedFunction: Option<string>,
                                  resolvedClass: Option<string>, level: int, t0: int, t1: int)
    requires WellFormed(s) && EnterName(rootSymbol, resolvedFunction).Some?
    ensures var t := Run(s, [Enter(rootSymbol, resolvedFunction, resolvedClass, level, t0), Exit(t1)]);
            t.Some? && t.value.head == s.head && |t.value.heap| == |s.heap| + 1
            && t.value.heap[|s.heap|].duration == t1 - t0
            && (if Keeps(|s.recorded|, t1 - t0) then t.value.recorded == s.recorded + [|s.heap|]
                else t.value.recorded == s.recorded && t.value.live == s.live)
  {
    var evs := [Enter(rootSymbol, resolvedFunction, resolvedClass, level, t0), Exit(t1)];
    var s1 := EnterStep(s, rootSymbol, resolvedFunction, resolvedClass, level, t0);
    assert evs[..1][..0] == [];
    assert Run(s, evs[..1]) == Some(s1);
    assert evs[..2] == evs;
    assert s1.head == Some(|s.heap|) && |s1.heap| == |s.heap| + 1;
    assert Run(s, evs) == Some(ExitStep(s1, t1));
    assert |s.heap| !in s.live;
    assert s.live + {|s.heap|} - {|s.heap|} == s.live;
  }

  /** The empty state at the start of a request. */
  const EMPTY: Shadow := Shadow([], {}, None, [])

  /** The events of a root frame that calls `Foo::bar`, both returning at 20 ms. */
  const NESTED_CALL: seq<Event> :=
    [Enter(Some(ROOT_SYMBOL), None, None, 0, 0), Enter(None, Some("bar"), Some("Foo"), 0, 0), Exit(20), Exit(20)]

  /** After the nested call the stack is empty and both frames are recorded, the callee first. */
  lemma NestedCallFrames()
    ensures var t := Run(EMPTY, NESTED_CALL);
            t.Some? && t.value.head.None? && t.value.recorded == [1, 0] && |t.value.heap| == 2
            && t.value.heap[0] == Frame(None, ROOT_SYMBOL, 0, None, 0, 20, 20)
            && t.value.heap[1] == Frame(Some("Foo"), "bar", 0, Some(0), 0, 20, 20)
  {
    var evs := NESTED_CALL;
    assert evs[..3][..2][..1][..0] == [];
    var s1 := EnterStep(EMPTY, Some(ROOT_SYMBOL), None, None, 0, 0);
    var s2 := EnterStep(s1, None, Some("bar"), Some("Foo"), 0, 0);
    var s3 := ExitStep(s2, 20);
    var s4 := ExitStep(s3, 20);
    assert Run(EMPTY, evs[..1]) == Some(s1);
    assert evs[..2][..1] == evs[..1];
    assert Run(EMPTY, evs[..2]) == Some(s2);
    assert evs[..3][..2] == evs[..2];
    assert Run(EMPTY, evs[..3]) == Some(s3);
    assert evs[..4][..3] == evs[..3] && evs[..4] == evs;
    assert Run(EMPTY, evs) == Some(s4);
  }

  /** The root frame has no class, so it exports as `closure::main()()`, not as `main()`. */
  lemma RootExportName()
    ensures FunctionName(None, ROOT_SYMBOL) == "closure::main()()"
  {
    assert Owner(None) == "closure";
    assert "closure" + "::" == "closure::";
    assert "closure::" + "main()" == "closure::main()";
    assert "closure::main()" + "()" == "closure::main()()";
  }

  /** A method `Foo::bar` exports as `Foo::bar()`. */
  lemma FooBarExportName()
    ensures FunctionName(Some("Foo"), "bar") == "Foo::bar()"
  {
    assert "Foo" + "::" == "Foo::";
    assert "Foo::" + "bar" == "Foo::bar";
    assert "Foo::bar" + "()" == "Foo::bar()";
  }

  /**
   * A root frame and one method `Foo::bar` that runs 20 ms: both frames are recorded,
   * the callee first; the root, having no class, exports as `closure::main()()`.
   */
  lemma NestedCallScenario()
    ensures var t := Run(EMPTY, NESTED_CALL);
            t.Some? && IndicesIn(t.value.heap, t.value.recorded)
            && Export(t.value.heap, t.value.recorded)
               == [ExportRecord("Foo::bar()", 0, 20, 20), ExportRecord("closure::main()()", 0, 20, 20)]
  {
    NestedCallFrames();
    var t := Run(EMPTY, NESTED_CALL).value;
    FooBarExportName();
    RootExportName();
    assert [1, 0][..1] == [1] && [1][..0] == [];
    assert Export(t.heap, [1]) == [RecordOf(t.heap[1])];
  }

  /** A call that returns after 2 ms is not recorded and its frame is freed. */
  lemma ShortCallScenario(s: Shadow, t0: int)
    requires WellFormed(s) && s.head.None?
    ensures var t := Run(s, [Enter(None, Some("f"), None, 0, t0), Exit(t0 + 2)]);
            t.Some? && t.value.recorded == s.recorded && |s.heap| !in t.value.live && t.value.head.None?
  {
    EnterThenExitRestoresHead(s, None, Some("f"), None, 0, t0, t0 + 2);
    assert |s.heap| !in s.live;
  }
}
