/**
 * The call engine (code/runtime/call.cpp): pre-seed the caller's answer slot, push the callee's
 * frame, pick the normal or recovery entry point from the registry, run it, pop its frame.
 * User functions are abstract: each entry point, given its arguments, either returns (having
 * possibly written an answer with `write_answer`) or crashes.
 */
module Call {
  import opened Bytes
  import opened Errors
  import opened StackFrame
  import opened RamStacks
  import opened PersistentStack
  import opened Answer

  datatype Mode = Execution | Recovery

  /** One of the two entry points registered under a name: the normal one or the recovery one. */
  datatype Entry = Entry(name: seq<byte>, recovery: bool)

  /** What a user function does, as far as the runtime can observe. */
  datatype Behaviour = Returns(answer: Option<seq<byte>>) | Crashes

  /** The outcome, the entry point that ran (if any), and the new RAM stack and region. */
  datatype CallState = CallState(outcome: Outcome, invoked: Option<Entry>, frames: seq<PositionedFrame>, mem: seq<byte>)

  /** The callee's frame and the answer filler fit in the region (an overflow is undefined in the source). */
  predicate CallFits(memLength: nat, frames: seq<PositionedFrame>, f: Frame, ansFiller: Option<seq<byte>>)
  {
    Encodable(f) && PushFits(memLength, frames, f) && (ansFiller.Some? ==> frames != [])
  }

  /** The region after `ans_filler` is copied into the current top frame's answer slot. */
  function SeedAnswer(mem: seq<byte>, frames: seq<PositionedFrame>, ansFiller: Option<seq<byte>>): (r: seq<byte>)
    requires ValidFiller(ansFiller) && (ansFiller.Some? ==> frames != [] && StackEnd(frames) <= |mem|)
    ensures |r| == |mem|
  {
    if ansFiller.Some? then Write(mem, Last(frames).position, ansFiller.value) else mem
  }

  /** The region the callee runs on: seeded caller slot, then the callee's frame pushed. */
  function CalleeView(mem: seq<byte>, frames: seq<PositionedFrame>, f: Frame, ansFiller: Option<seq<byte>>, newAnsFiller: Option<seq<byte>>): seq<byte>
    requires CallFits(|mem|, frames, f, ansFiller) && ValidFiller(ansFiller) && ValidFiller(newAnsFiller)
  {
    PushImage(SeedAnswer(mem, frames, ansFiller), frames, f, newAnsFiller)
  }

  function Pushed(frames: seq<PositionedFrame>, f: Frame): seq<PositionedFrame>
  {
    frames + [PositionedFrame(f, PushPosition(frames))]
  }

  /** The pushed stack pops back to the old one, and its caller's answer slot lies in the region. */
  lemma PushedShape(memLength: nat, frames: seq<PositionedFrame>, f: Frame)
    requires PushFits(memLength, frames, f)
    ensures var p := Pushed(frames, f);
      |p| == |frames| + 1 && Popped(p) == frames && Last(p) == PositionedFrame(f, PushPosition(frames)) &&
      StackEnd(frames) <= memLength && AnswerSlotFits(memLength, p)
  {
    var p := Pushed(frames, f);
    assert p[..|p| - 1] == frames;
    if |frames| >= 1 {
      assert AnswerPosition(p) == Last(frames).position;
    }
  }

  /** `do_call`, step by step, as a function of the state before the call. */
  function DoCallSpec(mem: seq<byte>, frames: seq<PositionedFrame>, mode: Mode, registry: set<seq<byte>>,
                      callees: (Entry, seq<byte>) -> Behaviour, name: seq<byte>, args: seq<byte>,
                      ansFiller: Option<seq<byte>>, newAnsFiller: Option<seq<byte>>, callRecover: bool): CallState
    requires CallFits(|mem|, frames, Frame(name, args), ansFiller)
  {
    var f := Frame(name, args);
    if !ValidFiller(ansFiller) then CallState(Failed(AnswerSizeInvalid), None, frames, mem)
    else if !ValidFiller(newAnsFiller) then CallState(Failed(AnswerSizeInvalid), None, Pushed(frames, f), SeedAnswer(mem, frames, ansFiller))
    else DispatchSpec(CalleeView(mem, frames, f, ansFiller, newAnsFiller), frames, mode, registry, callees, name, args, callRecover)
  }

  /** The part of `do_call` after the push: mode check, registry lookup, the callee, the pop. */
  function DispatchSpec(m: seq<byte>, frames: seq<PositionedFrame>, mode: Mode, registry: set<seq<byte>>,
                        callees: (Entry, seq<byte>) -> Behaviour, name: seq<byte>, args: seq<byte>, callRecover: bool): CallState
    requires PushFits(|m|, frames, Frame(name, args))
  {
    var pushed := Pushed(frames, Frame(name, args));
    PushedShape(|m|, frames, Frame(name, args));
    if callRecover && mode != Recovery then CallState(Failed(IllegalRecoveryCall), None, pushed, m)
    else if name !in registry then CallState(Failed(UnknownFunction), None, pushed, m)
    else
      var entry := Entry(name, callRecover);
      match callees(entry, args)
      case Crashes => CallState(Crashed, Some(entry), pushed, m)
      case Returns(answer) =>
        var written := if answer.Some? then WriteAnswerImage(m, pushed, answer.value) else Ok(m);
        if written.Err? then CallState(Failed(written.error), Some(entry), pushed, m)
        else if |pushed| == 1 then CallState(Failed(FirstFrameRemoval), Some(entry), pushed, written.value)
        else CallState(Done, Some(entry), frames, PopImage(written.value, pushed))
  }

  /** A dispatch that completes ran a callee that returned, wrote its answer if it had one, and popped. */
  lemma DispatchDone(m: seq<byte>, frames: seq<PositionedFrame>, mode: Mode, registry: set<seq<byte>>,
                     callees: (Entry, seq<byte>) -> Behaviour, name: seq<byte>, args: seq<byte>, callRecover: bool)
    requires PushFits(|m|, frames, Frame(name, args))
    requires DispatchSpec(m, frames, mode, registry, callees, name, args, callRecover).outcome == Done
    ensures var pushed := Pushed(frames, Frame(name, args));
      var b := callees(Entry(name, callRecover), args);
      |pushed| >= 2 && name in registry && b.Returns? &&
      (b.answer.Some? ==> WriteAnswerImage(m, pushed, b.answer.value).Ok?) &&
      DispatchSpec(m, frames, mode, registry, callees, name, args, callRecover)
        == CallState(Done, Some(Entry(name, callRecover)), frames,
                     PopImage(if b.answer.Some? then WriteAnswerImage(m, pushed, b.answer.value).value else m, pushed))
  {
  }

  /** `do_call`. */
  method DoCall(stack: RamStack, mem: array<byte>, mode: Mode, registry: set<seq<byte>>,
                callees: (Entry, seq<byte>) -> Behaviour, name: seq<byte>, args: seq<byte>,
                ansFiller: Option<seq<byte>>, newAnsFiller: Option<seq<byte>>, callRecover: bool)
    returns (r: Outcome, invoked: Option<Entry>)
    requires CallFits(mem.Length, stack.frames, Frame(name, args), ansFiller)
    modifies stack, mem
    ensures CallState(r, invoked, stack.frames, mem[..])
         == DoCallSpec(old(mem[..]), old(stack.frames), mode, registry, callees, name, args, ansFiller, newAnsFiller, callRecover)
  {
    var f := Frame(name, args);
    ghost var frames := stack.frames;
    if ansFiller.Some? {
      if |ansFiller.value| == 0 || |ansFiller.value| > 8 {
        return Failed(AnswerSizeInvalid), None;
      }
      var lastFrameOffset := Last(stack.frames).position;
      CopyInto(mem, lastFrameOffset, ansFiller.value);
    }
    var pushed := AddNewFrame(stack, f, mem, newAnsFiller);
    if pushed.Failed? {
      return pushed, None;
    }
    r, invoked := Dispatch(stack, mem, frames, mode, registry, callees, name, args, callRecover);
  }

  /** The part of `do_call` after the push. */
  method Dispatch(stack: RamStack, mem: array<byte>, ghost frames: seq<PositionedFrame>, mode: Mode, registry: set<seq<byte>>,
                  callees: (Entry, seq<byte>) -> Behaviour, name: seq<byte>, args: seq<byte>, callRecover: bool)
    returns (r: Outcome, invoked: Option<Entry>)
    requires PushFits(mem.Length, frames, Frame(name, args)) && stack.frames == Pushed(frames, Frame(name, args))
    modifies stack, mem
    ensures CallState(r, invoked, stack.frames, mem[..]) == DispatchSpec(old(mem[..]), frames, mode, registry, callees, name, args, callRecover)
  {
    if callRecover && mode != Recovery {
      return Failed(IllegalRecoveryCall), None;
    }
    if name !in registry {
      return Failed(UnknownFunction), None;
    }
    var entry := Entry(name, callRecover);
    var behaviour := callees(entry, args);
    if behaviour.Crashes? {
      return Crashed, Some(entry);
    }
    if behaviour.answer.Some? {
      var written := WriteAnswer(stack, mem, behaviour.answer.value);
      if written.Failed? {
        return written, Some(entry);
      }
    }
    assert Popped(stack.frames) == frames;
    r := RemoveFrame(stack, mem);
    invoked := Some(entry);
  }

  // ---------------------------------------------------------------------------
  // Properties of do_call
  // ---------------------------------------------------------------------------

  /** An invalid `ans_filler` is refused before the region or the RAM stack is touched. */
  lemma FillerCheckedFirst(mem: seq<byte>, frames: seq<PositionedFrame>, mode: Mode, registry: set<seq<byte>>,
                           callees: (Entry, seq<byte>) -> Behaviour, name: seq<byte>, args: seq<byte>,
                           ansFiller: Option<seq<byte>>, newAnsFiller: Option<seq<byte>>, callRecover: bool)
    requires CallFits(|mem|, frames, Frame(name, args), ansFiller) && !ValidFiller(ansFiller)
    ensures var s := DoCallSpec(mem, frames, mode, registry, callees, name, args, ansFiller, newAnsFiller, callRecover);
      s.outcome == Failed(AnswerSizeInvalid) && s.frames == frames && s.mem == mem && s.invoked == None
  {
  }

  /**
   * A recovery entry is refused outside recovery mode, after the callee's frame has been pushed;
   * the frame stays on the stack. An entry point runs only if its name is registered, it is the
   * entry `call_recover` selects, and recovery entries run only in recovery mode.
   */
  lemma DispatchRules(mem: seq<byte>, frames: seq<PositionedFrame>, mode: Mode, registry: set<seq<byte>>,
                      callees: (Entry, seq<byte>) -> Behaviour, name: seq<byte>, args: seq<byte>,
                      ansFiller: Option<seq<byte>>, newAnsFiller: Option<seq<byte>>, callRecover: bool)
    requires CallFits(|mem|, frames, Frame(name, args), ansFiller)
    ensures var s := DoCallSpec(mem, frames, mode, registry, callees, name, args, ansFiller, newAnsFiller, callRecover);
      (ValidFiller(ansFiller) && ValidFiller(newAnsFiller) && callRecover && mode != Recovery ==>
         s.outcome == Failed(IllegalRecoveryCall) && s.frames == Pushed(frames, Frame(name, args)) && s.invoked == None) &&
      (s.invoked.Some? <==> ValidFiller(ansFiller) && ValidFiller(newAnsFiller) && (callRecover ==> mode == Recovery) && name in registry) &&
      (s.invoked.Some? ==> s.invoked.value == Entry(name, callRecover))
  {
    if ValidFiller(ansFiller) && ValidFiller(newAnsFiller) {
      var m := CalleeView(mem, frames, Frame(name, args), ansFiller, newAnsFiller);
      assert DoCallSpec(mem, frames, mode, registry, callees, name, args, ansFiller, newAnsFiller, callRecover)
          == DispatchSpec(m, frames, mode, registry, callees, name, args, callRecover);
    }
  }

  /** The callee sees its caller's `ans_filler` through `read_current_answer`. */
  lemma FillerSeenByCallee(mem: seq<byte>, frames: seq<PositionedFrame>, f: Frame, filler: seq<byte>, newAnsFiller: Option<seq<byte>>)
    requires CallFits(|mem|, frames, f, Some(filler)) && ValidAnswerSize(|filler|) && ValidFiller(newAnsFiller)
    ensures var fs := Pushed(frames, f);
      AnswerSlotFits(|mem|, fs) &&
      ReadCurrentAnswer(CalleeView(mem, frames, f, Some(filler), newAnsFiller), fs, |filler|) == Ok(filler)
  {
    var fs := Pushed(frames, f);
    var seeded := SeedAnswer(mem, frames, Some(filler));
    var m := CalleeView(mem, frames, f, Some(filler), newAnsFiller);
    var p := Last(frames).position;
    assert AnswerPosition(fs) == p;
    PushKeepsBelowEnd(seeded, frames, f, newAnsFiller);
    SameSlice(m, seeded, p, p + |filler|);
  }

  /** A push changes no byte below the old top's marker byte. */
  lemma PushKeepsBelowEnd(mem: seq<byte>, frames: seq<PositionedFrame>, f: Frame, filler: Option<seq<byte>>)
    requires PushFits(|mem|, frames, f) && ValidFiller(filler)
    ensures var m := PushImage(mem, frames, f, filler);
      |m| == |mem| && forall k :: 0 <= k < StackEnd(frames) - 1 ==> m[k] == mem[k]
  {
  }

  /** Seeding the caller's answer slot leaves the durable stack intact. */
  lemma SeedKeepsMirror(mem: seq<byte>, frames: seq<PositionedFrame>, ansFiller: Option<seq<byte>>)
    requires Mirrors(mem, frames) && ValidFiller(ansFiller) && StackEnd(frames) <= |mem|
    ensures Mirrors(SeedAnswer(mem, frames, ansFiller), frames)
  {
    if ansFiller.Some? {
      var m := SeedAnswer(mem, frames, ansFiller);
      var a := Last(frames).position;
      forall i | 0 <= i < |frames|
        ensures frames[i].position + Size(frames[i].frame) <= a || a + ANSWER_BYTES <= frames[i].position + ANSWER_BYTES
      {
        SlotOutsideFrame(frames, i, |frames| - 1);
      }
      SlotWriteKeepsFrames(mem, m, frames, a, a + |ansFiller.value|);
      forall i | 0 <= i < |frames| - 1 ensures MarkerOffset(Popped(frames)[i]) < |m| && m[MarkerOffset(Popped(frames)[i])] != STACK_END_MARKER {
        assert Popped(frames)[i] == frames[i];
      }
    }
  }

  /** While the callee runs, the region mirrors the RAM stack with the callee's frame on top. */
  lemma CalleeViewMirrors(mem: seq<byte>, frames: seq<PositionedFrame>, f: Frame, ansFiller: Option<seq<byte>>, newAnsFiller: Option<seq<byte>>)
    requires frames == [] || Mirrors(mem, frames)
    requires CallFits(|mem|, frames, f, ansFiller) && ValidFiller(ansFiller) && ValidFiller(newAnsFiller)
    ensures Mirrors(CalleeView(mem, frames, f, ansFiller, newAnsFiller), Pushed(frames, f))
  {
    if frames != [] {
      FramesBelowEnd(frames, |frames| - 1);
      SeedKeepsMirror(mem, frames, ansFiller);
    }
    PushMirrors(SeedAnswer(mem, frames, ansFiller), frames, f, newAnsFiller);
  }

  /**
   * A crash inside the callee leaves a region that reads back as the caller's stack with the
   * callee's frame on top, so restoration will run the callee's recovery entry.
   */
  lemma CrashLeavesCalleeFrame(mem: seq<byte>, frames: seq<PositionedFrame>, mode: Mode, registry: set<seq<byte>>,
                               callees: (Entry, seq<byte>) -> Behaviour, name: seq<byte>, args: seq<byte>,
                               ansFiller: Option<seq<byte>>, newAnsFiller: Option<seq<byte>>, callRecover: bool)
    requires frames == [] || Mirrors(mem, frames)
    requires CallFits(|mem|, frames, Frame(name, args), ansFiller)
    requires DoCallSpec(mem, frames, mode, registry, callees, name, args, ansFiller, newAnsFiller, callRecover).outcome == Crashed
    ensures var s := DoCallSpec(mem, frames, mode, registry, callees, name, args, ansFiller, newAnsFiller, callRecover);
      s.frames == Pushed(frames, Frame(name, args)) && ParseStack(s.mem) == Some(s.frames) &&
      s.invoked == Some(Entry(name, callRecover))
  {
    var f := Frame(name, args);
    assert ValidFiller(ansFiller) && ValidFiller(newAnsFiller);
    var m := CalleeView(mem, frames, f, ansFiller, newAnsFiller);
    assert DoCallSpec(mem, frames, mode, registry, callees, name, args, ansFiller, newAnsFiller, callRecover)
        == DispatchSpec(m, frames, mode, registry, callees, name, args, callRecover);
    assert (callRecover ==> mode == Recovery) && name in registry && callees(Entry(name, callRecover), args).Crashes?;
    assert DispatchSpec(m, frames, mode, registry, callees, name, args, callRecover)
        == CallState(Crashed, Some(Entry(name, callRecover)), Pushed(frames, f), m);
    CalleeViewMirrors(mem, frames, f, ansFiller, newAnsFiller);
    ParseStackIffMirrors(m, Pushed(frames, f));
  }

  /**
   * A call that completes is balanced: the RAM stack is as before, the region still mirrors it,
   * and an answer the callee wrote is what the caller's `read_answer` now returns.
   */
  lemma CompletedCallIsBalanced(mem: seq<byte>, frames: seq<PositionedFrame>, mode: Mode, registry: set<seq<byte>>,
                                callees: (Entry, seq<byte>) -> Behaviour, name: seq<byte>, args: seq<byte>,
                                ansFiller: Option<seq<byte>>, newAnsFiller: Option<seq<byte>>, callRecover: bool)
    requires Mirrors(mem, frames)
    requires CallFits(|mem|, frames, Frame(name, args), ansFiller)
    requires DoCallSpec(mem, frames, mode, registry, callees, name, args, ansFiller, newAnsFiller, callRecover).outcome == Done
    ensures var s := DoCallSpec(mem, frames, mode, registry, callees, name, args, ansFiller, newAnsFiller, callRecover);
      s.frames == frames && Mirrors(s.mem, frames) &&
      (callees(Entry(name, callRecover), args).Returns? && callees(Entry(name, callRecover), args).answer.Some? ==>
         var a := callees(Entry(name, callRecover), args).answer.value;
         ReadAnswer(s.mem, frames, |a|) == Ok(a))
  {
    var f := Frame(name, args);
    var pushed := Pushed(frames, f);
    assert ValidFiller(ansFiller) && ValidFiller(newAnsFiller);
    var m := CalleeView(mem, frames, f, ansFiller, newAnsFiller);
    assert DoCallSpec(mem, frames, mode, registry, callees, name, args, ansFiller, newAnsFiller, callRecover)
        == DispatchSpec(m, frames, mode, registry, callees, name, args, callRecover);
    CalleeViewMirrors(mem, frames, f, ansFiller, newAnsFiller);
    DispatchDone(m, frames, mode, registry, callees, name, args, callRecover);
    var answer := callees(Entry(name, callRecover), args).answer;
    var w := if answer.Some? then WriteAnswerImage(m, pushed, answer.value).value else m;
    if answer.Some? {
      WriteAnswerKeepsMirror(m, pushed, answer.value);
      FramesBelowEnd(frames, |frames| - 1);
      AnswerReachesCaller(m, frames, PositionedFrame(f, PushPosition(frames)), answer.value);
    }
    assert Popped(pushed) == frames;
    PopMirrors(w, pushed);
  }
}
