/**
 * Restoration after a crash (code/runtime/restoration.cpp): read the durable stack back and,
 * while more than the root frame remains, run the top frame's recovery entry and pop it.
 */
module Restoration {
  import opened Bytes
  import opened Errors
  import opened StackFrame
  import opened RamStacks
  import opened PersistentStack
  import opened Answer
  import opened Call

  /** The outcome, the recovery entries run in order, and the final RAM stack and region. */
  datatype RestoreState = RestoreState(outcome: Outcome, invoked: seq<Entry>, frames: seq<PositionedFrame>, mem: seq<byte>)

  /** A chained stack whose end lies inside the region. */
  ghost predicate StackFits(memLength: nat, frames: seq<PositionedFrame>)
  {
    frames != [] && Chained(frames) && StackEnd(frames) <= memLength
  }

  lemma PoppedFits(memLength: nat, frames: seq<PositionedFrame>)
    requires StackFits(memLength, frames) && |frames| >= 2
    ensures StackFits(memLength, Popped(frames)) && AnswerSlotFits(memLength, frames)
  {
    ChainedPrefix(frames, |frames| - 1);
    FramesBelowEnd(frames, |frames| - 2);
  }

  function Prefixed(acc: seq<Entry>, s: RestoreState): RestoreState
  {
    RestoreState(s.outcome, acc + s.invoked, s.frames, s.mem)
  }

  /** The recovery loop: stop at the root frame, otherwise run one iteration. */
  function RecoverFrom(mem: seq<byte>, frames: seq<PositionedFrame>, registry: set<seq<byte>>,
                       callees: (Entry, seq<byte>) -> Behaviour): (r: RestoreState)
    requires StackFits(|mem|, frames)
    ensures |r.mem| == |mem|
    decreases |frames|, 1
  {
    if |frames| <= 1 then RestoreState(Done, [], frames, mem)
    else RecoverAbove(mem, frames, registry, callees)
  }

  /** One iteration above the root: the top frame's recovery entry answers into its caller's slot, then the top is popped. */
  function RecoverAbove(mem: seq<byte>, frames: seq<PositionedFrame>, registry: set<seq<byte>>,
                        callees: (Entry, seq<byte>) -> Behaviour): (r: RestoreState)
    requires StackFits(|mem|, frames) && |frames| >= 2
    ensures |r.mem| == |mem|
    decreases |frames|, 0
  {
    var top := Last(frames).frame;
    if top.functionName !in registry then RestoreState(Failed(UnknownFunction), [], frames, mem)
    else
      var entry := Entry(top.functionName, true);
      PoppedFits(|mem|, frames);
      match callees(entry, top.args)
      case Crashes => RestoreState(Crashed, [entry], frames, mem)
      case Returns(answer) =>
        var written := if answer.Some? then WriteAnswerImage(mem, frames, answer.value) else Ok(mem);
        if written.Err? then RestoreState(Failed(written.error), [entry], frames, mem)
        else Prefixed([entry], RecoverFrom(PopImage(written.value, frames), Popped(frames), registry, callees))
  }

  /** `do_restoration` as a function of the region and the thread's RAM stack beforehand. */
  function RestoreSpec(mem: seq<byte>, frames: seq<PositionedFrame>, mode: Mode, registry: set<seq<byte>>,
                       callees: (Entry, seq<byte>) -> Behaviour): RestoreState
  {
    if mode != Recovery then RestoreState(Failed(NotInRecoveryMode), [], frames, mem)
    else match ParseStack(mem)
      case None => RestoreState(Failed(CorruptedStack), [], frames, mem)
      case Some(fs) =>
        ParsedIsLaid(mem, 0, fs);
        FramesBelowEnd(fs, |fs| - 1);
        RecoverFrom(mem, fs, registry, callees)
  }

  /** `do_restoration`, with the thread's RAM stack being the one the loop pops. */
  method DoRestoration(stack: RamStack, mem: array<byte>, mode: Mode, registry: set<seq<byte>>,
                       callees: (Entry, seq<byte>) -> Behaviour) returns (r: Outcome, invoked: seq<Entry>)
    modifies stack, mem
    ensures RestoreState(r, invoked, stack.frames, mem[..]) == RestoreSpec(old(mem[..]), old(stack.frames), mode, registry, callees)
  {
    if mode != Recovery {
      return Failed(NotInRecoveryMode), [];
    }
    var read := ReadStack(mem);
    if read.None? {
      return Failed(CorruptedStack), [];
    }
    ParsedIsLaid(mem[..], 0, read.value);
    FramesBelowEnd(read.value, |read.value| - 1);
    stack.SetFrames(read.value);
    r, invoked := RecoverLoop(stack, mem, registry, callees);
  }

  /** The loop of `do_restoration`: recover and pop the top frame until only the root frame is left. */
  method RecoverLoop(stack: RamStack, mem: array<byte>, registry: set<seq<byte>>,
                     callees: (Entry, seq<byte>) -> Behaviour) returns (r: Outcome, invoked: seq<Entry>)
    requires StackFits(mem.Length, stack.frames)
    modifies stack, mem
    ensures RestoreState(r, invoked, stack.frames, mem[..]) == RecoverFrom(old(mem[..]), old(stack.frames), registry, callees)
  {
    ghost var target := RecoverFrom(mem[..], stack.frames, registry, callees);
    invoked := [];
    assert target == Prefixed(invoked, target);
    while |stack.frames| > 1
      invariant StackFits(mem.Length, stack.frames)
      invariant target == Prefixed(invoked, RecoverFrom(mem[..], stack.frames, registry, callees))
      decreases |stack.frames|
    {
      var ran;
      ghost var before := invoked;
      r, ran := RecoverTop(stack, mem, registry, callees);
      invoked := invoked + ran;
      if r != Done {
        return r, invoked;
      }
      ghost var rest := RecoverFrom(mem[..], stack.frames, registry, callees);
      assert before + (ran + rest.invoked) == invoked + rest.invoked;
    }
    return Done, invoked;
  }

  /**
   * One iteration of the loop: look up the top frame's recovery entry, run it, write its answer
   * if it returned one, and pop its frame. `ran` is the entry run, if the lookup succeeded.
   */
  method RecoverTop(stack: RamStack, mem: array<byte>, registry: set<seq<byte>>, callees: (Entry, seq<byte>) -> Behaviour)
    returns (r: Outcome, ran: seq<Entry>)
    requires StackFits(mem.Length, stack.frames) && |stack.frames| >= 2
    modifies stack, mem
    ensures r == Done ==> stack.frames == Popped(old(stack.frames))
    ensures StackFits(mem.Length, stack.frames)
    ensures RecoverFrom(old(mem[..]), old(stack.frames), registry, callees)
         == if r == Done then Prefixed(ran, RecoverFrom(mem[..], stack.frames, registry, callees))
            else RestoreState(r, ran, stack.frames, mem[..])
  {
    RecoverFromStep(mem[..], stack.frames, registry, callees);
    var top := Last(stack.frames).frame;
    if top.functionName !in registry {
      return Failed(UnknownFunction), [];
    }
    var entry := Entry(top.functionName, true);
    ran := [entry];
    var behaviour := callees(entry, top.args);
    if behaviour.Crashes? {
      return Crashed, ran;
    }
    if behaviour.answer.Some? {
      r := WriteAnswer(stack, mem, behaviour.answer.value);
      if r.Failed? {
        return r, ran;
      }
    }
    r := RemoveFrame(stack, mem);
  }

  // ---------------------------------------------------------------------------
  // Properties of restoration
  // ---------------------------------------------------------------------------

  /** The recovery entries of the frames above the root, innermost first. */
  function RecoveryOrder(frames: seq<PositionedFrame>): (r: seq<Entry>)
    ensures |frames| >= 1 ==> |r| == |frames| - 1
  {
    if |frames| <= 1 then [] else [Entry(Last(frames).frame.functionName, true)] + RecoveryOrder(Popped(frames))
  }

  /** The `i`-th recovery that runs is that of frame `n - 1 - i`; the root (frame 0) is never recovered. */
  lemma {:induction false} RecoveryOrderIndexes(frames: seq<PositionedFrame>, i: nat)
    requires i < |frames| - 1
    ensures RecoveryOrder(frames)[i] == Entry(frames[|frames| - 1 - i].frame.functionName, true)
    decreases |frames|
  {
    if i > 0 {
      RecoveryOrderIndexes(Popped(frames), i - 1);
    }
  }

  /**
   * A restoration that completes has run every non-root frame's recovery entry innermost first,
   * and leaves only the root frame, both in the RAM stack and in the region.
   */
  lemma {:induction false} CompletedRecoveryRunsAll(mem: seq<byte>, frames: seq<PositionedFrame>, registry: set<seq<byte>>,
                                                    callees: (Entry, seq<byte>) -> Behaviour)
    requires Mirrors(mem, frames)
    requires StackFits(|mem|, frames)
    requires RecoverFrom(mem, frames, registry, callees).outcome == Done
    ensures var s := RecoverFrom(mem, frames, registry, callees);
      s.invoked == RecoveryOrder(frames) && s.frames == [frames[0]] && ParseStack(s.mem) == Some([frames[0]])
    decreases |frames|
  {
    if |frames| <= 1 {
      assert frames == [frames[0]];
      ParseStackIffMirrors(mem, frames);
    } else {
      var step := StepImage(mem, frames, callees);
      RecoverFromStep(mem, frames, registry, callees);
      RecoveryStepKeepsMirror(mem, frames, callees);
      CompletedRecoveryRunsAll(step, Popped(frames), registry, callees);
      assert Popped(frames)[0] == frames[0];
    }
  }

  /** The region after the top frame's recovery entry returned and its frame was popped. */
  function StepImage(mem: seq<byte>, frames: seq<PositionedFrame>, callees: (Entry, seq<byte>) -> Behaviour): (r: seq<byte>)
    requires StackFits(|mem|, frames) && |frames| >= 2
    ensures |r| == |mem|
  {
    PoppedFits(|mem|, frames);
    var top := Last(frames).frame;
    var b := callees(Entry(top.functionName, true), top.args);
    var answer := if b.Returns? then b.answer else None;
    var written := if answer.Some? && ValidAnswerSize(|answer.value|) then WriteAnswerImage(mem, frames, answer.value).value else mem;
    PopImage(written, frames)
  }

  /** The step image when the top frame's recovery entry returned `answer`. */
  lemma StepImageOf(mem: seq<byte>, frames: seq<PositionedFrame>, callees: (Entry, seq<byte>) -> Behaviour, answer: Option<seq<byte>>)
    requires StackFits(|mem|, frames) && |frames| >= 2
    requires callees(Entry(Last(frames).frame.functionName, true), Last(frames).frame.args) == Returns(answer)
    requires answer.Some? ==> ValidAnswerSize(|answer.value|)
    ensures AnswerSlotFits(|mem|, frames) && StackEnd(Popped(frames)) <= |mem|
    ensures var w := if answer.Some? then WriteAnswerImage(mem, frames, answer.value).value else mem;
      |w| == |mem| && StepImage(mem, frames, callees) == PopImage(w, frames)
  {
    PoppedFits(|mem|, frames);
  }

  lemma RecoveryStepKeepsMirror(mem: seq<byte>, frames: seq<PositionedFrame>, callees: (Entry, seq<byte>) -> Behaviour)
    requires Mirrors(mem, frames) && StackFits(|mem|, frames) && |frames| >= 2
    ensures StackFits(|mem|, Popped(frames)) && Mirrors(StepImage(mem, frames, callees), Popped(frames))
    ensures |StepImage(mem, frames, callees)| == |mem|
  {
    PoppedFits(|mem|, frames);
    var top := Last(frames).frame;
    var b := callees(Entry(top.functionName, true), top.args);
    var answer := if b.Returns? then b.answer else None;
    var written := if answer.Some? && ValidAnswerSize(|answer.value|) then WriteAnswerImage(mem, frames, answer.value).value else mem;
    if answer.Some? && ValidAnswerSize(|answer.value|) {
      WriteAnswerKeepsMirror(mem, frames, answer.value);
    }
    PopMirrors(written, frames);
  }

  /** One loop iteration whose recovery entry returned: the rest of the loop continues from the popped stack. */
  lemma RecoverFromUnfolds(mem: seq<byte>, frames: seq<PositionedFrame>, registry: set<seq<byte>>,
                           callees: (Entry, seq<byte>) -> Behaviour)
    requires StackFits(|mem|, frames) && |frames| >= 2
    requires Last(frames).frame.functionName in registry
    requires callees(Entry(Last(frames).frame.functionName, true), Last(frames).frame.args).Returns?
    requires var a := callees(Entry(Last(frames).frame.functionName, true), Last(frames).frame.args).answer; a.Some? ==> ValidAnswerSize(|a.value|)
    ensures StackFits(|mem|, Popped(frames))
    ensures RecoverFrom(mem, frames, registry, callees)
         == Prefixed([Entry(Last(frames).frame.functionName, true)], RecoverFrom(StepImage(mem, frames, callees), Popped(frames), registry, callees))
  {
    PoppedFits(|mem|, frames);
  }

  /** The four ways one iteration of the loop can go, above the root frame. */
  lemma RecoverFromStep(mem: seq<byte>, frames: seq<PositionedFrame>, registry: set<seq<byte>>,
                        callees: (Entry, seq<byte>) -> Behaviour)
    requires StackFits(|mem|, frames) && |frames| >= 2
    ensures StackFits(|mem|, Popped(frames))
    ensures var top := Last(frames).frame; var entry := Entry(top.functionName, true);
      var b, s := callees(entry, top.args), RecoverFrom(mem, frames, registry, callees);
      (top.functionName !in registry ==> s == RestoreState(Failed(UnknownFunction), [], frames, mem)) &&
      (top.functionName in registry && b.Crashes? ==> s == RestoreState(Crashed, [entry], frames, mem)) &&
      (top.functionName in registry && b.Returns? && b.answer.Some? && !ValidAnswerSize(|b.answer.value|) ==>
         s == RestoreState(Failed(AnswerSizeInvalid), [entry], frames, mem)) &&
      (top.functionName in registry && b.Returns? && (b.answer.Some? ==> ValidAnswerSize(|b.answer.value|)) ==>
         s == Prefixed([entry], RecoverFrom(StepImage(mem, frames, callees), Popped(frames), registry, callees)))
  {
    PoppedFits(|mem|, frames);
    var top := Last(frames).frame;
    var b := callees(Entry(top.functionName, true), top.args);
    if top.functionName in registry && b.Returns? && (b.answer.Some? ==> ValidAnswerSize(|b.answer.value|)) {
      RecoverFromUnfolds(mem, frames, registry, callees);
    }
  }

  /** Whatever the outcome, the region the loop leaves mirrors the RAM stack it leaves. */
  lemma {:induction false} RecoveryKeepsMirror(mem: seq<byte>, frames: seq<PositionedFrame>, registry: set<seq<byte>>,
                                               callees: (Entry, seq<byte>) -> Behaviour)
    requires Mirrors(mem, frames) && StackFits(|mem|, frames)
    ensures var s := RecoverFrom(mem, frames, registry, callees); Mirrors(s.mem, s.frames)
    decreases |frames|
  {
    if |frames| >= 2 && Last(frames).frame.functionName in registry {
      var top := Last(frames).frame;
      var b := callees(Entry(top.functionName, true), top.args);
      if b.Returns? && (b.answer.Some? ==> ValidAnswerSize(|b.answer.value|)) {
        RecoveryStepKeepsMirror(mem, frames, callees);
        RecoverFromUnfolds(mem, frames, registry, callees);
        RecoveryKeepsMirror(StepImage(mem, frames, callees), Popped(frames), registry, callees);
      }
    }
  }

  /**
   * A crash during restoration leaves a prefix of the stack with at least two frames: the crashed
   * frame is still on top, and the recoveries run so far are those of the frames above it and of it.
   */
  lemma {:induction false} CrashedRecoveryShape(mem: seq<byte>, frames: seq<PositionedFrame>, registry: set<seq<byte>>,
                                                callees: (Entry, seq<byte>) -> Behaviour)
    requires StackFits(|mem|, frames)
    requires RecoverFrom(mem, frames, registry, callees).outcome == Crashed
    ensures var s := RecoverFrom(mem, frames, registry, callees);
      2 <= |s.frames| <= |frames| && s.frames == frames[..|s.frames|] &&
      s.invoked == RecoveryOrder(frames)[..|frames| - |s.frames| + 1]
    decreases |frames|
  {
    var top := Last(frames).frame;
    var entry := Entry(top.functionName, true);
    RecoverFromStep(mem, frames, registry, callees);
    if callees(entry, top.args).Crashes? {
      assert frames[..|frames|] == frames;
    } else {
      CrashedRecoveryShape(StepImage(mem, frames, callees), Popped(frames), registry, callees);
      var s := RecoverFrom(StepImage(mem, frames, callees), Popped(frames), registry, callees);
      ShapeExtends(frames, s.frames, s.invoked);
    }
  }

  /** The shape of a crash deeper in the loop, seen from one frame further up. */
  lemma ShapeExtends(frames: seq<PositionedFrame>, left: seq<PositionedFrame>, invoked: seq<Entry>)
    requires |frames| >= 2 && 2 <= |left| <= |Popped(frames)| && left == Popped(frames)[..|left|]
    requires invoked == RecoveryOrder(Popped(frames))[..|frames| - 1 - |left| + 1]
    ensures left == frames[..|left|]
    ensures [Entry(Last(frames).frame.functionName, true)] + invoked == RecoveryOrder(frames)[..|frames| - |left| + 1]
  {
    var entry := Entry(Last(frames).frame.functionName, true);
    assert Popped(frames)[..|left|] == frames[..|left|];
    assert RecoveryOrder(frames) == [entry] + RecoveryOrder(Popped(frames));
  }

  /** Above the root, the loop starts with the top frame's recovery entry once the top is registered. */
  lemma LoopStartsAtTop(mem: seq<byte>, frames: seq<PositionedFrame>, registry: set<seq<byte>>,
                        callees: (Entry, seq<byte>) -> Behaviour)
    requires StackFits(|mem|, frames) && |frames| >= 2 && Last(frames).frame.functionName in registry
    ensures var s := RecoverFrom(mem, frames, registry, callees);
      s.invoked != [] && s.invoked[0] == Entry(Last(frames).frame.functionName, true)
  {
    RecoverFromStep(mem, frames, registry, callees);
  }

  /**
   * After a crash during restoration the region reads back as exactly the stack the loop had left:
   * every frame above the crashed one was durably removed, so the loop run again on that stack
   * starts with the crashed frame's recovery and never re-runs the recoveries that returned.
   */
  lemma CrashedRecoveryResumes(mem: seq<byte>, frames: seq<PositionedFrame>, registry: set<seq<byte>>,
                               callees: (Entry, seq<byte>) -> Behaviour)
    requires Mirrors(mem, frames) && StackFits(|mem|, frames)
    requires RecoverFrom(mem, frames, registry, callees).outcome == Crashed
    ensures var s := RecoverFrom(mem, frames, registry, callees);
      2 <= |s.frames| <= |frames| && s.frames == frames[..|s.frames|] &&
      ParseStack(s.mem) == Some(s.frames) &&
      s.invoked == RecoveryOrder(frames)[..|frames| - |s.frames| + 1] &&
      var again := RecoverFrom(s.mem, s.frames, registry, callees);
      again.invoked != [] && again.invoked[0] == s.invoked[|s.invoked| - 1]
  {
    CrashedRecoveryShape(mem, frames, registry, callees);
    RecoveryKeepsMirror(mem, frames, registry, callees);
    InvokedRegistered(mem, frames, registry, callees);
    var s := RecoverFrom(mem, frames, registry, callees);
    ParseStackIffMirrors(s.mem, s.frames);
    MirrorsFit(s.mem, s.frames);
    var k := |frames| - |s.frames|;
    RecoveryOrderIndexes(frames, k);
    assert s.invoked[|s.invoked| - 1] == RecoveryOrder(frames)[k];
    assert Last(s.frames) == frames[|frames| - 1 - k];
    LoopStartsAtTop(s.mem, s.frames, registry, callees);
  }

  /** Only registered functions' recovery entries are ever run. */
  lemma {:induction false} InvokedRegistered(mem: seq<byte>, frames: seq<PositionedFrame>, registry: set<seq<byte>>,
                                             callees: (Entry, seq<byte>) -> Behaviour)
    requires StackFits(|mem|, frames)
    ensures var s := RecoverFrom(mem, frames, registry, callees);
      forall i :: 0 <= i < |s.invoked| ==> s.invoked[i].name in registry && s.invoked[i].recovery
    decreases |frames|
  {
    if |frames| >= 2 && Last(frames).frame.functionName in registry {
      var top := Last(frames).frame;
      var b := callees(Entry(top.functionName, true), top.args);
      if b.Returns? && (b.answer.Some? ==> ValidAnswerSize(|b.answer.value|)) {
        RecoverFromStep(mem, frames, registry, callees);
        InvokedRegistered(StepImage(mem, frames, callees), Popped(frames), registry, callees);
      }
    }
  }

  /**
   * `do_restoration` on a region holding stack `fs`: when it completes, every non-root frame's
   * recovery entry ran innermost first, and only the root frame is left, durably and in RAM.
   */
  lemma RestorationCompletes(mem: seq<byte>, frames: seq<PositionedFrame>, registry: set<seq<byte>>,
                             callees: (Entry, seq<byte>) -> Behaviour, fs: seq<PositionedFrame>)
    requires ParseStack(mem) == Some(fs)
    requires RestoreSpec(mem, frames, Recovery, registry, callees).outcome == Done
    ensures var s := RestoreSpec(mem, frames, Recovery, registry, callees);
      s.invoked == RecoveryOrder(fs) && s.frames == [fs[0]] && ParseStack(s.mem) == Some([fs[0]])
  {
    ParseStackIffMirrors(mem, fs);
    MirrorsFit(mem, fs);
    CompletedRecoveryRunsAll(mem, fs, registry, callees);
  }

  /** In recovery mode, over a region holding stack `fs`, restoration is the loop run on `fs`. */
  lemma RestoreSpecOf(mem: seq<byte>, frames: seq<PositionedFrame>, registry: set<seq<byte>>,
                      callees: (Entry, seq<byte>) -> Behaviour, fs: seq<PositionedFrame>)
    requires ParseStack(mem) == Some(fs)
    ensures Mirrors(mem, fs) && StackFits(|mem|, fs) && AnswerSlotFits(|mem|, fs)
    ensures RestoreSpec(mem, frames, Recovery, registry, callees) == RecoverFrom(mem, fs, registry, callees)
  {
    ParseStackIffMirrors(mem, fs);
    MirrorsFit(mem, fs);
  }

  /** A restoration over a region holding at least two frames starts with the top frame's recovery. */
  lemma RestorationStartsAtTop(mem: seq<byte>, frames: seq<PositionedFrame>, registry: set<seq<byte>>,
                               callees: (Entry, seq<byte>) -> Behaviour, fs: seq<PositionedFrame>)
    requires ParseStack(mem) == Some(fs) && |fs| >= 2 && Last(fs).frame.functionName in registry
    ensures var s := RestoreSpec(mem, frames, Recovery, registry, callees);
      s.invoked != [] && s.invoked[0] == Entry(Last(fs).frame.functionName, true)
  {
    RestoreSpecOf(mem, frames, registry, callees, fs);
    LoopStartsAtTop(mem, fs, registry, callees);
  }

  /**
   * A crash inside `do_restoration` is survivable: the next `do_restoration` reads back the stack
   * the crashed run left and starts by running the crashed frame's recovery entry again.
   */
  lemma RestorationResumesAfterCrash(mem: seq<byte>, frames: seq<PositionedFrame>, registry: set<seq<byte>>,
                                     callees: (Entry, seq<byte>) -> Behaviour, fs: seq<PositionedFrame>)
    requires ParseStack(mem) == Some(fs)
    requires RestoreSpec(mem, frames, Recovery, registry, callees).outcome == Crashed
    ensures var s := RestoreSpec(mem, frames, Recovery, registry, callees);
      2 <= |s.frames| <= |fs| && s.frames == fs[..|s.frames|] && ParseStack(s.mem) == Some(s.frames) &&
      s.invoked == RecoveryOrder(fs)[..|fs| - |s.frames| + 1] &&
      var again := RestoreSpec(s.mem, s.frames, Recovery, registry, callees);
      again.invoked != [] && again.invoked[0] == s.invoked[|s.invoked| - 1]
  {
    RestoreSpecOf(mem, frames, registry, callees, fs);
    CrashedRecoveryResumes(mem, fs, registry, callees);
    var s := RecoverFrom(mem, fs, registry, callees);
    RestoreSpecOf(s.mem, s.frames, registry, callees, s.frames);
  }

  // ---------------------------------------------------------------------------
  // The loop as written: recovery entries see a copy of the stack taken before the loop
  // ---------------------------------------------------------------------------

  /**
   * `do_restoration` installs a copy of its working stack as the thread's RAM stack and then pops
   * only the working stack, so a recovery entry's `write_answer` always targets the slot of the
   * copy's second-to-last frame, whichever frame is being recovered.
   */
  function RecoverFromAsWritten(mem: seq<byte>, frames: seq<PositionedFrame>, copy: seq<PositionedFrame>,
                                registry: set<seq<byte>>, callees: (Entry, seq<byte>) -> Behaviour): (r: RestoreState)
    requires StackFits(|mem|, frames) && StackFits(|mem|, copy) && AnswerSlotFits(|mem|, copy)
    ensures |r.mem| == |mem|
    decreases |frames|
  {
    if |frames| <= 1 then RestoreState(Done, [], frames, mem)
    else
      var top := Last(frames).frame;
      if top.functionName !in registry then RestoreState(Failed(UnknownFunction), [], frames, mem)
      else
        var entry := Entry(top.functionName, true);
        PoppedFits(|mem|, frames);
        match callees(entry, top.args)
        case Crashes => RestoreState(Crashed, [entry], frames, mem)
        case Returns(answer) =>
          var written := if answer.Some? then WriteAnswerImage(mem, copy, answer.value) else Ok(mem);
          if written.Err? then RestoreState(Failed(written.error), [entry], frames, mem)
          else Prefixed([entry], RecoverFromAsWritten(PopImage(written.value, frames), Popped(frames), copy, registry, callees))
  }

  /** A mirrored stack fits the region. */
  lemma MirrorsFit(mem: seq<byte>, frames: seq<PositionedFrame>)
    requires Mirrors(mem, frames)
    ensures StackFits(|mem|, frames) && AnswerSlotFits(|mem|, frames)
  {
    assert FrameAt(mem, Last(frames).position, Last(frames).frame);
    if |frames| >= 2 {
      PoppedFits(|mem|, frames);
    }
  }

  /**
   * Stack root -> A -> B, where B's recovery returns no answer and A's recovery answers [1].
   * A's answer belongs in the root frame's slot. As written it lands in A's own slot, and the
   * root reads back whatever was there before; with the thread's stack popped alongside the
   * working stack (`RecoverFrom`), the root reads [1].
   */
  ghost predicate MisplacedAnswerScenario(mem: seq<byte>, frames: seq<PositionedFrame>, registry: set<seq<byte>>,
                                          callees: (Entry, seq<byte>) -> Behaviour)
  {
    |frames| == 3 && StackFits(|mem|, frames) && AnswerSlotFits(|mem|, frames) &&
    frames[1].frame.functionName in registry && frames[2].frame.functionName in registry &&
    callees(Entry(frames[2].frame.functionName, true), frames[2].frame.args) == Returns(None) &&
    callees(Entry(frames[1].frame.functionName, true), frames[1].frame.args) == Returns(Some([1]))
  }

  lemma ScenarioGeometry(mem: seq<byte>, frames: seq<PositionedFrame>, registry: set<seq<byte>>,
                         callees: (Entry, seq<byte>) -> Behaviour)
    requires MisplacedAnswerScenario(mem, frames, registry, callees)
    ensures StackFits(|mem|, frames[..2]) && AnswerSlotFits(|mem|, frames[..2])
    ensures Popped(frames) == frames[..2] && Popped(frames[..2]) == [frames[0]]
    ensures AnswerPosition(frames[..2]) == frames[0].position
    ensures frames[0].position + 12 <= StackEnd([frames[0]]) - 1 < AnswerPosition(frames) <= StackEnd(frames[..2]) - 1
  {
    PoppedFits(|mem|, frames);
    assert Popped(frames) == frames[..2];
    PoppedFits(|mem|, frames[..2]);
    assert Chained(frames);
    assert frames[1].position == NextPosition(frames[0]);
  }

  /** One iteration of the as-written loop whose recovery entry returned `answer`. */
  lemma AsWrittenUnfolds(mem: seq<byte>, frames: seq<PositionedFrame>, copy: seq<PositionedFrame>, registry: set<seq<byte>>,
                         callees: (Entry, seq<byte>) -> Behaviour, answer: Option<seq<byte>>)
    requires StackFits(|mem|, frames) && StackFits(|mem|, copy) && AnswerSlotFits(|mem|, copy)
    requires |frames| >= 2 && |copy| >= 2 && Last(frames).frame.functionName in registry
    requires callees(Entry(Last(frames).frame.functionName, true), Last(frames).frame.args) == Returns(answer)
    requires answer.Some? ==> ValidAnswerSize(|answer.value|)
    ensures StackFits(|mem|, Popped(frames))
    ensures var w := if answer.Some? then WriteAnswerImage(mem, copy, answer.value).value else mem;
      |w| == |mem| && StackEnd(Popped(frames)) <= |w| &&
      RecoverFromAsWritten(mem, frames, copy, registry, callees)
        == Prefixed([Entry(Last(frames).frame.functionName, true)],
                    RecoverFromAsWritten(PopImage(w, frames), Popped(frames), copy, registry, callees))
  {
    PoppedFits(|mem|, frames);
  }

  lemma {:induction false} AsWrittenLeavesRootSlot(mem: seq<byte>, frames: seq<PositionedFrame>, registry: set<seq<byte>>,
                                                   callees: (Entry, seq<byte>) -> Behaviour)
    requires MisplacedAnswerScenario(mem, frames, registry, callees)
    ensures var s := RecoverFromAsWritten(mem, frames, frames, registry, callees);
      var root := frames[0].position;
      s.outcome == Done && s.mem[root] == mem[root] && ReadAnswer(s.mem, [frames[0]], 1) == Ok([mem[root]])
  {
    ScenarioGeometry(mem, frames, registry, callees);
    var ra := frames[..2];
    AsWrittenUnfolds(mem, frames, frames, registry, callees, None);
    var m1 := PopImage(mem, frames);
    AsWrittenUnfolds(m1, ra, frames, registry, callees, Some([1]));
    var w := WriteAnswerImage(m1, frames, [1]).value;
    var m2 := PopImage(w, ra);
    var root := frames[0].position;
    assert m2[root] == w[root] == m1[root] == mem[root];
    assert RecoverFromAsWritten(m2, [frames[0]], frames, registry, callees) == RestoreState(Done, [], [frames[0]], m2);
    var s := RecoverFromAsWritten(mem, frames, frames, registry, callees);
    assert s.outcome == Done && s.mem == m2;
    OneByteSlice(m2, root);
  }

  lemma {:induction false} CorrectedAnswersRoot(mem: seq<byte>, frames: seq<PositionedFrame>, registry: set<seq<byte>>,
                                                callees: (Entry, seq<byte>) -> Behaviour)
    requires MisplacedAnswerScenario(mem, frames, registry, callees)
    ensures var s := RecoverFrom(mem, frames, registry, callees);
      s.outcome == Done && s.frames == [frames[0]] && ReadAnswer(s.mem, [frames[0]], 1) == Ok([1])
  {
    ScenarioGeometry(mem, frames, registry, callees);
    var ra := frames[..2];
    RecoverFromUnfolds(mem, frames, registry, callees);
    StepImageOf(mem, frames, callees, None);
    var m1 := StepImage(mem, frames, callees);
    assert Last(ra) == frames[1];
    RecoverFromUnfolds(m1, ra, registry, callees);
    StepImageOf(m1, ra, callees, Some([1]));
    var w := WriteAnswerImage(m1, ra, [1]).value;
    var m2 := StepImage(m1, ra, callees);
    var root := frames[0].position;
    assert m2[root] == w[root] == 1;
    assert RecoverFrom(m2, [frames[0]], registry, callees) == RestoreState(Done, [], [frames[0]], m2);
    var s := RecoverFrom(mem, frames, registry, callees);
    assert s.outcome == Done && s.mem == m2 && s.frames == [frames[0]];
    OneByteSlice(m2, root);
  }

  /** The two side by side: when the root's slot did not already hold 1, the copy loses A's answer. */
  lemma CopiedStackMisplacesAnswer(mem: seq<byte>, frames: seq<PositionedFrame>, registry: set<seq<byte>>,
                                   callees: (Entry, seq<byte>) -> Behaviour)
    requires MisplacedAnswerScenario(mem, frames, registry, callees) && mem[frames[0].position] != 1
    ensures ReadAnswer(RecoverFromAsWritten(mem, frames, frames, registry, callees).mem, [frames[0]], 1)
         != ReadAnswer(RecoverFrom(mem, frames, registry, callees).mem, [frames[0]], 1)
  {
    AsWrittenLeavesRootSlot(mem, frames, registry, callees);
    CorrectedAnswersRoot(mem, frames, registry, callees);
  }
}
