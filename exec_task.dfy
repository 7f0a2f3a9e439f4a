/**
 * The task driver (code/runtime/exec_task.cpp): decode a serialized task, and for a CAS task either
 * reuse the answer a crashed run already left in the frame's answer slot or call "cas" through the
 * runtime, then copy the one-byte answer to the heap.
 */
module ExecTask {
  import opened Bytes
  import opened Errors
  import opened StackFrame
  import opened RamStacks
  import opened PersistentStack
  import opened Answer
  import opened Call

  /** Task type byte selecting a CAS task. */
  const CAS_TASK: byte := 0
  /** Name under which the runtime registers the CAS function: "cas". */
  const CAS_NAME: seq<byte> := [99, 97, 115]
  /** Answer the scheduler seeds into the task frame's slot before running it. */
  const PENDING_ANSWER: byte := 0xFF
  /** Length of a serialized CAS task: type, answer offset, and the 24 bytes of CAS arguments. */
  const CAS_TASK_BYTES: nat := 33

  /** The fields of a CAS task, as the scheduler fills them in. */
  datatype CasTask = CasTask(answerOffset: nat, varOffset: nat, expected: nat, newValue: nat, matrixOffset: nat)

  predicate WellSized(t: CasTask)
  {
    t.answerOffset < Pow256(8) && t.varOffset < Pow256(8) && t.expected < Pow256(4) &&
    t.newValue < Pow256(4) && t.matrixOffset < Pow256(8)
  }

  /** The scheduler's serialization of a CAS task (little-endian fields, 33 bytes). */
  function EncodeCasTask(t: CasTask): (r: seq<byte>)
    ensures |r| == CAS_TASK_BYTES
  {
    [CAS_TASK] + LeEncode(t.answerOffset, 8) + LeEncode(t.varOffset, 8) + LeEncode(t.expected, 4) +
    LeEncode(t.newValue, 4) + LeEncode(t.matrixOffset, 8)
  }

  /** The u64 heap offset of the task's answer byte, `args[1..9)`. */
  function AnswerOffset(args: seq<byte>): nat
    requires |args| >= 9
  {
    LeDecode(args[1..9])
  }

  /** The 24 argument bytes handed to "cas", `args[9..33)`. */
  function CasArgs(args: seq<byte>): (r: seq<byte>)
    requires |args| >= CAS_TASK_BYTES
    ensures |r| == 24
  {
    args[9..33]
  }

  /** The fields the "cas" function reads from its 24 argument bytes. */
  function DecodeCasTask(args: seq<byte>): CasTask
    requires |args| >= CAS_TASK_BYTES
  {
    var c := CasArgs(args);
    CasTask(AnswerOffset(args), LeDecode(c[0..8]), LeDecode(c[8..12]), LeDecode(c[12..16]), LeDecode(c[16..24]))
  }

  /** Decoding the scheduler's serialization gives back the task, and the task type is CAS. */
  lemma DecodeEncodeCasTask(t: CasTask)
    requires WellSized(t)
    ensures var args := EncodeCasTask(t);
      args[0] == CAS_TASK && AnswerOffset(args) == t.answerOffset && DecodeCasTask(args) == t
  {
    var args := EncodeCasTask(t);
    var c := CasArgs(args);
    var e2, e3, e4, e5 := LeEncode(t.varOffset, 8), LeEncode(t.expected, 4), LeEncode(t.newValue, 4), LeEncode(t.matrixOffset, 8);
    assert args == [CAS_TASK] + LeEncode(t.answerOffset, 8) + (e2 + e3 + e4 + e5);
    assert c == e2 + e3 + e4 + e5;
    assert args[1..9] == LeEncode(t.answerOffset, 8);
    assert c[0..8] == LeEncode(t.varOffset, 8);
    assert c[8..12] == LeEncode(t.expected, 4);
    assert c[12..16] == LeEncode(t.newValue, 4);
    assert c[16..24] == LeEncode(t.matrixOffset, 8);
    DecodeEncode(t.answerOffset, 8);
    DecodeEncode(t.varOffset, 8);
    DecodeEncode(t.expected, 4);
    DecodeEncode(t.newValue, 4);
    DecodeEncode(t.matrixOffset, 8);
  }

  /** The outcome, the function the runtime invoked, and the RAM stack, stack region and heap afterwards. */
  datatype TaskState = TaskState(outcome: Outcome, invoked: Option<Entry>, frames: seq<PositionedFrame>,
                                 mem: seq<byte>, heap: seq<byte>)

  /**
   * What `exec_task_common` needs: a task-type byte; for a CAS task all 33 bytes, an answer offset
   * inside the heap, and room for the "cas" frame; the task's own frame on top of a mirrored stack.
   */
  ghost predicate TaskFits(mem: seq<byte>, heapLength: nat, frames: seq<PositionedFrame>, args: seq<byte>)
  {
    |args| >= 1 && Mirrors(mem, frames) &&
    (args[0] == CAS_TASK ==>
       |args| >= CAS_TASK_BYTES && AnswerOffset(args) < heapLength &&
       CallFits(|mem|, frames, Frame(CAS_NAME, CasArgs(args)), None))
  }

  lemma TopSlotFits(mem: seq<byte>, frames: seq<PositionedFrame>)
    requires Mirrors(mem, frames)
    ensures Last(frames).position + ANSWER_BYTES <= |mem|
  {
    assert FrameAt(mem, Last(frames).position, Last(frames).frame);
  }

  /** The byte `read_answer(1)` returns: the first byte of the task frame's own answer slot. */
  function SlotByte(mem: seq<byte>, frames: seq<PositionedFrame>): byte
    requires frames != [] && Last(frames).position + ANSWER_BYTES <= |mem|
  {
    ReadAnswer(mem, frames, 1).value[0]
  }

  /** `exec_task_common`, as a function of the state before the task. */
  function ExecTaskSpec(mem: seq<byte>, frames: seq<PositionedFrame>, heap: seq<byte>, mode: Mode,
                        registry: set<seq<byte>>, callees: (Entry, seq<byte>) -> Behaviour,
                        args: seq<byte>, callRecover: bool): TaskState
    requires TaskFits(mem, |heap|, frames, args)
  {
    if args[0] != CAS_TASK then TaskState(Done, None, frames, mem, heap)
    else CasTaskSpec(mem, frames, heap, AnswerOffset(args), CasArgs(args), mode, registry, callees, callRecover)
  }

  /** The CAS branch: reuse the slot byte in recovery when it is an answer, else run "cas". */
  function CasTaskSpec(mem: seq<byte>, frames: seq<PositionedFrame>, heap: seq<byte>, off: nat, casArgs: seq<byte>,
                       mode: Mode, registry: set<seq<byte>>, callees: (Entry, seq<byte>) -> Behaviour,
                       callRecover: bool): TaskState
    requires Mirrors(mem, frames) && off < |heap| && CallFits(|mem|, frames, Frame(CAS_NAME, casArgs), None)
  {
    TopSlotFits(mem, frames);
    var slot := SlotByte(mem, frames);
    if callRecover && slot != 0 && slot != 1 && slot != PENDING_ANSWER then
      TaskState(Failed(CorruptedAnswer), None, frames, mem, heap)
    else if callRecover && (slot == 0 || slot == 1) then
      TaskState(Done, None, frames, mem, heap[off := slot])
    else RunCasSpec(mem, frames, heap, off, casArgs, mode, registry, callees, callRecover)
  }

  /** `do_call("cas", ...)`, then the callee's answer byte, which must be 0 or 1, copied to the heap. */
  function RunCasSpec(mem: seq<byte>, frames: seq<PositionedFrame>, heap: seq<byte>, off: nat, casArgs: seq<byte>,
                      mode: Mode, registry: set<seq<byte>>, callees: (Entry, seq<byte>) -> Behaviour,
                      callRecover: bool): TaskState
    requires Mirrors(mem, frames) && off < |heap| && CallFits(|mem|, frames, Frame(CAS_NAME, casArgs), None)
  {
    var c := DoCallSpec(mem, frames, mode, registry, callees, CAS_NAME, casArgs, None, None, callRecover);
    if c.outcome != Done then TaskState(c.outcome, c.invoked, c.frames, c.mem, heap)
    else
      CompletedCallIsBalanced(mem, frames, mode, registry, callees, CAS_NAME, casArgs, None, None, callRecover);
      TopSlotFits(c.mem, frames);
      var b := SlotByte(c.mem, frames);
      if b != 0 && b != 1 then TaskState(Failed(CorruptedAnswer), c.invoked, c.frames, c.mem, heap)
      else TaskState(Done, c.invoked, c.frames, c.mem, heap[off := b])
  }

  /** `exec_task_common`: the task frame is on top of `stack`; the heap is a separate region. */
  method ExecTaskCommon(stack: RamStack, mem: array<byte>, heap: array<byte>, mode: Mode, registry: set<seq<byte>>,
                        callees: (Entry, seq<byte>) -> Behaviour, args: seq<byte>, callRecover: bool)
    returns (r: Outcome, invoked: Option<Entry>)
    requires mem != heap && TaskFits(mem[..], heap.Length, stack.frames, args)
    modifies stack, mem, heap
    ensures TaskState(r, invoked, stack.frames, mem[..], heap[..])
         == ExecTaskSpec(old(mem[..]), old(stack.frames), old(heap[..]), mode, registry, callees, args, callRecover)
  {
    var cur := 0;
    var taskType := args[cur];
    cur := cur + 1;
    if taskType != CAS_TASK {
      // Unknown task types are only logged.
      return Done, None;
    }
    var answerOffset := LeDecode(args[cur..cur + 8]);
    cur := cur + 8;
    var casArgs := args[cur..cur + 24];
    r, invoked := ExecCas(stack, mem, heap, answerOffset, casArgs, mode, registry, callees, callRecover);
  }

  /** The CAS branch of `exec_task_common`. */
  method ExecCas(stack: RamStack, mem: array<byte>, heap: array<byte>, off: nat, casArgs: seq<byte>, mode: Mode,
                 registry: set<seq<byte>>, callees: (Entry, seq<byte>) -> Behaviour, callRecover: bool)
    returns (r: Outcome, invoked: Option<Entry>)
    requires mem != heap && Mirrors(mem[..], stack.frames) && off < heap.Length
    requires CallFits(mem.Length, stack.frames, Frame(CAS_NAME, casArgs), None)
    modifies stack, mem, heap
    ensures TaskState(r, invoked, stack.frames, mem[..], heap[..])
         == CasTaskSpec(old(mem[..]), old(stack.frames), old(heap[..]), off, casArgs, mode, registry, callees, callRecover)
  {
    TopSlotFits(mem[..], stack.frames);
    if callRecover {
      var slot := mem[Last(stack.frames).position];
      assert slot == SlotByte(mem[..], stack.frames);
      if slot != 0 && slot != 1 && slot != PENDING_ANSWER {
        return Failed(CorruptedAnswer), None;
      }
      if slot == 0 || slot == 1 {
        heap[off] := slot;
        return Done, None;
      }
    }
    r, invoked := RunCas(stack, mem, heap, off, casArgs, mode, registry, callees, callRecover);
  }

  /** `do_call("cas", ...)` and the copy of its answer byte to the heap. */
  method RunCas(stack: RamStack, mem: array<byte>, heap: array<byte>, off: nat, casArgs: seq<byte>, mode: Mode,
                registry: set<seq<byte>>, callees: (Entry, seq<byte>) -> Behaviour, callRecover: bool)
    returns (r: Outcome, invoked: Option<Entry>)
    requires mem != heap && Mirrors(mem[..], stack.frames) && off < heap.Length
    requires CallFits(mem.Length, stack.frames, Frame(CAS_NAME, casArgs), None)
    modifies stack, mem, heap
    ensures TaskState(r, invoked, stack.frames, mem[..], heap[..])
         == RunCasSpec(old(mem[..]), old(stack.frames), old(heap[..]), off, casArgs, mode, registry, callees, callRecover)
  {
    ghost var m0 := mem[..];
    ghost var frames := stack.frames;
    ghost var h0 := heap[..];
    r, invoked := DoCall(stack, mem, mode, registry, callees, CAS_NAME, casArgs, None, None, callRecover);
    ghost var c := CallState(r, invoked, stack.frames, mem[..]);
    RunCasUnfolds(m0, frames, h0, off, casArgs, mode, registry, callees, callRecover, c);
    if r != Done {
      return r, invoked;
    }
    var answer := mem[Last(stack.frames).position];
    if answer != 0 && answer != 1 {
      return Failed(CorruptedAnswer), invoked;
    }
    heap[off] := answer;
  }

  /** `RunCasSpec` in terms of the state `c` that `do_call` left. */
  lemma RunCasUnfolds(mem: seq<byte>, frames: seq<PositionedFrame>, heap: seq<byte>, off: nat, casArgs: seq<byte>,
                      mode: Mode, registry: set<seq<byte>>, callees: (Entry, seq<byte>) -> Behaviour,
                      callRecover: bool, c: CallState)
    requires Mirrors(mem, frames) && off < |heap| && CallFits(|mem|, frames, Frame(CAS_NAME, casArgs), None)
    requires c == DoCallSpec(mem, frames, mode, registry, callees, CAS_NAME, casArgs, None, None, callRecover)
    ensures c.outcome != Done ==> RunCasSpec(mem, frames, heap, off, casArgs, mode, registry, callees, callRecover)
                                  == TaskState(c.outcome, c.invoked, c.frames, c.mem, heap)
    ensures c.outcome == Done ==>
      c.frames == frames && frames != [] && Last(frames).position < |c.mem| &&
      var b := c.mem[Last(frames).position];
      RunCasSpec(mem, frames, heap, off, casArgs, mode, registry, callees, callRecover)
        == if b != 0 && b != 1 then TaskState(Failed(CorruptedAnswer), c.invoked, c.frames, c.mem, heap)
           else TaskState(Done, c.invoked, c.frames, c.mem, heap[off := b])
  {
    if c.outcome == Done {
      CompletedCallIsBalanced(mem, frames, mode, registry, callees, CAS_NAME, casArgs, None, None, callRecover);
      TopSlotFits(c.mem, frames);
    }
  }

  /** `exec_task`: the task run in execution mode. */
  method RunTask(stack: RamStack, mem: array<byte>, heap: array<byte>, mode: Mode, registry: set<seq<byte>>,
                 callees: (Entry, seq<byte>) -> Behaviour, args: seq<byte>)
    returns (r: Outcome, invoked: Option<Entry>)
    requires mem != heap && TaskFits(mem[..], heap.Length, stack.frames, args)
    modifies stack, mem, heap
    ensures TaskState(r, invoked, stack.frames, mem[..], heap[..])
         == ExecTaskSpec(old(mem[..]), old(stack.frames), old(heap[..]), mode, registry, callees, args, false)
  {
    r, invoked := ExecTaskCommon(stack, mem, heap, mode, registry, callees, args, false);
  }

  /** `exec_task_recover`: the task's recovery entry, run by restoration. */
  method RecoverTask(stack: RamStack, mem: array<byte>, heap: array<byte>, mode: Mode, registry: set<seq<byte>>,
                     callees: (Entry, seq<byte>) -> Behaviour, args: seq<byte>)
    returns (r: Outcome, invoked: Option<Entry>)
    requires mem != heap && TaskFits(mem[..], heap.Length, stack.frames, args)
    modifies stack, mem, heap
    ensures TaskState(r, invoked, stack.frames, mem[..], heap[..])
         == ExecTaskSpec(old(mem[..]), old(stack.frames), old(heap[..]), mode, registry, callees, args, true)
  {
    r, invoked := ExecTaskCommon(stack, mem, heap, mode, registry, callees, args, true);
  }

  // ---------------------------------------------------------------------------
  // Properties of the task driver
  // ---------------------------------------------------------------------------

  /** A task of any type other than CAS calls nothing and writes nothing. */
  lemma OtherTaskTypesWriteNothing(mem: seq<byte>, frames: seq<PositionedFrame>, heap: seq<byte>, mode: Mode,
                                   registry: set<seq<byte>>, callees: (Entry, seq<byte>) -> Behaviour,
                                   args: seq<byte>, callRecover: bool)
    requires TaskFits(mem, |heap|, frames, args) && args[0] != CAS_TASK
    ensures var s := ExecTaskSpec(mem, frames, heap, mode, registry, callees, args, callRecover);
      s.outcome == Done && s.invoked == None && s.frames == frames && s.mem == mem && s.heap == heap
  {
  }

  /**
   * In recovery, a slot byte of 0 or 1 means the CAS already answered: that byte is copied to the
   * heap answer address, "cas" is not run again and the stack is untouched.
   */
  lemma RecoveryReusesAnswer(mem: seq<byte>, frames: seq<PositionedFrame>, heap: seq<byte>, mode: Mode,
                             registry: set<seq<byte>>, callees: (Entry, seq<byte>) -> Behaviour, args: seq<byte>)
    requires TaskFits(mem, |heap|, frames, args) && args[0] == CAS_TASK
    requires Last(frames).position + ANSWER_BYTES <= |mem|
    requires SlotByte(mem, frames) == 0 || SlotByte(mem, frames) == 1
    ensures var s := ExecTaskSpec(mem, frames, heap, mode, registry, callees, args, true);
      s.outcome == Done && s.invoked == None && s.frames == frames && s.mem == mem &&
      |s.heap| == |heap| && s.heap[AnswerOffset(args)] == mem[Last(frames).position] &&
      forall i :: 0 <= i < |heap| && i != AnswerOffset(args) ==> s.heap[i] == heap[i]
  {
  }

  /** In recovery, a slot byte other than 0, 1 and the pending marker 0xFF is rejected. */
  lemma RecoveryRejectsForeignSlot(mem: seq<byte>, frames: seq<PositionedFrame>, heap: seq<byte>, mode: Mode,
                                   registry: set<seq<byte>>, callees: (Entry, seq<byte>) -> Behaviour, args: seq<byte>)
    requires TaskFits(mem, |heap|, frames, args) && args[0] == CAS_TASK
    requires Last(frames).position + ANSWER_BYTES <= |mem|
    requires mem[Last(frames).position] !in {0, 1, PENDING_ANSWER}
    ensures var s := ExecTaskSpec(mem, frames, heap, mode, registry, callees, args, true);
      s.outcome == Failed(CorruptedAnswer) && s.invoked == None && s.mem == mem && s.heap == heap
  {
  }

  /**
   * A CAS task that runs "cas" (in execution mode, or in recovery when the slot still holds the
   * pending marker) with a "cas" that answers the single byte `b` in {0, 1}: the task completes, the
   * stack is balanced again, and the heap answer byte becomes `b`, nothing else in the heap changing.
   */
  lemma CasAnswerReachesHeap(mem: seq<byte>, frames: seq<PositionedFrame>, heap: seq<byte>, mode: Mode,
                             registry: set<seq<byte>>, callees: (Entry, seq<byte>) -> Behaviour,
                             args: seq<byte>, callRecover: bool, b: byte)
    requires TaskFits(mem, |heap|, frames, args) && args[0] == CAS_TASK
    requires Last(frames).position + ANSWER_BYTES <= |mem|
    requires callRecover ==> mode == Recovery && mem[Last(frames).position] == PENDING_ANSWER
    requires CAS_NAME in registry
    requires callees(Entry(CAS_NAME, callRecover), CasArgs(args)) == Returns(Some([b])) && (b == 0 || b == 1)
    ensures var s := ExecTaskSpec(mem, frames, heap, mode, registry, callees, args, callRecover);
      s.outcome == Done && s.invoked == Some(Entry(CAS_NAME, callRecover)) && s.frames == frames &&
      Mirrors(s.mem, frames) && s.heap == heap[AnswerOffset(args) := b]
  {
    var casArgs := CasArgs(args);
    CasCallCompletes(mem, frames, mode, registry, callees, casArgs, callRecover, b);
    var c := DoCallSpec(mem, frames, mode, registry, callees, CAS_NAME, casArgs, None, None, callRecover);
    CompletedCallIsBalanced(mem, frames, mode, registry, callees, CAS_NAME, casArgs, None, None, callRecover);
    RunCasUnfolds(mem, frames, heap, AnswerOffset(args), casArgs, mode, registry, callees, callRecover, c);
    assert c.mem[Last(frames).position .. Last(frames).position + 1] == [b];
    ExecRunsCas(mem, frames, heap, mode, registry, callees, args, callRecover);
  }

  /** A CAS task whose slot does not hold an answer to reuse runs "cas". */
  lemma ExecRunsCas(mem: seq<byte>, frames: seq<PositionedFrame>, heap: seq<byte>, mode: Mode,
                    registry: set<seq<byte>>, callees: (Entry, seq<byte>) -> Behaviour,
                    args: seq<byte>, callRecover: bool)
    requires TaskFits(mem, |heap|, frames, args) && args[0] == CAS_TASK
    requires Last(frames).position + ANSWER_BYTES <= |mem|
    requires callRecover ==> mem[Last(frames).position] == PENDING_ANSWER
    ensures ExecTaskSpec(mem, frames, heap, mode, registry, callees, args, callRecover)
         == RunCasSpec(mem, frames, heap, AnswerOffset(args), CasArgs(args), mode, registry, callees, callRecover)
  {
  }

  /** A registered "cas" that returns one valid byte, called where the mode allows it, completes. */
  lemma CasCallCompletes(mem: seq<byte>, frames: seq<PositionedFrame>, mode: Mode, registry: set<seq<byte>>,
                         callees: (Entry, seq<byte>) -> Behaviour, casArgs: seq<byte>, callRecover: bool, b: byte)
    requires Mirrors(mem, frames) && CallFits(|mem|, frames, Frame(CAS_NAME, casArgs), None)
    requires callRecover ==> mode == Recovery
    requires CAS_NAME in registry
    requires callees(Entry(CAS_NAME, callRecover), casArgs) == Returns(Some([b]))
    ensures var c := DoCallSpec(mem, frames, mode, registry, callees, CAS_NAME, casArgs, None, None, callRecover);
      c.outcome == Done && c.invoked == Some(Entry(CAS_NAME, callRecover))
  {
    var f := Frame(CAS_NAME, casArgs);
    var m := CalleeView(mem, frames, f, None, None);
    var pushed := Pushed(frames, f);
    assert DoCallSpec(mem, frames, mode, registry, callees, CAS_NAME, casArgs, None, None, callRecover)
        == DispatchSpec(m, frames, mode, registry, callees, CAS_NAME, casArgs, callRecover);
    assert |pushed| >= 2;
    FramesBelowEnd(frames, |frames| - 1);
    assert AnswerSlotFits(|m|, pushed) by {
      assert AnswerPosition(pushed) == Last(frames).position;
    }
    assert WriteAnswerImage(m, pushed, [b]).Ok?;
  }
}
