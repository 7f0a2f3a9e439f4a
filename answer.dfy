/**
 * Answer passing through the persistent stack (code/runtime/answer.cpp). A callee writes its
 * answer into its caller's answer slot, the first 8 bytes of the frame below its own; the caller
 * reads it back from its own (then top) frame once the callee has returned.
 */
module Answer {
  import opened Bytes
  import opened Errors
  import opened StackFrame
  import opened RamStacks
  import opened PersistentStack

  /** The caller frame's answer slot lies inside the region. */
  predicate AnswerSlotFits(memLength: nat, frames: seq<PositionedFrame>)
  {
    |frames| >= 2 ==> AnswerPosition(frames) + ANSWER_BYTES <= memLength
  }

  /** `write_answer` as a region image: the size check comes first, then the one-frame check. */
  function WriteAnswerImage(mem: seq<byte>, frames: seq<PositionedFrame>, answer: seq<byte>): (r: Result<seq<byte>>)
    requires frames != [] && AnswerSlotFits(|mem|, frames)
    ensures !ValidAnswerSize(|answer|) ==> r == Err(AnswerSizeInvalid)
    ensures ValidAnswerSize(|answer|) && |frames| == 1 ==> r == Err(NoCallerFrame)
    ensures r.Ok? <==> ValidAnswerSize(|answer|) && |frames| >= 2
    ensures r.Ok? ==>
      (|r.value| == |mem| &&
       r.value[AnswerPosition(frames) .. AnswerPosition(frames) + |answer|] == answer &&
       forall k :: 0 <= k < |mem| && !(AnswerPosition(frames) <= k < AnswerPosition(frames) + |answer|) ==> r.value[k] == mem[k])
  {
    if !ValidAnswerSize(|answer|) then Err(AnswerSizeInvalid)
    else if |frames| == 1 then Err(NoCallerFrame)
    else Ok(Write(mem, AnswerPosition(frames), answer))
  }

  /** `read_answer`: the first `size` bytes of the top frame, the slot its last callee wrote. */
  function ReadAnswer(mem: seq<byte>, frames: seq<PositionedFrame>, size: nat): (r: Result<seq<byte>>)
    requires frames != [] && Last(frames).position + ANSWER_BYTES <= |mem|
    ensures r.Ok? <==> ValidAnswerSize(size)
    ensures r.Ok? ==> |r.value| == size
  {
    if !ValidAnswerSize(size) then Err(AnswerSizeInvalid)
    else Ok(mem[Last(frames).position .. Last(frames).position + size])
  }

  /** `read_current_answer`: the first `size` bytes of the caller's frame, where `write_answer` writes. */
  function ReadCurrentAnswer(mem: seq<byte>, frames: seq<PositionedFrame>, size: nat): (r: Result<seq<byte>>)
    requires frames != [] && AnswerSlotFits(|mem|, frames)
    ensures r.Ok? <==> ValidAnswerSize(size) && |frames| >= 2
    ensures !ValidAnswerSize(size) ==> r == Err(AnswerSizeInvalid)
    ensures r.Ok? ==> |r.value| == size
  {
    if !ValidAnswerSize(size) then Err(AnswerSizeInvalid)
    else if |frames| == 1 then Err(NoCallerFrame)
    else Ok(mem[AnswerPosition(frames) .. AnswerPosition(frames) + size])
  }

  /** `write_answer`: copy `answer` into the caller frame's answer slot. */
  method WriteAnswer(stack: RamStack, mem: array<byte>, answer: seq<byte>) returns (r: Outcome)
    requires stack.frames != [] && AnswerSlotFits(mem.Length, stack.frames)
    modifies mem
    ensures WriteAnswerImage(old(mem[..]), stack.frames, answer).Err? ==>
      r == Failed(WriteAnswerImage(old(mem[..]), stack.frames, answer).error) && mem[..] == old(mem[..])
    ensures WriteAnswerImage(old(mem[..]), stack.frames, answer).Ok? ==>
      r == Done && mem[..] == WriteAnswerImage(old(mem[..]), stack.frames, answer).value
  {
    if |answer| < 1 || |answer| > 8 {
      return Failed(AnswerSizeInvalid);
    }
    if |stack.frames| == 1 {
      return Failed(NoCallerFrame);
    }
    var answerOffset := AnswerPosition(stack.frames);
    CopyInto(mem, answerOffset, answer);
    return Done;
  }

  /** `read_current_answer` returns exactly the bytes `write_answer` has just written. */
  lemma ReadCurrentAfterWrite(mem: seq<byte>, frames: seq<PositionedFrame>, answer: seq<byte>)
    requires frames != [] && AnswerSlotFits(|mem|, frames)
    requires WriteAnswerImage(mem, frames, answer).Ok?
    ensures ReadCurrentAnswer(WriteAnswerImage(mem, frames, answer).value, frames, |answer|) == Ok(answer)
  {
  }

  /**
   * A callee's answer reaches its caller: after `write_answer(v)` from the callee's frame and the
   * pop of that frame, the caller's `read_answer(|v|)` returns `v`.
   */
  lemma AnswerReachesCaller(mem: seq<byte>, frames: seq<PositionedFrame>, callee: PositionedFrame, answer: seq<byte>)
    requires frames != [] && StackEnd(frames) <= |mem|
    requires ValidAnswerSize(|answer|)
    ensures var fs := frames + [callee];
      WriteAnswerImage(mem, fs, answer).Ok? &&
      ReadAnswer(PopImage(WriteAnswerImage(mem, fs, answer).value, fs), frames, |answer|) == Ok(answer)
  {
    var fs := frames + [callee];
    assert Popped(fs) == frames && AnswerPosition(fs) == Last(frames).position;
    var w := WriteAnswerImage(mem, fs, answer).value;
    var p := PopImage(w, fs);
    var pos := Last(frames).position;
    assert p[pos .. pos + |answer|] == w[pos .. pos + |answer|];
  }

  /** Writing an answer never disturbs the durable stack: the caller's slot is not part of any encoding. */
  lemma WriteAnswerKeepsMirror(mem: seq<byte>, frames: seq<PositionedFrame>, answer: seq<byte>)
    requires Mirrors(mem, frames) && WriteAnswerImage(mem, frames, answer).Ok?
    ensures Mirrors(WriteAnswerImage(mem, frames, answer).value, frames)
  {
    var m := WriteAnswerImage(mem, frames, answer).value;
    var a := AnswerPosition(frames);
    forall i | 0 <= i < |frames|
      ensures frames[i].position + Size(frames[i].frame) <= a || a + ANSWER_BYTES <= frames[i].position + ANSWER_BYTES
    {
      SlotOutsideFrame(frames, i, |frames| - 2);
    }
    SlotWriteKeepsFrames(mem, m, frames, a, a + |answer|);
    forall i | 0 <= i < |frames| - 1 ensures MarkerOffset(Popped(frames)[i]) < |m| && m[MarkerOffset(Popped(frames)[i])] != STACK_END_MARKER {
      assert Popped(frames)[i] == frames[i];
    }
  }

  /** Changing only bytes in `[lo, hi)`, which no frame encoding or marker overlaps, keeps every frame and marker. */
  lemma SlotWriteKeepsFrames(mem: seq<byte>, m: seq<byte>, frames: seq<PositionedFrame>, lo: nat, hi: nat)
    requires AllFramesAt(mem, frames) && |m| == |mem| && lo <= hi <= lo + ANSWER_BYTES
    requires forall k :: 0 <= k < |mem| && !(lo <= k < hi) ==> m[k] == mem[k]
    requires forall i :: 0 <= i < |frames| ==>
      frames[i].position + Size(frames[i].frame) <= lo || lo + ANSWER_BYTES <= frames[i].position + ANSWER_BYTES
    ensures AllFramesAt(m, frames)
    ensures forall i :: 0 <= i < |frames| ==> m[MarkerOffset(frames[i])] == mem[MarkerOffset(frames[i])]
  {
    forall i | 0 <= i < |frames|
      ensures FrameAt(m, frames[i].position, frames[i].frame)
      ensures m[MarkerOffset(frames[i])] == mem[MarkerOffset(frames[i])]
    {
      var p, g := frames[i].position, frames[i].frame;
      assert FrameAt(mem, p, g);
      assert m[p + 8 .. p + Size(g) - 1] == mem[p + 8 .. p + Size(g) - 1];
    }
  }

  /** The answer slot of frame `j` (its first 8 bytes) overlaps no encoded byte or marker of frame `i`. */
  lemma SlotOutsideFrame(frames: seq<PositionedFrame>, i: nat, j: nat)
    requires Chained(frames) && i < |frames| && j < |frames|
    ensures frames[j].position + ANSWER_BYTES <= frames[i].position + ANSWER_BYTES || frames[i].position + Size(frames[i].frame) <= frames[j].position
  {
    if i < j {
      FramesOrdered(frames, i, j);
    } else if j < i {
      FramesOrdered(frames, j, i);
    }
  }

  /** Later frames start after earlier ones end. */
  lemma {:induction false} FramesOrdered(frames: seq<PositionedFrame>, i: nat, j: nat)
    requires Chained(frames) && i < j < |frames|
    ensures frames[i].position + Size(frames[i].frame) <= frames[j].position
    decreases j - i
  {
    assert frames[i + 1].position == NextPosition(frames[i]);
    if i + 1 < j {
      FramesOrdered(frames, i + 1, j);
    }
  }
}
