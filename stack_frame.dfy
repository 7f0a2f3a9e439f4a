/**
 * One call-stack frame (code/frame/stack_frame.cpp, code/frame/positioned_frame.h).
 * The on-region layout of the aligned revision is
 *   [8 bytes answer][u16 name length][name][u16 args length][args][1 byte end marker].
 */
module StackFrame {
  import opened Bytes

  const ANSWER_BYTES: nat := 8
  const LENGTH_BYTES: nat := 2
  const MARKER_BYTES: nat := 1

  /** A frame: the called function's name and its marshalled arguments (a value; copies are equal). */
  datatype Frame = Frame(functionName: seq<byte>, args: seq<byte>)

  /** A frame together with the region offset of its first (answer) byte. */
  datatype PositionedFrame = PositionedFrame(frame: Frame, position: nat)

  /** `stack_frame::size`: bytes from the answer field through the end marker, padding excluded. */
  function Size(f: Frame): (r: nat)
    ensures r >= ANSWER_BYTES + 2 * LENGTH_BYTES + MARKER_BYTES
  {
    |f.args| + |f.functionName| + 13
  }

  /** The 13 fixed bytes are the answer slot, the two length fields and the end marker. */
  lemma SizeDecomposes(f: Frame)
    ensures Size(f) == ANSWER_BYTES + LENGTH_BYTES + |f.functionName| + LENGTH_BYTES + |f.args| + MARKER_BYTES
  {
  }
}

/** The frame size of the intermediate revision (code/persistent_stack/frames.cpp), same layout. */
module Frames {
  import opened StackFrame

  /** `get_frame_size`: agrees with `stack_frame::size`, so both revisions lay frames out alike. */
  function GetFrameSize(f: Frame): (r: nat)
    ensures r == Size(f)
  {
    |f.args| + |f.functionName| + 13
  }

  /** Each extra byte of name or arguments adds exactly one byte to the frame. */
  lemma GetFrameSizeGrowsByOne(f: Frame, b: Bytes.byte)
    ensures GetFrameSize(Frame(f.functionName + [b], f.args)) == GetFrameSize(f) + 1
    ensures GetFrameSize(Frame(f.functionName, f.args + [b])) == GetFrameSize(f) + 1
  {
  }
}

/**
 * The RAM mirror of one thread's persistent stack (`ram_stack`): positioned frames,
 * pushed and popped at the tail only. The layout-dependent queries (stack end, answer
 * position) are functions of `frames` in each layout's module.
 */
module RamStacks {
  import opened StackFrame

  class RamStack {
    var frames: seq<PositionedFrame>

    constructor ()
      ensures frames == []
    {
      frames := [];
    }

    /** `add_frame`: push at the tail. */
    method AddFrame(pf: PositionedFrame)
      modifies this
      ensures frames == old(frames) + [pf]
    {
      frames := frames + [pf];
    }

    /** `remove_frame`: pop the tail. */
    method RemoveFrame()
      requires frames != []
      modifies this
      ensures frames == old(frames)[..|old(frames)| - 1]
    {
      frames := frames[..|frames| - 1];
    }

    /** Replace the whole mirror (assigning a freshly read stack). */
    method SetFrames(fs: seq<PositionedFrame>)
      modifies this
      ensures frames == fs
    {
      frames := fs;
    }
  }

  /** `get_last_frame`. */
  function Last(frames: seq<PositionedFrame>): PositionedFrame
    requires frames != []
  {
    frames[|frames| - 1]
  }

  /** The stack without its top frame. */
  function Popped(frames: seq<PositionedFrame>): seq<PositionedFrame>
    requires frames != []
  {
    frames[..|frames| - 1]
  }
}
