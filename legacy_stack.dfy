/**
 * The earlier revision of the persistent stack (code/persistent_stack/call.cpp and ram_stack.cpp).
 * Frames are packed back to back with no alignment, as
 * `[u64 name length][name][u64 args length][args][8-byte answer][marker]`; the answer slot of a
 * frame is the 8 bytes just before its marker, and a callee reaches its caller's slot at
 * `position - 9`. This layout is kept apart from the aligned one in PersistentStack.
 */
module LegacyStack {
  import opened Bytes
  import opened Errors
  import opened StackFrame
  import opened RamStacks
  import Call

  const LEGACY_STACK_END: byte := 0x1
  const LEGACY_FRAME_END: byte := 0x0

  /** Lengths are stored as u64. */
  const LEGACY_LENGTH_BYTES: nat := 8

  const U64_LIMIT: nat := 0x1_0000_0000_0000_0000

  predicate LegacyEncodable(f: Frame)
  {
    |f.functionName| < U64_LIMIT && |f.args| < U64_LIMIT
  }

  lemma U64Limit()
    ensures Pow256(8) == U64_LIMIT
  {
  }

  /** A u64 length field holding `x` decodes to `x`; any 8 bytes decode below the u64 limit. */
  lemma U64Field(mem: seq<byte>, at: nat, x: nat)
    requires at + 8 <= |mem| && mem[at .. at + 8] == LeEncode(x, 8) && x < U64_LIMIT
    ensures LeDecode(mem[at .. at + 8]) == x
  {
    U64Limit();
    DecodeEncode(x, 8);
  }

  /** The u64 length field at `at`. */
  function U64At(mem: seq<byte>, at: nat): (r: nat)
    requires at + 8 <= |mem|
    ensures r < U64_LIMIT
  {
    U64Limit();
    LeDecode(mem[at .. at + 8])
  }

  predicate LegacyAnswerSize(n: nat)
  {
    1 <= n <= 8
  }

  /** `get_frame_size` of ram_stack.cpp: both lengths, name, args, the answer slot and the marker. */
  function FrameSize(f: Frame): (r: nat)
  {
    |f.functionName| + |f.args| + 25
  }

  /** The 25 bytes of overhead are two u64 lengths, the 8-byte answer slot and the marker byte. */
  lemma FrameSizeDecomposes(f: Frame)
    ensures FrameSize(f) == LEGACY_LENGTH_BYTES + |f.functionName| + LEGACY_LENGTH_BYTES + |f.args| + ANSWER_BYTES + MARKER_BYTES
    ensures FrameSize(f) >= 25
  {
  }

  /** `get_stack_end`: 0 for an empty stack, else the first byte after the top frame. */
  function LegacyStackEnd(frames: seq<PositionedFrame>): nat
  {
    if frames == [] then 0 else Last(frames).position + FrameSize(Last(frames).frame)
  }

  /** Offset of a frame's marker byte, the last byte of the frame (`get_stack_end - 1` for the top). */
  function LegacyMarkerOffset(pf: PositionedFrame): nat
  {
    pf.position + FrameSize(pf.frame) - 1
  }

  /** Offset of a frame's answer slot, just after its arguments (where `read_answer` reads). */
  function AnswerSlot(pf: PositionedFrame): nat
  {
    pf.position + 16 + |pf.frame.args| + |pf.frame.functionName|
  }

  // ---------------------------------------------------------------------------
  // Frame codec
  // ---------------------------------------------------------------------------

  /** The bytes `add_new_frame` writes before the answer slot. */
  function LegacyFields(f: Frame): (r: seq<byte>)
    ensures |r| == FrameSize(f) - ANSWER_BYTES - MARKER_BYTES
  {
    LeEncode(|f.functionName|, 8) + f.functionName + LeEncode(|f.args|, 8) + f.args
  }

  /** `f` is encoded at `pos` (answer slot and marker byte excluded). */
  ghost predicate LegacyFrameAt(mem: seq<byte>, pos: nat, f: Frame)
  {
    LegacyEncodable(f) && pos + FrameSize(f) <= |mem| &&
    mem[pos .. pos + FrameSize(f) - ANSWER_BYTES - MARKER_BYTES] == LegacyFields(f)
  }

  /**
   * `read_frame`: a u64 name length and the name, a u64 args length and the args, skip the
   * 8-byte answer, then the marker; the frame is the last iff the marker is 0x1. None where the
   * source would read past the region.
   */
  function LegacyReadFrame(mem: seq<byte>, offset: nat): (r: Option<(Frame, bool)>)
    ensures r.Some? ==> LegacyEncodable(r.value.0) && offset + FrameSize(r.value.0) <= |mem|
  {
    if offset + 8 > |mem| then None
    else
      var nameLen := U64At(mem, offset);
      var argsLenAt := offset + 8 + nameLen;
      if argsLenAt + 8 > |mem| then None
      else
        var argsLen := U64At(mem, argsLenAt);
        var argsAt := argsLenAt + 8;
        var markerAt := argsAt + argsLen + 8;
        if markerAt >= |mem| then None
        else
          var f := Frame(mem[offset + 8 .. argsLenAt], mem[argsAt .. argsAt + argsLen]);
          Some((f, mem[markerAt] == LEGACY_STACK_END))
  }

  lemma LegacyFieldsParts(f: Frame)
    ensures var e, n := LegacyFields(f), |f.functionName|;
      e[..8] == LeEncode(n, 8) && e[8 .. 8 + n] == f.functionName &&
      e[8 + n .. 16 + n] == LeEncode(|f.args|, 8) && e[16 + n ..] == f.args
  {
    var n := |f.functionName|;
    var e := LegacyFields(f);
    var p1 := LeEncode(n, 8) + f.functionName;
    var p2 := p1 + LeEncode(|f.args|, 8);
    assert e == p2 + f.args;
    assert e[..16 + n] == p2 && p2[..8 + n] == p1;
  }

  lemma Slice(mem: seq<byte>, b: nat, e: seq<byte>, i: nat, j: nat)
    requires b + |e| <= |mem| && mem[b .. b + |e|] == e && i <= j <= |e|
    ensures mem[b + i .. b + j] == e[i .. j]
  {
    forall k | b + i <= k < b + j ensures mem[k] == e[k - b] {
      assert mem[b .. b + |e|][k - b] == mem[k];
    }
  }

  /** `read_frame` once both length fields are known and the marker byte lies in the region. */
  lemma LegacyReadOfFields(mem: seq<byte>, pos: nat, n: nat, a: nat)
    requires pos + 24 + n + a < |mem|
    requires LeDecode(mem[pos .. pos + 8]) == n && LeDecode(mem[pos + 8 + n .. pos + 16 + n]) == a
    ensures LegacyReadFrame(mem, pos)
         == Some((Frame(mem[pos + 8 .. pos + 8 + n], mem[pos + 16 + n .. pos + 16 + n + a]), mem[pos + 24 + n + a] == LEGACY_STACK_END))
  {
  }

  /** The length fields and byte strings of an encoded frame, located in the region. */
  lemma LegacyEncodedFields(mem: seq<byte>, pos: nat, f: Frame)
    requires LegacyFrameAt(mem, pos, f)
    ensures var n, a := |f.functionName|, |f.args|;
      pos + 24 + n + a < |mem| &&
      LeDecode(mem[pos .. pos + 8]) == n && LeDecode(mem[pos + 8 + n .. pos + 16 + n]) == a &&
      mem[pos + 8 .. pos + 8 + n] == f.functionName && mem[pos + 16 + n .. pos + 16 + n + a] == f.args
  {
    var n, a := |f.functionName|, |f.args|;
    var e := LegacyFields(f);
    assert |e| == n + a + 16 && pos + |e| <= |mem| && mem[pos .. pos + |e|] == e;
    LegacyFieldsParts(f);
    Slice(mem, pos, e, 0, 8);
    U64Field(mem, pos, n);
    Slice(mem, pos, e, 8, 8 + n);
    Slice(mem, pos, e, 8 + n, 16 + n);
    U64Field(mem, pos + 8 + n, a);
    Slice(mem, pos, e, 16 + n, |e|);
  }

  /** Reading an encoded frame gives it back; `is_last` holds iff its marker is 0x1. */
  lemma LegacyReadOfEncoded(mem: seq<byte>, pos: nat, f: Frame)
    requires LegacyFrameAt(mem, pos, f)
    ensures LegacyReadFrame(mem, pos) == Some((f, mem[LegacyMarkerOffset(PositionedFrame(f, pos))] == LEGACY_STACK_END))
  {
    var n, a := |f.functionName|, |f.args|;
    LegacyEncodedFields(mem, pos, f);
    LegacyReadOfFields(mem, pos, n, a);
    assert Frame(mem[pos + 8 .. pos + 8 + n], mem[pos + 16 + n .. pos + 16 + n + a]) == f;
    assert LegacyMarkerOffset(PositionedFrame(f, pos)) == pos + 24 + n + a;
  }

  /** A frame `read_frame` accepts has both length fields and its marker byte inside the region. */
  lemma LegacyReadBounds(mem: seq<byte>, pos: nat)
    requires LegacyReadFrame(mem, pos).Some?
    ensures pos + 8 <= |mem|
    ensures var n := LeDecode(mem[pos .. pos + 8]);
      pos + 16 + n <= |mem| && pos + 24 + n + LeDecode(mem[pos + 8 + n .. pos + 16 + n]) < |mem|
  {
  }

  /** The bytes from `pos` through the arguments are the fields of the frame their length fields describe. */
  lemma LegacySlicesAreFields(mem: seq<byte>, pos: nat, n: nat, a: nat)
    requires pos + 16 + n + a <= |mem|
    requires LeDecode(mem[pos .. pos + 8]) == n && LeDecode(mem[pos + 8 + n .. pos + 16 + n]) == a
    ensures mem[pos .. pos + 16 + n + a] == LegacyFields(Frame(mem[pos + 8 .. pos + 8 + n], mem[pos + 16 + n .. pos + 16 + n + a]))
  {
    EncodeDecode(mem[pos .. pos + 8]);
    EncodeDecode(mem[pos + 8 + n .. pos + 16 + n]);
    SliceSplit4(mem, pos, pos + 8, pos + 8 + n, pos + 16 + n, pos + 16 + n + a);
  }

  /** Whatever `read_frame` returns is encoded where it was read. */
  lemma LegacyReadIsEncoded(mem: seq<byte>, pos: nat)
    requires LegacyReadFrame(mem, pos).Some?
    ensures LegacyFrameAt(mem, pos, LegacyReadFrame(mem, pos).value.0)
    ensures LegacyReadFrame(mem, pos).value.1 == (mem[LegacyMarkerOffset(PositionedFrame(LegacyReadFrame(mem, pos).value.0, pos))] == LEGACY_STACK_END)
  {
    LegacyReadBounds(mem, pos);
    var nameLen := mem[pos .. pos + 8];
    var n := LeDecode(nameLen);
    var argsLen := mem[pos + 8 + n .. pos + 16 + n];
    var a := LeDecode(argsLen);
    LegacyReadOfFields(mem, pos, n, a);
    var name, args := mem[pos + 8 .. pos + 8 + n], mem[pos + 16 + n .. pos + 16 + n + a];
    var f := Frame(name, args);
    assert LegacyReadFrame(mem, pos).value.0 == f;
    LegacySlicesAreFields(mem, pos, n, a);
    var fieldsEnd := pos + 16 + n + a;
    assert pos + FrameSize(f) - ANSWER_BYTES - MARKER_BYTES == fieldsEnd;
    assert LegacyEncodable(f) && pos + FrameSize(f) <= |mem|;
    assert LegacyMarkerOffset(PositionedFrame(f, pos)) == pos + 24 + n + a;
  }

  // ---------------------------------------------------------------------------
  // Whole-stack decoding and the mirror invariant
  // ---------------------------------------------------------------------------

  function LegacyPrepend(acc: seq<PositionedFrame>, rest: Option<seq<PositionedFrame>>): Option<seq<PositionedFrame>>
  {
    match rest
    case None => None
    case Some(fs) => Some(acc + fs)
  }

  /** Where the scan goes after `pf`: its offset plus `get_frame_size`, with no alignment. */
  function LegacyNext(pf: PositionedFrame): nat
  {
    pf.position + FrameSize(pf.frame)
  }

  /** The forward scan of `read_stack` from `offset`, advancing by `get_frame_size` with no alignment. */
  function LegacyParseFrom(mem: seq<byte>, offset: nat): Option<seq<PositionedFrame>>
    decreases |mem| - offset
  {
    match LegacyReadFrame(mem, offset)
    case None => None
    case Some((f, last)) =>
      var pf := PositionedFrame(f, offset);
      if last then Some([pf])
      else LegacyPrepend([pf], LegacyParseFrom(mem, LegacyNext(pf)))
  }

  /** `read_stack`: the stack the region holds, scanning from offset 0. */
  function LegacyParse(mem: seq<byte>): Option<seq<PositionedFrame>>
  {
    LegacyParseFrom(mem, 0)
  }

  /** Consecutive frames are packed back to back. */
  ghost predicate Packed(frames: seq<PositionedFrame>)
  {
    forall i, j :: 0 <= i && j == i + 1 && j < |frames| ==> frames[j].position == frames[i].position + FrameSize(frames[i].frame)
  }

  ghost predicate AllLegacyFramesAt(mem: seq<byte>, frames: seq<PositionedFrame>)
  {
    forall i :: 0 <= i < |frames| ==> LegacyFrameAt(mem, frames[i].position, frames[i].frame)
  }

  /** No frame of `frames` carries the stack-end marker. */
  ghost predicate LegacyUnmarked(mem: seq<byte>, frames: seq<PositionedFrame>)
  {
    forall i :: 0 <= i < |frames| ==> LegacyMarkerOffset(frames[i]) < |mem| && mem[LegacyMarkerOffset(frames[i])] != LEGACY_STACK_END
  }

  /** `frames` is laid out in `mem`: packed, each encoded, and only the top marked as the stack end. */
  ghost predicate LegacyLaid(mem: seq<byte>, frames: seq<PositionedFrame>)
  {
    frames != [] && Packed(frames) && AllLegacyFramesAt(mem, frames) &&
    LegacyUnmarked(mem, Popped(frames)) &&
    LegacyMarkerOffset(Last(frames)) < |mem| && mem[LegacyMarkerOffset(Last(frames))] == LEGACY_STACK_END
  }

  /** The RAM stack `frames` mirrors the durable stack in `mem`. */
  ghost predicate LegacyMirrors(mem: seq<byte>, frames: seq<PositionedFrame>)
  {
    LegacyLaid(mem, frames) && frames[0].position == 0
  }

  lemma LegacyLaidTail(mem: seq<byte>, frames: seq<PositionedFrame>)
    requires LegacyLaid(mem, frames) && |frames| >= 2
    ensures LegacyLaid(mem, frames[1..])
  {
    var t := frames[1..];
    forall i, j | 0 <= i && j == i + 1 && j < |t| ensures t[j].position == t[i].position + FrameSize(t[i].frame) {
      assert t[i] == frames[i + 1] && t[j] == frames[j + 1];
    }
    forall i | 0 <= i < |t| ensures LegacyFrameAt(mem, t[i].position, t[i].frame) {
      assert t[i] == frames[i + 1];
    }
    forall i | 0 <= i < |t| - 1 ensures LegacyMarkerOffset(t[i]) < |mem| && mem[LegacyMarkerOffset(t[i])] != LEGACY_STACK_END {
      assert t[i] == Popped(frames)[i + 1];
    }
  }

  lemma PackedCons(pf: PositionedFrame, rest: seq<PositionedFrame>)
    requires Packed(rest) && rest != [] && rest[0].position == LegacyNext(pf)
    ensures Packed([pf] + rest)
  {
    var fs := [pf] + rest;
    forall i, j | 0 <= i && j == i + 1 && j < |fs| ensures fs[j].position == fs[i].position + FrameSize(fs[i].frame) {
      if i > 0 { assert fs[i] == rest[i - 1] && fs[j] == rest[j - 1]; }
    }
  }

  lemma FramesAtCons(mem: seq<byte>, pf: PositionedFrame, rest: seq<PositionedFrame>)
    requires AllLegacyFramesAt(mem, rest) && LegacyFrameAt(mem, pf.position, pf.frame)
    ensures AllLegacyFramesAt(mem, [pf] + rest)
  {
    var fs := [pf] + rest;
    forall i | 0 <= i < |fs| ensures LegacyFrameAt(mem, fs[i].position, fs[i].frame) {
      if i > 0 { assert fs[i] == rest[i - 1]; }
    }
  }

  lemma UnmarkedCons(mem: seq<byte>, pf: PositionedFrame, rest: seq<PositionedFrame>)
    requires rest != [] && LegacyUnmarked(mem, Popped(rest))
    requires LegacyMarkerOffset(pf) < |mem| && mem[LegacyMarkerOffset(pf)] != LEGACY_STACK_END
    ensures LegacyUnmarked(mem, Popped([pf] + rest))
  {
    var fs := [pf] + rest;
    assert Popped(fs) == [pf] + Popped(rest);
  }

  lemma LegacyLaidCons(mem: seq<byte>, pf: PositionedFrame, rest: seq<PositionedFrame>)
    requires LegacyLaid(mem, rest) && LegacyFrameAt(mem, pf.position, pf.frame)
    requires LegacyMarkerOffset(pf) < |mem| && mem[LegacyMarkerOffset(pf)] != LEGACY_STACK_END
    requires rest[0].position == LegacyNext(pf)
    ensures LegacyLaid(mem, [pf] + rest)
  {
    PackedCons(pf, rest);
    FramesAtCons(mem, pf, rest);
    UnmarkedCons(mem, pf, rest);
    assert Last([pf] + rest) == Last(rest);
  }

  /** One step of the scan, given the frame read at `offset`. */
  lemma LegacyParseStep(mem: seq<byte>, offset: nat, f: Frame, last: bool)
    requires LegacyReadFrame(mem, offset) == Some((f, last))
    ensures LegacyParseFrom(mem, offset) ==
      if last then Some([PositionedFrame(f, offset)])
      else LegacyPrepend([PositionedFrame(f, offset)], LegacyParseFrom(mem, LegacyNext(PositionedFrame(f, offset))))
  {
  }

  /** The bottom frame of a laid-out stack reads back, marked last iff it is alone, and the rest is laid after it. */
  lemma LegacyLaidHead(mem: seq<byte>, frames: seq<PositionedFrame>)
    requires LegacyLaid(mem, frames)
    ensures LegacyReadFrame(mem, frames[0].position) == Some((frames[0].frame, |frames| == 1))
    ensures |frames| > 1 ==> frames[1].position == LegacyNext(frames[0]) && LegacyLaid(mem, frames[1..])
  {
    var pf := frames[0];
    assert LegacyFrameAt(mem, pf.position, pf.frame);
    LegacyReadOfEncoded(mem, pf.position, pf.frame);
    if |frames| > 1 {
      assert Popped(frames)[0] == pf;
      LegacyLaidTail(mem, frames);
    } else {
      assert Last(frames) == pf;
    }
  }

  lemma {:induction false} LegacyLaidParses(mem: seq<byte>, frames: seq<PositionedFrame>)
    requires LegacyLaid(mem, frames)
    ensures LegacyParseFrom(mem, frames[0].position) == Some(frames)
    decreases |frames|
  {
    var pf := frames[0];
    LegacyLaidHead(mem, frames);
    if |frames| > 1 {
      LegacyParseStep(mem, pf.position, pf.frame, false);
      LegacyLaidParses(mem, frames[1..]);
      assert [pf] + frames[1..] == frames;
    } else {
      LegacyParseStep(mem, pf.position, pf.frame, true);
      assert frames == [pf];
    }
  }

  lemma {:induction false} LegacyParsedIsLaid(mem: seq<byte>, offset: nat, frames: seq<PositionedFrame>)
    requires LegacyParseFrom(mem, offset) == Some(frames)
    ensures LegacyLaid(mem, frames) && frames[0].position == offset
    decreases |mem| - offset
  {
    var (f, last) := LegacyReadFrame(mem, offset).value;
    var pf := PositionedFrame(f, offset);
    LegacyReadIsEncoded(mem, offset);
    LegacyParseStep(mem, offset, f, last);
    if !last {
      var rest := LegacyParseFrom(mem, LegacyNext(pf)).value;
      LegacyParsedIsLaid(mem, LegacyNext(pf), rest);
      assert frames == [pf] + rest;
      LegacyLaidCons(mem, pf, rest);
    } else {
      assert frames == [pf];
      assert Popped(frames) == [] && Last(frames) == pf && frames[0] == pf;
    }
  }

  /** `read_stack` rebuilds exactly the RAM stack that the region mirrors, and only such a stack. */
  lemma LegacyParseIffMirrors(mem: seq<byte>, frames: seq<PositionedFrame>)
    ensures LegacyParse(mem) == Some(frames) <==> LegacyMirrors(mem, frames)
  {
    if LegacyMirrors(mem, frames) {
      LegacyLaidParses(mem, frames);
    }
    if LegacyParse(mem) == Some(frames) {
      LegacyParsedIsLaid(mem, 0, frames);
    }
  }

  /** A mirrored stack is packed and ends inside the region. */
  lemma LegacyMirrorsShape(mem: seq<byte>, frames: seq<PositionedFrame>)
    requires LegacyMirrors(mem, frames)
    ensures Packed(frames) && LegacyStackEnd(frames) <= |mem|
  {
    assert LegacyFrameAt(mem, Last(frames).position, Last(frames).frame);
  }

  /** Every frame of a packed stack lies below the stack end. */
  lemma {:induction false} LegacyBelowEnd(frames: seq<PositionedFrame>, i: nat)
    requires Packed(frames) && i < |frames|
    ensures frames[i].position + FrameSize(frames[i].frame) <= LegacyStackEnd(frames)
    decreases |frames| - i
  {
    if i < |frames| - 1 {
      LegacyBelowEnd(frames, i + 1);
    }
  }

  /** Earlier frames of a packed stack end before later ones start. */
  lemma {:induction false} PackedOrdered(frames: seq<PositionedFrame>, i: nat, j: nat)
    requires Packed(frames) && i < j < |frames|
    ensures frames[i].position + FrameSize(frames[i].frame) <= frames[j].position
    decreases j - i
  {
    if i + 1 < j {
      PackedOrdered(frames, i + 1, j);
    }
  }

  /** A region that agrees with a mirrored one on every frame's fields and marker mirrors the same stack. */
  lemma LegacyMirrorsKept(mem: seq<byte>, m: seq<byte>, frames: seq<PositionedFrame>)
    requires LegacyMirrors(mem, frames) && |m| == |mem|
    requires forall i :: 0 <= i < |frames| ==>
      var p, s := frames[i].position, FrameSize(frames[i].frame);
      (forall k :: p <= k < p + s - 9 ==> m[k] == mem[k]) && m[p + s - 1] == mem[p + s - 1]
    ensures LegacyMirrors(m, frames)
  {
    forall i | 0 <= i < |frames| ensures LegacyFrameAt(m, frames[i].position, frames[i].frame) {
      var p, s := frames[i].position, FrameSize(frames[i].frame);
      assert LegacyFrameAt(mem, p, frames[i].frame);
      assert m[p .. p + s - 9] == mem[p .. p + s - 9];
    }
    forall i | 0 <= i < |frames| - 1 ensures LegacyMarkerOffset(Popped(frames)[i]) < |m| && m[LegacyMarkerOffset(Popped(frames)[i])] != LEGACY_STACK_END {
      assert Popped(frames)[i] == frames[i];
    }
  }

  /** Frames whose bytes below `bound` are untouched stay encoded, and so do all markers but the top one's. */
  lemma LegacyFramesKept(mem: seq<byte>, mem': seq<byte>, frames: seq<PositionedFrame>, bound: nat)
    requires Packed(frames) && AllLegacyFramesAt(mem, frames) && |mem'| == |mem|
    requires LegacyStackEnd(frames) <= bound + 9 && bound <= |mem|
    requires forall k :: 0 <= k < bound ==> mem'[k] == mem[k]
    ensures AllLegacyFramesAt(mem', frames)
    ensures forall i :: 0 <= i < |frames| - 1 ==> mem'[LegacyMarkerOffset(frames[i])] == mem[LegacyMarkerOffset(frames[i])]
  {
    forall i | 0 <= i < |frames| ensures LegacyFrameAt(mem', frames[i].position, frames[i].frame) {
      var p, g := frames[i].position, frames[i].frame;
      LegacyBelowEnd(frames, i);
      assert mem'[p .. p + FrameSize(g) - 9] == mem[p .. p + FrameSize(g) - 9];
    }
    forall i | 0 <= i < |frames| - 1 ensures mem'[LegacyMarkerOffset(frames[i])] == mem[LegacyMarkerOffset(frames[i])] {
      LegacyBelowEnd(frames, i + 1);
    }
  }

  // ---------------------------------------------------------------------------
  // Push (add_new_frame) and pop (remove_frame) as region images
  // ---------------------------------------------------------------------------

  predicate LegacyPushFits(memLength: nat, frames: seq<PositionedFrame>, f: Frame)
  {
    LegacyStackEnd(frames) + FrameSize(f) <= memLength
  }

  /** The region after the new frame's fields and stack-end marker are written, before relinking. */
  function LegacyUnlinkedImage(mem: seq<byte>, frames: seq<PositionedFrame>, f: Frame): (r: seq<byte>)
    requires LegacyPushFits(|mem|, frames, f)
    ensures |r| == |mem|
    ensures forall k :: 0 <= k < LegacyStackEnd(frames) ==> r[k] == mem[k]
  {
    var pos := LegacyStackEnd(frames);
    Write(Write(mem, pos, LegacyFields(f)), pos + FrameSize(f) - 1, [LEGACY_STACK_END])
  }

  /** The region after `add_new_frame`: unless the frame is the first, the byte before it becomes 0x0. */
  function LegacyPushImage(mem: seq<byte>, frames: seq<PositionedFrame>, f: Frame): seq<byte>
    requires LegacyPushFits(|mem|, frames, f)
  {
    var u := LegacyUnlinkedImage(mem, frames, f);
    var pos := LegacyStackEnd(frames);
    if pos != 0 then Write(u, pos - 1, [LEGACY_FRAME_END]) else u
  }

  /** The region after `remove_frame`: the byte just before the popped frame becomes 0x1. */
  function LegacyPopImage(mem: seq<byte>, frames: seq<PositionedFrame>): seq<byte>
    requires |frames| >= 2 && 1 <= Last(frames).position <= |mem|
  {
    Write(mem, Last(frames).position - 1, [LEGACY_STACK_END])
  }

  function LegacyPushed(frames: seq<PositionedFrame>, f: Frame): seq<PositionedFrame>
  {
    frames + [PositionedFrame(f, LegacyStackEnd(frames))]
  }

  /** The byte before a frame of a packed stack is its predecessor's marker. */
  lemma PredecessorMarker(frames: seq<PositionedFrame>, j: nat)
    requires Packed(frames) && 0 < j < |frames|
    ensures frames[j].position >= 25 && frames[j].position - 1 == LegacyMarkerOffset(frames[j - 1])
  {
  }

  /** A crash before relinking: the scan still stops at the old top, so the region reads back as before the push. */
  lemma LegacyUnlinkedReadsOld(mem: seq<byte>, frames: seq<PositionedFrame>, f: Frame)
    requires LegacyMirrors(mem, frames) && LegacyPushFits(|mem|, frames, f)
    ensures LegacyParse(LegacyUnlinkedImage(mem, frames, f)) == Some(frames)
  {
    var u := LegacyUnlinkedImage(mem, frames, f);
    LegacyFramesKept(mem, u, frames, LegacyStackEnd(frames));
    LegacyBelowEnd(frames, |frames| - 1);
    forall i | 0 <= i < |frames| - 1
      ensures LegacyMarkerOffset(Popped(frames)[i]) < |u| && u[LegacyMarkerOffset(Popped(frames)[i])] != LEGACY_STACK_END
    {
      assert Popped(frames)[i] == frames[i];
      LegacyBelowEnd(frames, i);
    }
    LegacyParseIffMirrors(u, frames);
  }

  /** The new frame is encoded in the pushed image and carries the stack-end marker. */
  lemma LegacyPushNewFrame(mem: seq<byte>, frames: seq<PositionedFrame>, f: Frame)
    requires LegacyPushFits(|mem|, frames, f) && LegacyEncodable(f)
    ensures var pos, m := LegacyStackEnd(frames), LegacyPushImage(mem, frames, f);
      LegacyFrameAt(m, pos, f) && m[LegacyMarkerOffset(PositionedFrame(f, pos))] == LEGACY_STACK_END
  {
    var pos := LegacyStackEnd(frames);
    var w := Write(mem, pos, LegacyFields(f));
    var u := LegacyUnlinkedImage(mem, frames, f);
    var m := LegacyPushImage(mem, frames, f);
    assert w[pos .. pos + FrameSize(f) - 9] == LegacyFields(f);
    assert u[pos .. pos + FrameSize(f) - 9] == w[pos .. pos + FrameSize(f) - 9];
    assert m[pos .. pos + FrameSize(f) - 9] == u[pos .. pos + FrameSize(f) - 9];
  }

  lemma PackedSnoc(frames: seq<PositionedFrame>, f: Frame)
    requires Packed(frames)
    ensures Packed(LegacyPushed(frames, f))
  {
    var fs, n := LegacyPushed(frames, f), |frames|;
    forall i, j | 0 <= i && j == i + 1 && j < |fs| ensures fs[j].position == fs[i].position + FrameSize(fs[i].frame) {
      if j < n { assert fs[i] == frames[i] && fs[j] == frames[j]; }
    }
  }

  /** The frames below the new one keep their fields and their (now 0x0 or untouched) markers in the pushed image. */
  lemma PushKeepsOld(mem: seq<byte>, frames: seq<PositionedFrame>, f: Frame)
    requires LegacyMirrors(mem, frames) && LegacyPushFits(|mem|, frames, f)
    ensures var m := LegacyPushImage(mem, frames, f);
      AllLegacyFramesAt(m, frames) && LegacyUnmarked(m, frames)
  {
    var n := |frames|;
    var m := LegacyPushImage(mem, frames, f);
    var u := LegacyUnlinkedImage(mem, frames, f);
    LegacyFramesKept(mem, u, frames, LegacyStackEnd(frames));
    LegacyFramesKept(u, m, frames, LegacyStackEnd(frames) - 1);
    LegacyBelowEnd(frames, n - 1);
    forall i | 0 <= i < n ensures LegacyMarkerOffset(frames[i]) < |m| && m[LegacyMarkerOffset(frames[i])] != LEGACY_STACK_END {
      LegacyBelowEnd(frames, i);
      if i < n - 1 {
        assert frames[i] == Popped(frames)[i];
      }
    }
  }

  /** After `add_new_frame` the region mirrors the RAM stack with the new frame on top. */
  lemma LegacyPushMirrors(mem: seq<byte>, frames: seq<PositionedFrame>, f: Frame)
    requires frames == [] || LegacyMirrors(mem, frames)
    requires LegacyPushFits(|mem|, frames, f) && LegacyEncodable(f)
    ensures LegacyMirrors(LegacyPushImage(mem, frames, f), LegacyPushed(frames, f))
  {
    var pf := PositionedFrame(f, LegacyStackEnd(frames));
    var fs := LegacyPushed(frames, f);
    var m := LegacyPushImage(mem, frames, f);
    LegacyPushNewFrame(mem, frames, f);
    assert Last(fs) == pf && Popped(fs) == frames;
    if frames == [] {
      assert fs == [pf];
      assert AllLegacyFramesAt(m, fs);
    } else {
      PackedSnoc(frames, f);
      PushKeepsOld(mem, frames, f);
      forall i | 0 <= i < |fs| ensures LegacyFrameAt(m, fs[i].position, fs[i].frame) {
        if i < |frames| { assert fs[i] == frames[i]; }
      }
      assert fs[0] == frames[0];
    }
  }

  /** After `remove_frame` the region mirrors the popped RAM stack. */
  lemma LegacyPopMirrors(mem: seq<byte>, frames: seq<PositionedFrame>)
    requires LegacyMirrors(mem, frames) && |frames| >= 2
    ensures 1 <= Last(frames).position <= |mem|
    ensures LegacyMirrors(LegacyPopImage(mem, frames), Popped(frames))
  {
    var n := |frames|;
    var p := Popped(frames);
    PredecessorMarker(frames, n - 1);
    LegacyBelowEnd(frames, n - 1);
    var m := LegacyPopImage(mem, frames);
    assert Packed(p);
    forall i | 0 <= i < |p| ensures LegacyFrameAt(mem, p[i].position, p[i].frame) {
      assert p[i] == frames[i];
    }
    assert Last(p) == frames[n - 2];
    LegacyFramesKept(mem, m, p, LegacyStackEnd(p) - 1);
    forall i | 0 <= i < |p| - 1 ensures LegacyMarkerOffset(Popped(p)[i]) < |m| && m[LegacyMarkerOffset(Popped(p)[i])] != LEGACY_STACK_END {
      assert Popped(p)[i] == p[i] && p[i] == Popped(frames)[i];
    }
  }

  // ---------------------------------------------------------------------------
  // Answers
  // ---------------------------------------------------------------------------

  /** `write_answer`: the size check, the one-frame check, then the bytes at `top.position - 9`. */
  function LegacyWriteAnswerImage(mem: seq<byte>, frames: seq<PositionedFrame>, answer: seq<byte>): (r: Result<seq<byte>>)
    requires frames != [] && (|frames| >= 2 ==> 9 <= Last(frames).position <= |mem|)
    ensures r.Ok? <==> LegacyAnswerSize(|answer|) && |frames| >= 2
    ensures !LegacyAnswerSize(|answer|) ==> r == Err(AnswerSizeInvalid)
    ensures r.Ok? ==> |r.value| == |mem| && r.value[Last(frames).position - 9 .. Last(frames).position - 9 + |answer|] == answer
  {
    if !LegacyAnswerSize(|answer|) then Err(AnswerSizeInvalid)
    else if |frames| == 1 then Err(NoCallerFrame)
    else Ok(Write(mem, Last(frames).position - 9, answer))
  }

  /** `read_answer`: `size` bytes of the top frame's own slot; no one-frame check. */
  function LegacyReadAnswer(mem: seq<byte>, frames: seq<PositionedFrame>, size: nat): (r: Result<seq<byte>>)
    requires frames != [] && AnswerSlot(Last(frames)) + 8 <= |mem|
    ensures r.Ok? <==> LegacyAnswerSize(size)
    ensures r.Ok? ==> |r.value| == size
  {
    if !LegacyAnswerSize(size) then Err(AnswerSizeInvalid)
    else Ok(mem[AnswerSlot(Last(frames)) .. AnswerSlot(Last(frames)) + size])
  }

  /** `read_current_answer`: `size` bytes at `top.position - 9`, where `write_answer` writes. */
  function LegacyReadCurrentAnswer(mem: seq<byte>, frames: seq<PositionedFrame>, size: nat): (r: Result<seq<byte>>)
    requires frames != [] && (|frames| >= 2 ==> 9 <= Last(frames).position <= |mem|)
    ensures r.Ok? <==> LegacyAnswerSize(size) && |frames| >= 2
    ensures r.Ok? ==> |r.value| == size
  {
    if !LegacyAnswerSize(size) then Err(AnswerSizeInvalid)
    else if |frames| == 1 then Err(NoCallerFrame)
    else Ok(mem[Last(frames).position - 9 .. Last(frames).position - 9 + size])
  }

  /** In a packed stack, `top.position - 9` is the caller frame's answer slot. */
  lemma CurrentSlotIsCallerSlot(frames: seq<PositionedFrame>)
    requires Packed(frames) && |frames| >= 2
    ensures Last(frames).position >= 25 && Last(frames).position - 9 == AnswerSlot(frames[|frames| - 2])
  {
    PredecessorMarker(frames, |frames| - 1);
  }

  /** `read_current_answer` returns exactly the bytes `write_answer` has just written. */
  lemma LegacyReadCurrentAfterWrite(mem: seq<byte>, frames: seq<PositionedFrame>, answer: seq<byte>)
    requires frames != [] && (|frames| >= 2 ==> 9 <= Last(frames).position <= |mem|)
    requires LegacyWriteAnswerImage(mem, frames, answer).Ok?
    ensures LegacyReadCurrentAnswer(LegacyWriteAnswerImage(mem, frames, answer).value, frames, |answer|) == Ok(answer)
  {
  }

  /** Writing an answer keeps the mirror: the caller's slot holds neither fields nor a marker. */
  lemma LegacyAnswerKeepsMirror(mem: seq<byte>, frames: seq<PositionedFrame>, answer: seq<byte>)
    requires LegacyMirrors(mem, frames) && |frames| >= 2 && LegacyAnswerSize(|answer|)
    ensures 9 <= Last(frames).position <= |mem|
    ensures LegacyMirrors(LegacyWriteAnswerImage(mem, frames, answer).value, frames)
  {
    var n := |frames|;
    CurrentSlotIsCallerSlot(frames);
    LegacyMirrorsShape(mem, frames);
    var m := LegacyWriteAnswerImage(mem, frames, answer).value;
    var slot := Last(frames).position - 9;
    assert forall k :: 0 <= k < |mem| && !(slot <= k < slot + |answer|) ==> m[k] == mem[k];
    forall i | 0 <= i < n
      ensures var p, s := frames[i].position, FrameSize(frames[i].frame);
        (forall k :: p <= k < p + s - 9 ==> m[k] == mem[k]) && m[p + s - 1] == mem[p + s - 1]
    {
      SlotClear(frames, i, |answer|);
    }
    LegacyMirrorsKept(mem, m, frames);
  }

  /** No frame's fields or marker overlap the first `len` bytes of the caller's answer slot. */
  lemma SlotClear(frames: seq<PositionedFrame>, i: nat, len: nat)
    requires Packed(frames) && |frames| >= 2 && i < |frames| && len <= 8
    ensures var slot, p, s := AnswerSlot(frames[|frames| - 2]), frames[i].position, FrameSize(frames[i].frame);
      p + s <= LegacyStackEnd(frames) &&
      (p + s - 9 <= slot || slot + len <= p) && (p + s - 1 < slot || slot + len <= p + s - 1)
  {
    var n := |frames|;
    LegacyBelowEnd(frames, i);
    PredecessorMarker(frames, n - 1);
    if i < n - 2 {
      PackedOrdered(frames, i, n - 2);
    }
  }

  /**
   * The answer a callee writes reaches its caller: after `write_answer(v)` and the pop of the
   * callee's frame, the caller's `read_answer(|v|)` returns v.
   */
  lemma LegacyAnswerReachesCaller(mem: seq<byte>, frames: seq<PositionedFrame>, answer: seq<byte>)
    requires Packed(frames) && LegacyStackEnd(frames) <= |mem| && |frames| >= 2 && LegacyAnswerSize(|answer|)
    ensures 9 <= Last(frames).position <= |mem|
    ensures var w := LegacyWriteAnswerImage(mem, frames, answer).value;
      AnswerSlot(Last(Popped(frames))) + 8 <= |w| &&
      LegacyReadAnswer(LegacyPopImage(w, frames), Popped(frames), |answer|) == Ok(answer)
  {
    var n := |frames|;
    CurrentSlotIsCallerSlot(frames);
    LegacyBelowEnd(frames, n - 1);
    assert Last(Popped(frames)) == frames[n - 2];
    var w := LegacyWriteAnswerImage(mem, frames, answer).value;
    var slot := Last(frames).position - 9;
    var p := LegacyPopImage(w, frames);
    assert p[slot .. slot + |answer|] == w[slot .. slot + |answer|];
  }

  // ---------------------------------------------------------------------------
  // The imperative operations
  // ---------------------------------------------------------------------------

  lemma LegacyPrependAssoc(acc: seq<PositionedFrame>, pf: PositionedFrame, rest: Option<seq<PositionedFrame>>)
    ensures LegacyPrepend(acc, LegacyPrepend([pf], rest)) == LegacyPrepend(acc + [pf], rest)
  {
    if rest.Some? {
      assert acc + ([pf] + rest.value) == (acc + [pf]) + rest.value;
    }
  }

  /** Where `read_frame` fails, the scan with frames `acc` already read fails. */
  lemma LegacyScanFails(mem: seq<byte>, offset: nat, acc: seq<PositionedFrame>)
    requires LegacyReadFrame(mem, offset).None?
    ensures LegacyPrepend(acc, LegacyParseFrom(mem, offset)) == None
  {
  }

  /** A frame marked last completes the scan with frames `acc` already read. */
  lemma LegacyScanEnds(mem: seq<byte>, offset: nat, acc: seq<PositionedFrame>)
    requires LegacyReadFrame(mem, offset).Some? && LegacyReadFrame(mem, offset).value.1
    ensures LegacyPrepend(acc, LegacyParseFrom(mem, offset)) == Some(acc + [PositionedFrame(LegacyReadFrame(mem, offset).value.0, offset)])
  {
  }

  /** Past a frame not marked last, the scan goes on right after it. */
  lemma LegacyScanAdvances(mem: seq<byte>, offset: nat, acc: seq<PositionedFrame>, f: Frame)
    requires LegacyReadFrame(mem, offset) == Some((f, false))
    ensures var pf := PositionedFrame(f, offset);
      LegacyPrepend(acc, LegacyParseFrom(mem, offset)) == LegacyPrepend(acc + [pf], LegacyParseFrom(mem, LegacyNext(pf)))
  {
    var pf := PositionedFrame(f, offset);
    LegacyPrependAssoc(acc, pf, LegacyParseFrom(mem, LegacyNext(pf)));
  }

  /** `read_stack`: scan forward from offset 0, frame after packed frame, until one is marked last. */
  method LegacyReadStack(mem: array<byte>) returns (r: Option<seq<PositionedFrame>>)
    ensures r == LegacyParse(mem[..])
  {
    var m := mem[..];
    ghost var whole := LegacyParse(m);
    var cur: nat := 0;
    var acc: seq<PositionedFrame> := [];
    if whole.Some? {
      assert acc + whole.value == whole.value;
    }
    while true
      invariant whole == LegacyPrepend(acc, LegacyParseFrom(m, cur))
      decreases |m| - cur
    {
      match LegacyReadFrame(m, cur)
      case None =>
        LegacyScanFails(m, cur, acc);
        return None;
      case Some((f, last)) =>
        var pf := PositionedFrame(f, cur);
        if last {
          LegacyScanEnds(m, cur, acc);
          return Some(acc + [pf]);
        }
        LegacyScanAdvances(m, cur, acc, f);
        acc := acc + [pf];
        cur := LegacyNext(pf);
    }
  }

  /** The first two region writes of `add_new_frame`: the fields, then 0x1 as the frame's marker. */
  method LegacyWriteUnlinked(mem: array<byte>, frames: seq<PositionedFrame>, frame: Frame)
    requires LegacyPushFits(mem.Length, frames, frame)
    modifies mem
    ensures mem[..] == LegacyUnlinkedImage(old(mem[..]), frames, frame)
  {
    var newFrameOffset := LegacyStackEnd(frames);
    CopyInto(mem, newFrameOffset, LegacyFields(frame));
    CopyInto(mem, newFrameOffset + FrameSize(frame) - 1, [LEGACY_STACK_END]);
  }

  /** The region writes of `add_new_frame`: fields, then 0x1 as the frame's marker, then 0x0 before it unless it is the first. */
  method LegacyWriteFrame(mem: array<byte>, frames: seq<PositionedFrame>, frame: Frame)
    requires LegacyPushFits(mem.Length, frames, frame)
    modifies mem
    ensures mem[..] == LegacyPushImage(old(mem[..]), frames, frame)
  {
    LegacyWriteUnlinked(mem, frames, frame);
    var newFrameOffset := LegacyStackEnd(frames);
    if newFrameOffset != 0 {
      CopyInto(mem, newFrameOffset - 1, [LEGACY_FRAME_END]);
    }
  }

  /** `add_new_frame`: push `(frame, stack end)` on the RAM stack, then write the frame. */
  method LegacyAddNewFrame(stack: RamStack, frame: Frame, mem: array<byte>)
    requires LegacyPushFits(mem.Length, stack.frames, frame)
    modifies stack, mem
    ensures stack.frames == LegacyPushed(old(stack.frames), frame)
    ensures mem[..] == LegacyPushImage(old(mem[..]), old(stack.frames), frame)
  {
    var before := stack.frames;
    stack.AddFrame(PositionedFrame(frame, LegacyStackEnd(before)));
    LegacyWriteFrame(mem, before, frame);
  }

  /** `remove_frame`: refuse the root frame; otherwise pop and write 0x1 just before the popped frame. */
  method LegacyRemoveFrame(stack: RamStack, mem: array<byte>) returns (r: Outcome)
    requires stack.frames != [] && (|stack.frames| >= 2 ==> 1 <= Last(stack.frames).position <= mem.Length)
    modifies stack, mem
    ensures |old(stack.frames)| == 1 ==> r == Failed(FirstFrameRemoval) && stack.frames == old(stack.frames) && mem[..] == old(mem[..])
    ensures |old(stack.frames)| >= 2 ==>
      r == Done && stack.frames == Popped(old(stack.frames)) && mem[..] == LegacyPopImage(old(mem[..]), old(stack.frames))
  {
    if |stack.frames| == 1 {
      return Failed(FirstFrameRemoval);
    }
    var lastFrame := Last(stack.frames);
    stack.RemoveFrame();
    CopyInto(mem, lastFrame.position - 1, [LEGACY_STACK_END]);
    return Done;
  }

  /** `write_answer`: copy the answer to `top.position - 9`. */
  method LegacyWriteAnswer(stack: RamStack, mem: array<byte>, answer: seq<byte>) returns (r: Outcome)
    requires stack.frames != [] && (|stack.frames| >= 2 ==> 9 <= Last(stack.frames).position <= mem.Length)
    modifies mem
    ensures LegacyWriteAnswerImage(old(mem[..]), stack.frames, answer).Err? ==>
      r == Failed(LegacyWriteAnswerImage(old(mem[..]), stack.frames, answer).error) && mem[..] == old(mem[..])
    ensures LegacyWriteAnswerImage(old(mem[..]), stack.frames, answer).Ok? ==>
      r == Done && mem[..] == LegacyWriteAnswerImage(old(mem[..]), stack.frames, answer).value
  {
    if |answer| < 1 || |answer| > 8 {
      return Failed(AnswerSizeInvalid);
    }
    if |stack.frames| == 1 {
      return Failed(NoCallerFrame);
    }
    var answerOffset := Last(stack.frames).position - 9;
    CopyInto(mem, answerOffset, answer);
    return Done;
  }

  // ---------------------------------------------------------------------------
  // do_call of this revision
  // ---------------------------------------------------------------------------

  datatype LegacyCallState = LegacyCallState(outcome: Outcome, invoked: Option<Call.Entry>, frames: seq<PositionedFrame>, mem: seq<byte>)

  /**
   * `do_call` of this revision: push, look the entry up (normal or recovery, with no mode check),
   * run it, pop. An unknown name raises after the push.
   */
  function LegacyDoCallSpec(mem: seq<byte>, frames: seq<PositionedFrame>, registry: set<seq<byte>>,
                            callees: (Call.Entry, seq<byte>) -> Call.Behaviour, name: seq<byte>, args: seq<byte>,
                            callRecover: bool): LegacyCallState
    requires frames == [] || LegacyMirrors(mem, frames)
    requires LegacyEncodable(Frame(name, args)) && LegacyPushFits(|mem|, frames, Frame(name, args))
  {
    LegacyPushMirrors(mem, frames, Frame(name, args));
    LegacyDispatchSpec(LegacyPushImage(mem, frames, Frame(name, args)), frames, registry, callees, name, args, callRecover)
  }

  /** The part of `do_call` after the push: the registry lookup, the callee, its answer, the pop. */
  function LegacyDispatchSpec(m: seq<byte>, frames: seq<PositionedFrame>, registry: set<seq<byte>>,
                              callees: (Call.Entry, seq<byte>) -> Call.Behaviour, name: seq<byte>, args: seq<byte>,
                              callRecover: bool): LegacyCallState
    requires LegacyMirrors(m, LegacyPushed(frames, Frame(name, args)))
  {
    var pushed := LegacyPushed(frames, Frame(name, args));
    if name !in registry then LegacyCallState(Failed(UnknownFunction), None, pushed, m)
    else
      var entry := Call.Entry(name, callRecover);
      match callees(entry, args)
      case Crashes => LegacyCallState(Crashed, Some(entry), pushed, m)
      case Returns(answer) =>
        if |pushed| == 1 then
          var outcome := if answer.Some? && LegacyAnswerSize(|answer.value|) then Failed(NoCallerFrame)
                         else if answer.Some? then Failed(AnswerSizeInvalid) else Failed(FirstFrameRemoval);
          LegacyCallState(outcome, Some(entry), pushed, m)
        else
          LegacyReturnSpec(m, pushed, answer, entry)
  }

  /** A callee that returned, with more than one frame on the stack: its optional answer, then the pop. */
  function LegacyReturnSpec(m: seq<byte>, pushed: seq<PositionedFrame>, answer: Option<seq<byte>>, entry: Call.Entry): LegacyCallState
    requires LegacyMirrors(m, pushed) && |pushed| >= 2
  {
    if answer.Some? && !LegacyAnswerSize(|answer.value|) then LegacyCallState(Failed(AnswerSizeInvalid), Some(entry), pushed, m)
    else
      LegacyAnswerKeepsMirror(m, pushed, if answer.Some? then answer.value else [0]);
      var written := if answer.Some? then LegacyWriteAnswerImage(m, pushed, answer.value).value else m;
      LegacyPopMirrors(written, pushed);
      LegacyCallState(Done, Some(entry), Popped(pushed), LegacyPopImage(written, pushed))
  }

  /** `do_call` of this revision. */
  method LegacyDoCall(stack: RamStack, mem: array<byte>, registry: set<seq<byte>>,
                      callees: (Call.Entry, seq<byte>) -> Call.Behaviour, name: seq<byte>, args: seq<byte>, callRecover: bool)
    returns (r: Outcome, invoked: Option<Call.Entry>)
    requires stack.frames == [] || LegacyMirrors(mem[..], stack.frames)
    requires LegacyEncodable(Frame(name, args)) && LegacyPushFits(mem.Length, stack.frames, Frame(name, args))
    modifies stack, mem
    ensures LegacyCallState(r, invoked, stack.frames, mem[..])
         == LegacyDoCallSpec(old(mem[..]), old(stack.frames), registry, callees, name, args, callRecover)
  {
    ghost var frames := stack.frames;
    var f := Frame(name, args);
    LegacyPushMirrors(mem[..], frames, f);
    LegacyAddNewFrame(stack, f, mem);
    r, invoked := LegacyDispatch(stack, mem, frames, registry, callees, name, args, callRecover);
  }

  /** The part of `do_call` after the push. */
  method LegacyDispatch(stack: RamStack, mem: array<byte>, ghost frames: seq<PositionedFrame>, registry: set<seq<byte>>,
                        callees: (Call.Entry, seq<byte>) -> Call.Behaviour, name: seq<byte>, args: seq<byte>, callRecover: bool)
    returns (r: Outcome, invoked: Option<Call.Entry>)
    requires stack.frames == LegacyPushed(frames, Frame(name, args)) && LegacyMirrors(mem[..], stack.frames)
    modifies stack, mem
    ensures LegacyCallState(r, invoked, stack.frames, mem[..])
         == LegacyDispatchSpec(old(mem[..]), frames, registry, callees, name, args, callRecover)
  {
    if name !in registry {
      return Failed(UnknownFunction), None;
    }
    var entry := Call.Entry(name, callRecover);
    var behaviour := callees(entry, args);
    if behaviour.Crashes? {
      return Crashed, Some(entry);
    }
    invoked := Some(entry);
    if |stack.frames| == 1 {
      if behaviour.answer.Some? {
        r := LegacyWriteAnswer(stack, mem, behaviour.answer.value);
      } else {
        r := LegacyRemoveFrame(stack, mem);
      }
      return;
    }
    r := LegacyReturn(stack, mem, behaviour.answer, entry);
  }

  /** A callee returned with more than one frame on the stack: write its answer, if any, then pop. */
  method LegacyReturn(stack: RamStack, mem: array<byte>, answer: Option<seq<byte>>, ghost entry: Call.Entry) returns (r: Outcome)
    requires LegacyMirrors(mem[..], stack.frames) && |stack.frames| >= 2
    modifies stack, mem
    ensures LegacyCallState(r, Some(entry), stack.frames, mem[..]) == LegacyReturnSpec(old(mem[..]), old(stack.frames), answer, entry)
  {
    LegacyAnswerKeepsMirror(mem[..], stack.frames, [0]);
    if answer.Some? {
      var written := LegacyWriteAnswer(stack, mem, answer.value);
      if written.Failed? {
        return written;
      }
    }
    r := LegacyRemoveFrame(stack, mem);
  }

  /**
   * A completed call is balanced: the RAM stack is as before, the region mirrors it, and the
   * answer the callee wrote is what the caller's `read_answer` returns.
   */
  lemma LegacyCompletedCallIsBalanced(mem: seq<byte>, frames: seq<PositionedFrame>, registry: set<seq<byte>>,
                                      callees: (Call.Entry, seq<byte>) -> Call.Behaviour, name: seq<byte>, args: seq<byte>,
                                      callRecover: bool)
    requires LegacyMirrors(mem, frames)
    requires LegacyEncodable(Frame(name, args)) && LegacyPushFits(|mem|, frames, Frame(name, args))
    ensures var s := LegacyDoCallSpec(mem, frames, registry, callees, name, args, callRecover);
      s.outcome == Done ==>
        s.frames == frames && LegacyMirrors(s.mem, frames) && s.invoked == Some(Call.Entry(name, callRecover)) &&
        var b := callees(Call.Entry(name, callRecover), args);
        (b.Returns? && b.answer.Some? ==>
           AnswerSlot(Last(frames)) + 8 <= |s.mem| && LegacyReadAnswer(s.mem, frames, |b.answer.value|) == Ok(b.answer.value))
  {
    var f := Frame(name, args);
    var s := LegacyDoCallSpec(mem, frames, registry, callees, name, args, callRecover);
    var pushed := LegacyPushed(frames, f);
    var m := LegacyPushImage(mem, frames, f);
    if s.outcome == Done {
      LegacyPushMirrors(mem, frames, f);
      assert Popped(pushed) == frames;
      var b := callees(Call.Entry(name, callRecover), args);
      if b.answer.Some? {
        LegacyMirrorsShape(m, pushed);
        LegacyAnswerReachesCaller(m, pushed, b.answer.value);
        LegacyAnswerKeepsMirror(m, pushed, b.answer.value);
        LegacyPopMirrors(LegacyWriteAnswerImage(m, pushed, b.answer.value).value, pushed);
      } else {
        LegacyPopMirrors(m, pushed);
      }
    }
  }
}
