/**
 * The persistent call stack of the aligned revision (code/persistent_stack/persistent_stack.cpp)
 * and the `ram_stack` queries it relies on. Frames start on cache-line boundaries; each ends
 * with a marker byte that is STACK_END_MARKER on the top frame and FRAME_END_MARKER below it.
 */
module PersistentStack {
  import opened Bytes
  import opened Errors
  import opened PmemUtils
  import opened StackFrame
  import opened RamStacks

  const STACK_END_MARKER: byte := 1
  const FRAME_END_MARKER: byte := 0

  /** Name and argument lengths are stored as u16. */
  const FIELD_LIMIT: nat := 65536

  predicate Encodable(f: Frame)
  {
    |f.functionName| < FIELD_LIMIT && |f.args| < FIELD_LIMIT
  }

  /** An answer (or answer filler) may be 1 to 8 bytes long. */
  predicate ValidAnswerSize(n: nat)
  {
    1 <= n <= 8
  }

  predicate ValidFiller(filler: Option<seq<byte>>)
  {
    filler.None? || ValidAnswerSize(|filler.value|)
  }

  // ---------------------------------------------------------------------------
  // ram_stack queries
  // ---------------------------------------------------------------------------

  /** `ram_stack::get_stack_end`: first byte after the top frame, 0 for an empty stack. */
  function StackEnd(frames: seq<PositionedFrame>): nat
  {
    if frames == [] then 0 else Last(frames).position + Size(Last(frames).frame)
  }

  /** `ram_stack::get_answer_position`: the caller (second-to-last) frame's answer slot. */
  function AnswerPosition(frames: seq<PositionedFrame>): nat
    requires |frames| >= 2
  {
    frames[|frames| - 2].position
  }

  /** Where the next frame starts: the aligned end of `pf`. */
  function NextPosition(pf: PositionedFrame): nat
  {
    AlignUp(pf.position + Size(pf.frame))
  }

  // ---------------------------------------------------------------------------
  // Frame codec
  // ---------------------------------------------------------------------------

  /** The bytes between the answer slot and the end marker. */
  function EncodeFields(f: Frame): (r: seq<byte>)
    ensures |r| == Size(f) - ANSWER_BYTES - MARKER_BYTES
  {
    LeEncode(|f.functionName|, 2) + f.functionName + LeEncode(|f.args|, 2) + f.args
  }

  /** Offset of a frame's end marker byte. */
  function MarkerOffset(pf: PositionedFrame): nat
  {
    pf.position + Size(pf.frame) - 1
  }

  /** `f` is encoded at `pos` (answer slot and marker byte excluded). */
  ghost predicate FrameAt(mem: seq<byte>, pos: nat, f: Frame)
  {
    Encodable(f) && pos + Size(f) <= |mem| &&
    mem[pos + ANSWER_BYTES .. pos + Size(f) - MARKER_BYTES] == EncodeFields(f)
  }

  /**
   * `read_frame`: skip the answer, read a u16 name length and the name, a u16 argument length
   * and the arguments, then one marker byte. None where the source would read past the region.
   */
  function ReadFrame(mem: seq<byte>, offset: nat): (r: Option<(Frame, bool)>)
    ensures r.Some? ==> Encodable(r.value.0) && offset + Size(r.value.0) <= |mem|
  {
    var nameAt := offset + ANSWER_BYTES + LENGTH_BYTES;
    if nameAt > |mem| then None
    else
      var nameLen := LeDecode(mem[nameAt - LENGTH_BYTES .. nameAt]);
      var argsAt := nameAt + nameLen + LENGTH_BYTES;
      if argsAt > |mem| then None
      else
        var argsLen := LeDecode(mem[argsAt - LENGTH_BYTES .. argsAt]);
        var markerAt := argsAt + argsLen;
        if markerAt >= |mem| then None
        else
          var f := Frame(mem[nameAt .. nameAt + nameLen], mem[argsAt .. markerAt]);
          Some((f, mem[markerAt] == STACK_END_MARKER))
  }

  /** The four fields of an encoding, located by the two length prefixes. */
  lemma EncodeFieldsParts(f: Frame)
    ensures var e, n := EncodeFields(f), |f.functionName|;
      e[..2] == LeEncode(n, 2) && e[2 .. 2 + n] == f.functionName &&
      e[2 + n .. 4 + n] == LeEncode(|f.args|, 2) && e[4 + n ..] == f.args
  {
    var n := |f.functionName|;
    var e := EncodeFields(f);
    var p1 := LeEncode(n, 2) + f.functionName;
    var p2 := p1 + LeEncode(|f.args|, 2);
    assert e == p2 + f.args;
    assert e[..4 + n] == p2 && p2[..2 + n] == p1;
  }

  lemma SubSlice(mem: seq<byte>, b: nat, e: seq<byte>, i: nat, j: nat)
    requires b + |e| <= |mem| && mem[b .. b + |e|] == e && i <= j <= |e|
    ensures mem[b + i .. b + j] == e[i .. j]
  {
    forall k | b + i <= k < b + j ensures mem[k] == e[k - b] {
      assert mem[b .. b + |e|][k - b] == mem[k];
    }
  }

  lemma U16Field(mem: seq<byte>, at: nat, x: nat)
    requires at + 2 <= |mem| && mem[at .. at + 2] == LeEncode(x, 2) && x < FIELD_LIMIT
    ensures LeDecode(mem[at .. at + 2]) == x
  {
    DecodeEncode(x, 2);
  }

  /** `read_frame` once both length fields are known and the marker byte lies in the region. */
  lemma ReadFrameOfFields(mem: seq<byte>, pos: nat, n: nat, a: nat)
    requires pos + ANSWER_BYTES + 2 * LENGTH_BYTES + n + a < |mem|
    requires LeDecode(mem[pos + 8 .. pos + 10]) == n && LeDecode(mem[pos + 10 + n .. pos + 12 + n]) == a
    ensures ReadFrame(mem, pos)
         == Some((Frame(mem[pos + 10 .. pos + 10 + n], mem[pos + 12 + n .. pos + 12 + n + a]), mem[pos + 12 + n + a] == STACK_END_MARKER))
  {
  }

  /** The length fields and byte strings of an encoded frame, located in the region. */
  lemma EncodedFields(mem: seq<byte>, pos: nat, f: Frame)
    requires FrameAt(mem, pos, f)
    ensures var n, a := |f.functionName|, |f.args|;
      pos + 12 + n + a < |mem| &&
      LeDecode(mem[pos + 8 .. pos + 10]) == n && LeDecode(mem[pos + 10 + n .. pos + 12 + n]) == a &&
      mem[pos + 10 .. pos + 10 + n] == f.functionName && mem[pos + 12 + n .. pos + 12 + n + a] == f.args
  {
    var n, a := |f.functionName|, |f.args|;
    var e := EncodeFields(f);
    var b := pos + ANSWER_BYTES;
    assert |e| == n + a + 4 && b + |e| <= |mem| && mem[b .. b + |e|] == e;
    EncodeFieldsParts(f);
    SubSlice(mem, b, e, 0, 2);
    U16Field(mem, b, n);
    SubSlice(mem, b, e, 2, 2 + n);
    SubSlice(mem, b, e, 2 + n, 4 + n);
    U16Field(mem, b + 2 + n, a);
    SubSlice(mem, b, e, 4 + n, |e|);
  }

  /** Reading an encoded frame gives it back; `is_last` holds iff its marker is STACK_END_MARKER. */
  lemma ReadFrameOfEncoded(mem: seq<byte>, pos: nat, f: Frame)
    requires FrameAt(mem, pos, f)
    ensures ReadFrame(mem, pos) == Some((f, mem[MarkerOffset(PositionedFrame(f, pos))] == STACK_END_MARKER))
  {
    var n, a := |f.functionName|, |f.args|;
    EncodedFields(mem, pos, f);
    ReadFrameOfFields(mem, pos, n, a);
    assert Frame(mem[pos + 10 .. pos + 10 + n], mem[pos + 12 + n .. pos + 12 + n + a]) == f;
    assert MarkerOffset(PositionedFrame(f, pos)) == pos + 12 + n + a;
  }

  /** A frame `read_frame` accepts has both length fields and its marker byte inside the region. */
  lemma ReadFrameBounds(mem: seq<byte>, pos: nat)
    requires ReadFrame(mem, pos).Some?
    ensures pos + 10 <= |mem|
    ensures var n := LeDecode(mem[pos + 8 .. pos + 10]);
      pos + 12 + n <= |mem| && pos + 12 + n + LeDecode(mem[pos + 10 + n .. pos + 12 + n]) < |mem|
  {
  }

  /** The bytes after the answer slot through the arguments are the fields their length fields describe. */
  lemma SlicesAreFields(mem: seq<byte>, pos: nat, n: nat, a: nat)
    requires pos + 12 + n + a <= |mem|
    requires LeDecode(mem[pos + 8 .. pos + 10]) == n && LeDecode(mem[pos + 10 + n .. pos + 12 + n]) == a
    ensures mem[pos + 8 .. pos + 12 + n + a] == EncodeFields(Frame(mem[pos + 10 .. pos + 10 + n], mem[pos + 12 + n .. pos + 12 + n + a]))
  {
    EncodeDecode(mem[pos + 8 .. pos + 10]);
    EncodeDecode(mem[pos + 10 + n .. pos + 12 + n]);
    SliceSplit4(mem, pos + 8, pos + 10, pos + 10 + n, pos + 12 + n, pos + 12 + n + a);
  }

  /** Whatever `read_frame` returns is encoded where it was read: the decoder accepts only encodings. */
  lemma ReadFrameIsEncoded(mem: seq<byte>, pos: nat)
    requires ReadFrame(mem, pos).Some?
    ensures FrameAt(mem, pos, ReadFrame(mem, pos).value.0)
    ensures ReadFrame(mem, pos).value.1 == (mem[MarkerOffset(PositionedFrame(ReadFrame(mem, pos).value.0, pos))] == STACK_END_MARKER)
  {
    ReadFrameBounds(mem, pos);
    var n := LeDecode(mem[pos + 8 .. pos + 10]);
    var a := LeDecode(mem[pos + 10 + n .. pos + 12 + n]);
    ReadFrameOfFields(mem, pos, n, a);
    var f := Frame(mem[pos + 10 .. pos + 10 + n], mem[pos + 12 + n .. pos + 12 + n + a]);
    assert ReadFrame(mem, pos).value.0 == f;
    SlicesAreFields(mem, pos, n, a);
    var fieldsEnd := pos + 12 + n + a;
    assert pos + Size(f) - MARKER_BYTES == fieldsEnd;
    assert Encodable(f) && pos + Size(f) <= |mem|;
    assert MarkerOffset(PositionedFrame(f, pos)) == fieldsEnd;
  }

  // ---------------------------------------------------------------------------
  // Whole-stack decoding and the mirror invariant
  // ---------------------------------------------------------------------------

  function Prepend(acc: seq<PositionedFrame>, rest: Option<seq<PositionedFrame>>): Option<seq<PositionedFrame>>
  {
    match rest
    case None => None
    case Some(fs) => Some(acc + fs)
  }

  /** The forward scan of `read_stack` from `offset`: frames up to and including the first marked last. */
  function ParseStackFrom(mem: seq<byte>, offset: nat): Option<seq<PositionedFrame>>
    decreases |mem| - offset
  {
    match ReadFrame(mem, offset)
    case None => None
    case Some((f, last)) =>
      var pf := PositionedFrame(f, offset);
      if last then Some([pf])
      else if NextPosition(pf) >= |mem| then None
      else Prepend([pf], ParseStackFrom(mem, NextPosition(pf)))
  }

  /** `read_stack`: the stack the region holds, scanning from offset 0. */
  function ParseStack(mem: seq<byte>): Option<seq<PositionedFrame>>
  {
    ParseStackFrom(mem, 0)
  }

  /** Consecutive frames start at the aligned end of their predecessor. */
  ghost predicate Chained(frames: seq<PositionedFrame>)
  {
    forall i, j :: 0 <= i && j == i + 1 && j < |frames| ==> frames[j].position == NextPosition(frames[i])
  }

  ghost predicate AllFramesAt(mem: seq<byte>, frames: seq<PositionedFrame>)
  {
    forall i :: 0 <= i < |frames| ==> FrameAt(mem, frames[i].position, frames[i].frame)
  }

  ghost predicate MarkerIs(mem: seq<byte>, pf: PositionedFrame, b: byte)
  {
    MarkerOffset(pf) < |mem| && mem[MarkerOffset(pf)] == b
  }

  /** No frame of `frames` carries STACK_END_MARKER. */
  ghost predicate Unmarked(mem: seq<byte>, frames: seq<PositionedFrame>)
  {
    forall i :: 0 <= i < |frames| ==> MarkerOffset(frames[i]) < |mem| && mem[MarkerOffset(frames[i])] != STACK_END_MARKER
  }

  /** `frames` is laid out in `mem`: chained, each encoded, and only the top one marked as the stack end. */
  ghost predicate Laid(mem: seq<byte>, frames: seq<PositionedFrame>)
  {
    frames != [] && Chained(frames) && AllFramesAt(mem, frames) &&
    Unmarked(mem, Popped(frames)) && MarkerIs(mem, Last(frames), STACK_END_MARKER)
  }

  /** The RAM stack `frames` mirrors the durable stack in `mem`. */
  ghost predicate Mirrors(mem: seq<byte>, frames: seq<PositionedFrame>)
  {
    Laid(mem, frames) && frames[0].position == 0
  }

  lemma LaidTail(mem: seq<byte>, frames: seq<PositionedFrame>)
    requires Laid(mem, frames) && |frames| >= 2
    ensures Laid(mem, frames[1..])
  {
    var t := frames[1..];
    forall i, j | 0 <= i && j == i + 1 && j < |t| ensures t[j].position == NextPosition(t[i]) {
      assert t[i] == frames[i + 1] && t[j] == frames[j + 1];
    }
    forall i | 0 <= i < |t| ensures FrameAt(mem, t[i].position, t[i].frame) {
      assert t[i] == frames[i + 1];
    }
    forall i | 0 <= i < |t| - 1 ensures MarkerOffset(t[i]) < |mem| && mem[MarkerOffset(t[i])] != STACK_END_MARKER {
      assert t[i] == Popped(frames)[i + 1];
    }
  }

  lemma LaidCons(mem: seq<byte>, pf: PositionedFrame, rest: seq<PositionedFrame>)
    requires Laid(mem, rest) && FrameAt(mem, pf.position, pf.frame)
    requires MarkerOffset(pf) < |mem| && mem[MarkerOffset(pf)] != STACK_END_MARKER
    requires rest[0].position == NextPosition(pf)
    ensures Laid(mem, [pf] + rest)
  {
    var fs := [pf] + rest;
    forall i, j | 0 <= i && j == i + 1 && j < |fs| ensures fs[j].position == NextPosition(fs[i]) {
      if i > 0 { assert fs[i] == rest[i - 1] && fs[j] == rest[j - 1]; }
    }
    forall i | 0 <= i < |fs| ensures FrameAt(mem, fs[i].position, fs[i].frame) {
      if i > 0 { assert fs[i] == rest[i - 1]; }
    }
    forall i | 0 <= i < |fs| - 1 ensures MarkerOffset(fs[i]) < |mem| && mem[MarkerOffset(fs[i])] != STACK_END_MARKER {
      if i > 0 { assert fs[i] == Popped(rest)[i - 1]; }
    }
    assert Last(fs) == Last(rest);
  }

  lemma LaidSnoc(mem: seq<byte>, frames: seq<PositionedFrame>, pf: PositionedFrame)
    requires frames != [] && Chained(frames) && AllFramesAt(mem, frames) && Unmarked(mem, frames)
    requires FrameAt(mem, pf.position, pf.frame) && MarkerIs(mem, pf, STACK_END_MARKER)
    requires pf.position == NextPosition(Last(frames))
    ensures Laid(mem, frames + [pf])
  {
    var fs := frames + [pf];
    var n := |frames|;
    forall i, j | 0 <= i && j == i + 1 && j < |fs| ensures fs[j].position == NextPosition(fs[i]) {
      if j < n { assert fs[i] == frames[i] && fs[j] == frames[j]; }
    }
    forall i | 0 <= i < |fs| ensures FrameAt(mem, fs[i].position, fs[i].frame) {
      if i < n { assert fs[i] == frames[i]; }
    }
    assert Popped(fs) == frames;
  }

  lemma {:induction false} LaidParses(mem: seq<byte>, frames: seq<PositionedFrame>)
    requires Laid(mem, frames)
    ensures ParseStackFrom(mem, frames[0].position) == Some(frames)
    decreases |frames|
  {
    var pf := frames[0];
    assert FrameAt(mem, pf.position, pf.frame);
    ReadFrameOfEncoded(mem, pf.position, pf.frame);
    if |frames| > 1 {
      assert Popped(frames)[0] == pf;
      assert frames[1].position == NextPosition(pf);
      assert FrameAt(mem, frames[1].position, frames[1].frame);
      LaidTail(mem, frames);
      LaidParses(mem, frames[1..]);
      assert [pf] + frames[1..] == frames;
    } else {
      assert Last(frames) == pf && frames == [pf];
      assert MarkerIs(mem, pf, STACK_END_MARKER);
      assert ReadFrame(mem, pf.position) == Some((pf.frame, true));
    }
  }

  lemma {:induction false} ParsedIsLaid(mem: seq<byte>, offset: nat, frames: seq<PositionedFrame>)
    requires ParseStackFrom(mem, offset) == Some(frames)
    ensures Laid(mem, frames) && frames[0].position == offset
    decreases |mem| - offset
  {
    var f := ReadFrame(mem, offset).value.0;
    var pf := PositionedFrame(f, offset);
    ReadFrameIsEncoded(mem, offset);
    if !ReadFrame(mem, offset).value.1 {
      var rest := ParseStackFrom(mem, NextPosition(pf)).value;
      ParsedIsLaid(mem, NextPosition(pf), rest);
      assert frames == [pf] + rest;
      LaidCons(mem, pf, rest);
    } else {
      assert frames == [pf];
      assert Popped(frames) == [] && Last(frames) == pf && frames[0] == pf;
      assert MarkerIs(mem, pf, STACK_END_MARKER);
    }
  }

  /** `read_stack` rebuilds exactly the RAM stack that the region mirrors, and only such a stack. */
  lemma ParseStackIffMirrors(mem: seq<byte>, frames: seq<PositionedFrame>)
    ensures ParseStack(mem) == Some(frames) <==> Mirrors(mem, frames)
  {
    if Mirrors(mem, frames) {
      LaidParses(mem, frames);
    }
    if ParseStack(mem) == Some(frames) {
      ParsedIsLaid(mem, 0, frames);
    }
  }

  /** Every frame of a chained stack lies below the stack end. */
  lemma {:induction false} FramesBelowEnd(frames: seq<PositionedFrame>, i: nat)
    requires Chained(frames) && i < |frames|
    ensures frames[i].position + Size(frames[i].frame) <= StackEnd(frames)
    decreases |frames| - i
  {
    if i < |frames| - 1 {
      assert frames[i + 1].position == NextPosition(frames[i]);
      FramesBelowEnd(frames, i + 1);
    }
  }

  lemma ChainedPrefix(frames: seq<PositionedFrame>, k: nat)
    requires Chained(frames) && k <= |frames|
    ensures Chained(frames[..k])
  {
    var p := frames[..k];
    forall i, j | 0 <= i && j == i + 1 && j < |p| ensures p[j].position == NextPosition(p[i]) {
      assert p[i] == frames[i] && p[j] == frames[j];
    }
  }

  /**
   * Frames whose bytes below `bound` are untouched stay encoded, and so do the markers of all
   * but the top one, provided the stack end lies at most one byte past `bound`.
   */
  lemma FramesKept(mem: seq<byte>, mem': seq<byte>, frames: seq<PositionedFrame>, bound: nat)
    requires Chained(frames) && AllFramesAt(mem, frames) && |mem'| == |mem|
    requires StackEnd(frames) <= bound + 1 && bound <= |mem|
    requires forall k :: 0 <= k < bound ==> mem'[k] == mem[k]
    ensures AllFramesAt(mem', frames)
    ensures forall i :: 0 <= i < |frames| - 1 ==> mem'[MarkerOffset(frames[i])] == mem[MarkerOffset(frames[i])]
  {
    forall i | 0 <= i < |frames| ensures FrameAt(mem', frames[i].position, frames[i].frame) {
      var p, g := frames[i].position, frames[i].frame;
      FramesBelowEnd(frames, i);
      assert mem'[p + 8 .. p + Size(g) - 1] == mem[p + 8 .. p + Size(g) - 1];
    }
    forall i | 0 <= i < |frames| - 1 ensures mem'[MarkerOffset(frames[i])] == mem[MarkerOffset(frames[i])] {
      assert frames[i + 1].position == NextPosition(frames[i]);
      FramesBelowEnd(frames, i);
      FramesBelowEnd(frames, i + 1);
    }
  }

  // ---------------------------------------------------------------------------
  // Push (add_new_frame) and pop (remove_frame) as region images
  // ---------------------------------------------------------------------------

  /** Offset at which `add_new_frame` places the next frame. */
  function PushPosition(frames: seq<PositionedFrame>): nat
  {
    AlignUp(StackEnd(frames))
  }

  predicate PushFits(memLength: nat, frames: seq<PositionedFrame>, f: Frame)
  {
    PushPosition(frames) + Size(f) <= memLength
  }

  /** What `add_new_frame` writes from the new frame's name-length field through its marker. */
  function FrameBody(f: Frame): (r: seq<byte>)
    ensures |r| == Size(f) - ANSWER_BYTES
  {
    EncodeFields(f) + [STACK_END_MARKER]
  }

  /** The region with the optional answer filler copied into the new frame's answer slot. */
  function WithFiller(mem: seq<byte>, pos: nat, filler: Option<seq<byte>>): (r: seq<byte>)
    requires ValidFiller(filler) && pos + ANSWER_BYTES <= |mem|
    ensures |r| == |mem|
    ensures forall k :: 0 <= k < |mem| && !(pos <= k < pos + ANSWER_BYTES) ==> r[k] == mem[k]
  {
    if filler.Some? then Write(mem, pos, filler.value) else mem
  }

  /** The region after the new frame (and its filler) is written but before the old top is relinked. */
  function UnlinkedPushImage(mem: seq<byte>, frames: seq<PositionedFrame>, f: Frame, filler: Option<seq<byte>>): (r: seq<byte>)
    requires PushFits(|mem|, frames, f) && ValidFiller(filler)
    ensures |r| == |mem|
    ensures forall k :: 0 <= k < PushPosition(frames) ==> r[k] == mem[k]
    ensures r[PushPosition(frames) + ANSWER_BYTES .. PushPosition(frames) + Size(f)] == FrameBody(f)
  {
    var pos := PushPosition(frames);
    Write(WithFiller(mem, pos, filler), pos + ANSWER_BYTES, FrameBody(f))
  }

  /** The region after `add_new_frame`: the unlinked image with the old top's marker set to FRAME_END_MARKER. */
  function PushImage(mem: seq<byte>, frames: seq<PositionedFrame>, f: Frame, filler: Option<seq<byte>>): seq<byte>
    requires PushFits(|mem|, frames, f) && ValidFiller(filler)
  {
    var unlinked := UnlinkedPushImage(mem, frames, f, filler);
    if StackEnd(frames) != 0 then Write(unlinked, StackEnd(frames) - 1, [FRAME_END_MARKER]) else unlinked
  }

  /** The region after `remove_frame`: the new top's marker set back to STACK_END_MARKER. */
  function PopImage(mem: seq<byte>, frames: seq<PositionedFrame>): seq<byte>
    requires |frames| >= 2 && StackEnd(Popped(frames)) <= |mem|
  {
    Write(mem, StackEnd(Popped(frames)) - 1, [STACK_END_MARKER])
  }

  /**
   * Crash before the old top is relinked: the new frame is durable but the scan still stops at
   * the old top's STACK_END_MARKER, so the region reads back as the stack before the push.
   */
  lemma UnlinkedPushReadsOld(mem: seq<byte>, frames: seq<PositionedFrame>, f: Frame, filler: Option<seq<byte>>)
    requires Mirrors(mem, frames) && PushFits(|mem|, frames, f) && ValidFiller(filler)
    ensures ParseStack(UnlinkedPushImage(mem, frames, f, filler)) == Some(frames)
  {
    var u := UnlinkedPushImage(mem, frames, f, filler);
    FramesKept(mem, u, frames, StackEnd(frames));
    FramesBelowEnd(frames, |frames| - 1);
    assert Popped(frames) == frames[..|frames| - 1];
    ParseStackIffMirrors(u, frames);
  }

  /** The new frame is encoded in the pushed image and carries STACK_END_MARKER. */
  lemma PushNewFrame(mem: seq<byte>, frames: seq<PositionedFrame>, f: Frame, filler: Option<seq<byte>>)
    requires PushFits(|mem|, frames, f) && Encodable(f) && ValidFiller(filler)
    ensures var pf, m := PositionedFrame(f, PushPosition(frames)), PushImage(mem, frames, f, filler);
      FrameAt(m, pf.position, f) && MarkerIs(m, pf, STACK_END_MARKER)
  {
    var pos := PushPosition(frames);
    var u := UnlinkedPushImage(mem, frames, f, filler);
    var m := PushImage(mem, frames, f, filler);
    assert m[pos + 8 .. pos + Size(f)] == u[pos + 8 .. pos + Size(f)];
    assert m[pos + 8 .. pos + Size(f) - 1] == EncodeFields(f);
  }

  /** Relinking keeps the old frames encoded and leaves none of them marked as the stack end. */
  lemma PushKeepsOldFrames(mem: seq<byte>, frames: seq<PositionedFrame>, f: Frame, filler: Option<seq<byte>>)
    requires Mirrors(mem, frames)
    requires PushFits(|mem|, frames, f) && ValidFiller(filler)
    ensures AllFramesAt(PushImage(mem, frames, f, filler), frames)
    ensures Unmarked(PushImage(mem, frames, f, filler), frames)
  {
    var m := PushImage(mem, frames, f, filler);
    var u := UnlinkedPushImage(mem, frames, f, filler);
    var n := |frames|;
    FramesKept(mem, u, frames, StackEnd(frames));
    FramesKept(u, m, frames, StackEnd(frames) - 1);
    forall i | 0 <= i < n ensures MarkerOffset(frames[i]) < |m| && m[MarkerOffset(frames[i])] != STACK_END_MARKER {
      FramesBelowEnd(frames, i);
      if i < n - 1 {
        assert frames[i] == Popped(frames)[i];
      }
    }
  }

  /** After `add_new_frame` the region mirrors the RAM stack with the new frame on top. */
  lemma PushMirrors(mem: seq<byte>, frames: seq<PositionedFrame>, f: Frame, filler: Option<seq<byte>>)
    requires frames == [] || Mirrors(mem, frames)
    requires PushFits(|mem|, frames, f) && Encodable(f) && ValidFiller(filler)
    ensures Mirrors(PushImage(mem, frames, f, filler), frames + [PositionedFrame(f, PushPosition(frames))])
  {
    var pf := PositionedFrame(f, PushPosition(frames));
    var m := PushImage(mem, frames, f, filler);
    PushNewFrame(mem, frames, f, filler);
    if frames == [] {
      assert frames + [pf] == [pf];
      assert Popped([pf]) == [] && Last([pf]) == pf;
      assert AllFramesAt(m, [pf]);
      assert Laid(m, [pf]);
    } else {
      PushKeepsOldFrames(mem, frames, f, filler);
      assert pf.position == NextPosition(Last(frames));
      LaidSnoc(m, frames, pf);
      assert (frames + [pf])[0] == frames[0];
    }
  }

  /** The filler of `add_new_frame` occupies the first bytes of the new frame (its answer slot). */
  lemma PushFillerInSlot(mem: seq<byte>, frames: seq<PositionedFrame>, f: Frame, filler: seq<byte>)
    requires PushFits(|mem|, frames, f) && ValidAnswerSize(|filler|)
    ensures PushImage(mem, frames, f, Some(filler))[PushPosition(frames) .. PushPosition(frames) + |filler|] == filler
  {
    var pos := PushPosition(frames);
    var w := WithFiller(mem, pos, Some(filler));
    var m := PushImage(mem, frames, f, Some(filler));
    forall k | pos <= k < pos + |filler| ensures m[k] == filler[k - pos] {
      assert w[k] == filler[k - pos];
    }
  }

  /** After `remove_frame` the region mirrors the popped RAM stack; only the new top's marker byte changed. */
  lemma PopMirrors(mem: seq<byte>, frames: seq<PositionedFrame>)
    requires Mirrors(mem, frames) && |frames| >= 2
    ensures StackEnd(Popped(frames)) <= |mem|
    ensures Mirrors(PopImage(mem, frames), Popped(frames))
  {
    var n := |frames|;
    var p := Popped(frames);
    assert p[n - 2] == frames[n - 2];
    assert FrameAt(mem, frames[n - 2].position, frames[n - 2].frame);
    var m := PopImage(mem, frames);
    ChainedPrefix(frames, n - 1);
    forall i | 0 <= i < |p| ensures FrameAt(mem, p[i].position, p[i].frame) {
      assert p[i] == frames[i];
    }
    FramesKept(mem, m, p, StackEnd(p) - 1);
    forall i | 0 <= i < |p| - 1 ensures MarkerOffset(Popped(p)[i]) < |m| && m[MarkerOffset(Popped(p)[i])] != STACK_END_MARKER {
      assert Popped(p)[i] == p[i] && p[i] == Popped(frames)[i];
    }
  }

  // ---------------------------------------------------------------------------
  // Any push/pop history
  // ---------------------------------------------------------------------------

  datatype StackOp = Push(frame: Frame, filler: Option<seq<byte>>) | Pop

  /** One protocol step on (region, RAM stack); None where the source raises or writes outside the region. */
  function Step(mem: seq<byte>, frames: seq<PositionedFrame>, op: StackOp): Option<(seq<byte>, seq<PositionedFrame>)>
  {
    match op
    case Push(f, filler) =>
      if PushFits(|mem|, frames, f) && Encodable(f) && ValidFiller(filler)
      then Some((PushImage(mem, frames, f, filler), frames + [PositionedFrame(f, PushPosition(frames))]))
      else None
    case Pop =>
      if |frames| >= 2 && StackEnd(Popped(frames)) <= |mem|
      then Some((PopImage(mem, frames), Popped(frames)))
      else None
  }

  function Run(mem: seq<byte>, frames: seq<PositionedFrame>, ops: seq<StackOp>): Option<(seq<byte>, seq<PositionedFrame>)>
    decreases |ops|
  {
    if ops == [] then Some((mem, frames))
    else match Step(mem, frames, ops[0])
      case None => None
      case Some((m, fs)) => Run(m, fs, ops[1..])
  }

  lemma StepMirrors(mem: seq<byte>, frames: seq<PositionedFrame>, op: StackOp)
    requires frames == [] || Mirrors(mem, frames)
    requires Step(mem, frames, op).Some?
    ensures Mirrors(Step(mem, frames, op).value.0, Step(mem, frames, op).value.1)
  {
    match op
    case Push(f, filler) => PushMirrors(mem, frames, f, filler);
    case Pop => PopMirrors(mem, frames);
  }

  /** After any push/pop history that never pops the root, `read_stack` returns the RAM stack. */
  lemma {:induction false} RunMirrors(mem: seq<byte>, frames: seq<PositionedFrame>, ops: seq<StackOp>)
    requires frames == [] || Mirrors(mem, frames)
    requires Run(mem, frames, ops).Some?
    ensures Run(mem, frames, ops).value.1 != [] ==> ParseStack(Run(mem, frames, ops).value.0) == Some(Run(mem, frames, ops).value.1)
    decreases |ops|
  {
    if ops == [] {
      if frames != [] { ParseStackIffMirrors(mem, frames); }
    } else {
      var next := Step(mem, frames, ops[0]).value;
      StepMirrors(mem, frames, ops[0]);
      RunMirrors(next.0, next.1, ops[1..]);
    }
  }

  // ---------------------------------------------------------------------------
  // The imperative operations
  // ---------------------------------------------------------------------------

  lemma PrependAssoc(acc: seq<PositionedFrame>, pf: PositionedFrame, rest: Option<seq<PositionedFrame>>)
    ensures Prepend(acc, Prepend([pf], rest)) == Prepend(acc + [pf], rest)
  {
    if rest.Some? {
      assert acc + ([pf] + rest.value) == (acc + [pf]) + rest.value;
    }
  }

  /** Where `read_frame` fails, the scan with frames `acc` already read fails. */
  lemma ScanFails(mem: seq<byte>, offset: nat, acc: seq<PositionedFrame>)
    requires ReadFrame(mem, offset).None?
    ensures Prepend(acc, ParseStackFrom(mem, offset)) == None
  {
  }

  /** A frame marked as the stack end completes the scan with frames `acc` already read. */
  lemma ScanEnds(mem: seq<byte>, offset: nat, acc: seq<PositionedFrame>)
    requires ReadFrame(mem, offset).Some? && ReadFrame(mem, offset).value.1
    ensures Prepend(acc, ParseStackFrom(mem, offset)) == Some(acc + [PositionedFrame(ReadFrame(mem, offset).value.0, offset)])
  {
  }

  /** Past a frame not marked as the end, the scan goes on at its aligned end, or fails if that is outside the region. */
  lemma ScanAdvances(mem: seq<byte>, offset: nat, acc: seq<PositionedFrame>)
    requires ReadFrame(mem, offset).Some? && !ReadFrame(mem, offset).value.1
    ensures var pf := PositionedFrame(ReadFrame(mem, offset).value.0, offset);
      Prepend(acc, ParseStackFrom(mem, offset))
        == if NextPosition(pf) >= |mem| then None else Prepend(acc + [pf], ParseStackFrom(mem, NextPosition(pf)))
  {
    var pf := PositionedFrame(ReadFrame(mem, offset).value.0, offset);
    if NextPosition(pf) < |mem| {
      PrependAssoc(acc, pf, ParseStackFrom(mem, NextPosition(pf)));
    }
  }

  /** `read_stack`: scan forward from offset 0 until a frame marked as the stack end. */
  method ReadStack(mem: array<byte>) returns (r: Option<seq<PositionedFrame>>)
    ensures r == ParseStack(mem[..])
  {
    var m := mem[..];
    ghost var whole := ParseStack(m);
    var cur: nat := 0;
    var acc: seq<PositionedFrame> := [];
    if whole.Some? {
      assert acc + whole.value == whole.value;
    }
    while true
      invariant whole == Prepend(acc, ParseStackFrom(m, cur))
      decreases |m| - cur
    {
      var read := ReadFrame(m, cur);
      if read.None? {
        ScanFails(m, cur, acc);
        return None;
      }
      var f, last := read.value.0, read.value.1;
      var pf := PositionedFrame(f, cur);
      if last {
        ScanEnds(m, cur, acc);
        return Some(acc + [pf]);
      }
      var next := NextPosition(pf);
      ScanAdvances(m, cur, acc);
      if next >= |m| {
        return None;
      }
      acc := acc + [pf];
      cur := next;
    }
  }

  lemma WriteAdjacent(s: seq<byte>, off: nat, a: seq<byte>, b: seq<byte>)
    requires off + |a| + |b| <= |s|
    ensures Write(Write(s, off, a), off + |a|, b) == Write(s, off, a + b)
  {
    assert Write(Write(s, off, a), off + |a|, b) == s[..off] + (a + b) + s[off + |a| + |b|..];
  }

  /** Copy one more piece of the frame body after the `done` bytes already written at `off`. */
  method AppendPiece(mem: array<byte>, ghost base: seq<byte>, off: nat, done: seq<byte>, piece: seq<byte>)
    requires off + |done| + |piece| <= |base| == mem.Length
    requires mem[..] == Write(base, off, done)
    modifies mem
    ensures mem[..] == Write(base, off, done + piece)
  {
    CopyInto(mem, off + |done|, piece);
    WriteAdjacent(base, off, done, piece);
  }

  /** Field by field, the bytes `add_new_frame` writes after the answer slot. */
  method WriteFrameBody(mem: array<byte>, off: nat, frame: Frame)
    requires Encodable(frame) && off + |FrameBody(frame)| <= mem.Length
    modifies mem
    ensures mem[..] == Write(old(mem[..]), off, FrameBody(frame))
  {
    ghost var base := mem[..];
    var name, args := frame.functionName, frame.args;
    var nameLen, argsLen := LeEncode(|name|, 2), LeEncode(|args|, 2);
    var d1 := nameLen;
    var d2 := d1 + name;
    var d3 := d2 + argsLen;
    var d4 := d3 + args;
    assert mem[..] == Write(base, off, []);
    assert [] + nameLen == d1;
    AppendPiece(mem, base, off, [], nameLen);
    AppendPiece(mem, base, off, d1, name);
    AppendPiece(mem, base, off, d2, argsLen);
    AppendPiece(mem, base, off, d3, args);
    AppendPiece(mem, base, off, d4, [STACK_END_MARKER]);
    assert d4 == EncodeFields(frame);
  }

  /** The unlinked push is the filler write followed by the body write. */
  lemma UnlinkedInTwoWrites(mem: seq<byte>, frames: seq<PositionedFrame>, f: Frame, filler: Option<seq<byte>>)
    requires PushFits(|mem|, frames, f) && ValidFiller(filler)
    ensures var pos := PushPosition(frames);
      UnlinkedPushImage(mem, frames, f, filler) == Write(WithFiller(mem, pos, filler), pos + ANSWER_BYTES, FrameBody(f))
  {
  }

  /** Filler, fields and STACK_END_MARKER of the new frame, before the old top is relinked. */
  method WriteUnlinked(mem: array<byte>, frames: seq<PositionedFrame>, frame: Frame, newAnsFiller: Option<seq<byte>>)
    requires Encodable(frame) && PushFits(mem.Length, frames, frame) && ValidFiller(newAnsFiller)
    modifies mem
    ensures mem[..] == UnlinkedPushImage(old(mem[..]), frames, frame, newAnsFiller)
  {
    ghost var m0 := mem[..];
    var pos := PushPosition(frames);
    UnlinkedInTwoWrites(m0, frames, frame, newAnsFiller);
    if newAnsFiller.Some? {
      CopyInto(mem, pos, newAnsFiller.value);
      assert mem[..] == WithFiller(m0, pos, newAnsFiller);
    }
    WriteFrameBody(mem, pos + ANSWER_BYTES, frame);
  }

  /** The region writes of `add_new_frame` once the filler has been checked. */
  method WriteNewFrame(mem: array<byte>, frames: seq<PositionedFrame>, frame: Frame, newAnsFiller: Option<seq<byte>>)
    requires Encodable(frame) && PushFits(mem.Length, frames, frame) && ValidFiller(newAnsFiller)
    modifies mem
    ensures mem[..] == PushImage(old(mem[..]), frames, frame, newAnsFiller)
  {
    var stackEnd := StackEnd(frames);
    WriteUnlinked(mem, frames, frame, newAnsFiller);
    if stackEnd != 0 {
      CopyInto(mem, stackEnd - 1, [FRAME_END_MARKER]);
    }
  }

  /**
   * `add_new_frame`: push `(frame, aligned stack end)` on the RAM stack, write the optional
   * answer filler, the fields and STACK_END_MARKER, then relink the old top with FRAME_END_MARKER.
   * A filler outside 1..8 bytes raises after the RAM push, which is not undone.
   */
  method AddNewFrame(stack: RamStack, frame: Frame, mem: array<byte>, newAnsFiller: Option<seq<byte>>) returns (r: Outcome)
    requires Encodable(frame) && PushFits(mem.Length, stack.frames, frame)
    modifies stack, mem
    ensures stack.frames == old(stack.frames) + [PositionedFrame(frame, PushPosition(old(stack.frames)))]
    ensures !ValidFiller(newAnsFiller) ==> r == Failed(AnswerSizeInvalid) && mem[..] == old(mem[..])
    ensures ValidFiller(newAnsFiller) ==> r == Done && mem[..] == PushImage(old(mem[..]), old(stack.frames), frame, newAnsFiller)
  {
    var before := stack.frames;
    var pos := AlignUp(StackEnd(before));
    stack.AddFrame(PositionedFrame(frame, pos));
    if newAnsFiller.Some? && (|newAnsFiller.value| == 0 || |newAnsFiller.value| > 8) {
      return Failed(AnswerSizeInvalid);
    }
    WriteNewFrame(mem, before, frame, newAnsFiller);
    return Done;
  }

  /**
   * `remove_frame`: refuse to pop the root frame; otherwise pop the RAM stack and write
   * STACK_END_MARKER on the new top's marker byte.
   */
  method RemoveFrame(stack: RamStack, mem: array<byte>) returns (r: Outcome)
    requires stack.frames != [] && StackEnd(Popped(stack.frames)) <= mem.Length
    modifies stack, mem
    ensures |old(stack.frames)| == 1 ==> r == Failed(FirstFrameRemoval) && stack.frames == old(stack.frames) && mem[..] == old(mem[..])
    ensures |old(stack.frames)| >= 2 ==> r == Done && stack.frames == Popped(old(stack.frames)) && mem[..] == PopImage(old(mem[..]), old(stack.frames))
  {
    if |stack.frames| == 1 {
      return Failed(FirstFrameRemoval);
    }
    stack.RemoveFrame();
    var endMarkerOffset := StackEnd(stack.frames) - 1;
    CopyInto(mem, endMarkerOffset, [STACK_END_MARKER]);
    return Done;
  }
}
