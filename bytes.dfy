/** Bytes of a persistent region and the little-endian integers stored in them. */
module Bytes {

  /** One byte of a mapped region. */
  newtype byte = x: int | 0 <= x < 256

  /** An unsigned 32-bit integer (`uint32_t`). */
  newtype u32 = x: int | 0 <= x < 0x1_0000_0000

  const U32_MAX: u32 := 0xFFFF_FFFF

  /** Number of values an `n`-byte unsigned integer can take. */
  function Pow256(n: nat): (r: nat)
    ensures r >= 1
  {
    if n == 0 then 1 else 256 * Pow256(n - 1)
  }

  /** The value that `memcpy` of `bs` into an unsigned integer yields on a little-endian machine. */
  function LeDecode(bs: seq<byte>): (r: nat)
    ensures r < Pow256(|bs|)
  {
    if bs == [] then 0 else bs[0] as nat + 256 * LeDecode(bs[1..])
  }

  /** The `n` bytes that `memcpy` of an `n`-byte unsigned integer holding `x` writes. */
  function LeEncode(x: nat, n: nat): (r: seq<byte>)
    ensures |r| == n
  {
    if n == 0 then [] else [(x % 256) as byte] + LeEncode(x / 256, n - 1)
  }

  lemma {:induction false} DecodeEncode(x: nat, n: nat)
    requires x < Pow256(n)
    ensures LeDecode(LeEncode(x, n)) == x
  {
    if n > 0 {
      var e := LeEncode(x, n);
      assert e[1..] == LeEncode(x / 256, n - 1);
      DecodeEncode(x / 256, n - 1);
    }
  }

  lemma {:induction false} EncodeDecode(bs: seq<byte>)
    ensures LeEncode(LeDecode(bs), |bs|) == bs
  {
    if bs != [] {
      var x := LeDecode(bs);
      assert x % 256 == bs[0] as nat && x / 256 == LeDecode(bs[1..]);
      EncodeDecode(bs[1..]);
    }
  }

  /** The first `k` bytes of an encoding hold the value modulo 256^k: the low half of a packed word. */
  lemma {:induction false} DecodeAppend(a: seq<byte>, b: seq<byte>)
    ensures LeDecode(a + b) == LeDecode(a) + Pow256(|a|) * LeDecode(b)
  {
    if a != [] {
      assert (a + b)[1..] == a[1..] + b;
      DecodeAppend(a[1..], b);
      var p, d, t := Pow256(|a| - 1), LeDecode(b), LeDecode(a[1..]);
      var pd := p * d;
      assert LeDecode(a + b) == a[0] as nat + 256 * (t + pd);
      assert 256 * (t + pd) == 256 * t + 256 * pd;
      MulAssoc(256, p, d);
      assert LeDecode(a) == a[0] as nat + 256 * t;
    } else {
      assert a + b == b;
    }
  }

  lemma MulAssoc(x: int, y: int, z: int)
    ensures x * (y * z) == (x * y) * z
  {
  }

  /** `s` with `data` copied over it at `off` (the effect of one `memcpy` into a region). */
  function Write(s: seq<byte>, off: nat, data: seq<byte>): (r: seq<byte>)
    requires off + |data| <= |s|
    ensures |r| == |s|
    ensures r[off..off + |data|] == data
    ensures forall i :: 0 <= i < |s| && !(off <= i < off + |data|) ==> r[i] == s[i]
  {
    s[..off] + data + s[off + |data|..]
  }

  /** Two writes to disjoint ranges commute. */
  lemma WritesCommute(s: seq<byte>, o1: nat, d1: seq<byte>, o2: nat, d2: seq<byte>)
    requires o1 + |d1| <= |s| && o2 + |d2| <= |s|
    requires o1 + |d1| <= o2 || o2 + |d2| <= o1
    ensures Write(Write(s, o1, d1), o2, d2) == Write(Write(s, o2, d2), o1, d1)
  {
    var l := Write(Write(s, o1, d1), o2, d2);
    var r := Write(Write(s, o2, d2), o1, d1);
    forall i | 0 <= i < |s| ensures l[i] == r[i] {
      if o1 <= i < o1 + |d1| {
        assert l[i] == d1[i - o1] && r[i] == d1[i - o1];
      } else if o2 <= i < o2 + |d2| {
        assert l[i] == d2[i - o2] && r[i] == d2[i - o2];
      }
    }
  }

  /** A slice is the concatenation of four adjacent sub-slices. */
  lemma SliceSplit4(mem: seq<byte>, i0: nat, i1: nat, i2: nat, i3: nat, i4: nat)
    requires i0 <= i1 <= i2 <= i3 <= i4 <= |mem|
    ensures mem[i0 .. i4] == mem[i0 .. i1] + mem[i1 .. i2] + mem[i2 .. i3] + mem[i3 .. i4]
  {
    assert mem[i0 .. i2] == mem[i0 .. i1] + mem[i1 .. i2];
    assert mem[i0 .. i3] == mem[i0 .. i2] + mem[i2 .. i3];
  }

  /** A one-byte slice holds just that byte. */
  lemma OneByteSlice(mem: seq<byte>, i: nat)
    requires i < |mem|
    ensures mem[i .. i + 1] == [mem[i]]
  {
  }

  /** Regions that agree byte for byte on `[lo, hi)` have the same slice there. */
  lemma SameSlice(a: seq<byte>, b: seq<byte>, lo: nat, hi: nat)
    requires lo <= hi <= |a| && hi <= |b|
    requires forall k :: lo <= k < hi ==> a[k] == b[k]
    ensures a[lo .. hi] == b[lo .. hi]
  {
  }

  /** `memcpy(mem + off, data, |data|)`: copies `data` into the region in place. */
  method CopyInto(mem: array<byte>, off: nat, data: seq<byte>)
    requires off + |data| <= mem.Length
    modifies mem
    ensures mem[..] == Write(old(mem[..]), off, data)
  {
    forall k | 0 <= k < |data| {
      mem[off + k] := data[k];
    }
    assert mem[..] == Write(old(mem[..]), off, data);
  }
}

/** Error kinds of the runtime and the outcomes its operations report. */
module Errors {

  datatype Error =
    | AnswerSizeInvalid      // an answer or answer filler outside 1..8 bytes
    | NoCallerFrame          // write_answer / read_current_answer from the only frame
    | FirstFrameRemoval      // popping the root frame
    | IllegalRecoveryCall    // a recovery entry point outside recovery mode
    | NotInRecoveryMode      // restoration started outside recovery mode
    | UnknownFunction        // a registry lookup miss (`.at()` throws)
    | CorruptedStack         // the durable stack does not decode
    | CorruptedMarker        // an allocator trailer outside its three values
    | CorruptedAnswer        // an answer byte outside what exec_task asserts
    | HeapExhausted          // no free block and the border at capacity

  /** Result of a runtime step: it completed, raised an error, or the user code crashed. */
  datatype Outcome = Done | Failed(error: Error) | Crashed

  datatype Option<+T> = None | Some(value: T)

  datatype Result<+T> = Ok(value: T) | Err(error: Error)
}
