/**
 * Durable CAS with a notification matrix (code/cas/cas.cpp). The register packs the last
 * successful thread's id and the current value; before swapping, a thread tells the previous owner
 * that its CAS succeeded by writing the value into the previous owner's matrix row.
 */
module Cas {
  import opened Bytes

  /** An unsigned 64-bit register word (`uint64_t`). */
  newtype u64 = x: int | 0 <= x < 0x1_0000_0000_0000_0000

  /** Values of the low 32-bit half of the register word. */
  const HALF: nat := 0x1_0000_0000

  /** Bytes 0-3 of the register word: the id of the thread whose CAS succeeded last, or `U32_MAX`. */
  function Owner(w: u64): u32
  {
    (w as int % HALF) as u32
  }

  /** Bytes 4-7 of the register word: the current value. */
  function Value(w: u64): u32
  {
    (w as int / HALF) as u32
  }

  /** The register word holding `owner` and `value`. */
  function Pack(owner: u32, value: u32): (w: u64)
    ensures Owner(w) == owner && Value(w) == value
  {
    (owner as int + value as int * HALF) as u64
  }

  /** Every register word is the packing of its two halves. */
  lemma PackOfHalves(w: u64)
    ensures Pack(Owner(w), Value(w)) == w
  {
  }

  /** The packed word's little-endian bytes are the owner's four bytes followed by the value's four. */
  lemma PackLayout(owner: u32, value: u32)
    ensures LeEncode(Pack(owner, value) as nat, 8) == LeEncode(owner as nat, 4) + LeEncode(value as nat, 4)
  {
    var a, b := LeEncode(owner as nat, 4), LeEncode(value as nat, 4);
    assert Pow256(4) == HALF by {
      assert Pow256(1) == 256 && Pow256(2) == 65536 && Pow256(3) == 16777216;
    }
    DecodeEncode(owner as nat, 4);
    DecodeEncode(value as nat, 4);
    DecodeAppend(a, b);
    assert LeDecode(a + b) == Pack(owner, value) as nat;
    EncodeDecode(a + b);
  }

  /** The register and the N×N matrix, row `t` holding the notifications addressed to thread `t`. */
  datatype CasState = CasState(word: u64, matrix: seq<u32>)

  /** The CAS's answer byte and the state it leaves. */
  datatype CasResult = CasResult(state: CasState, answer: byte)

  /** N threads whose matrix cells a `uint32_t` index can reach. */
  predicate ValidThreads(n: nat)
  {
    0 < n < U32_MAX as nat && n * n <= HALF
  }

  /** A register whose owner is a thread (or nobody yet) and a matrix of N×N cells. */
  predicate WellFormed(s: CasState, n: nat)
  {
    ValidThreads(n) && |s.matrix| == n * n && (Owner(s.word) == U32_MAX || (Owner(s.word) as nat) < n)
  }

  /** Multiplication by a natural number is monotone (proved without nonlinear arithmetic). */
  lemma {:induction false} MulLe(a: nat, b: nat, c: nat)
    requires a <= b
    ensures a * c <= b * c
    decreases c
  {
    if c > 0 {
      MulLe(a, b, c - 1);
      assert a * c == a * (c - 1) + a && b * c == b * (c - 1) + b;
    }
  }

  lemma CellInMatrix(row: nat, col: nat, n: nat)
    requires row < n && col < n
    ensures row * n + col < n * n && row * n + n <= n * n
  {
    MulLe(row + 1, n, n);
    assert (row + 1) * n == row * n + n;
  }

  /** Cells of different rows are different: cell (row, col) lies outside row `other`. */
  lemma RowsDisjoint(row: nat, col: nat, other: nat, n: nat)
    requires row != other && col < n
    ensures row * n + col < other * n || other * n + n <= row * n + col
  {
    if row < other {
      MulLe(row + 1, other, n);
      assert (row + 1) * n == row * n + n;
    } else {
      MulLe(other + 1, row, n);
      assert (other + 1) * n == other * n + n;
    }
  }

  /** Row `t` of the matrix: the values other threads left for thread `t`. */
  function Row(matrix: seq<u32>, n: nat, t: nat): (r: seq<u32>)
    requires |matrix| == n * n && t < n
    ensures |r| == n
  {
    CellInMatrix(t, 0, n);
    matrix[t * n .. t * n + n]
  }

  /** `cas_internal` of thread `tid` from state `s`, sequentially (the swap always finds the word it read). */
  function CasInternalSpec(s: CasState, expected: u32, newValue: u32, tid: u32, n: nat): (r: CasResult)
    requires WellFormed(s, n) && (tid as nat) < n
    ensures WellFormed(r.state, n)
    ensures r.answer == 1 <==> Value(s.word) == expected
    ensures r.answer == 0 ==> r.state == s
    ensures r.answer == 1 ==> Owner(r.state.word) == tid && Value(r.state.word) == newValue
  {
    if Value(s.word) != expected then CasResult(s, 0)
    else
      var owner := Owner(s.word);
      var matrix := if owner != U32_MAX then
                      CellInMatrix(owner as nat, tid as nat, n);
                      s.matrix[owner as nat * n + tid as nat := Value(s.word)]
                    else s.matrix;
      CasResult(CasState(Pack(tid, newValue), matrix), 1)
  }

  /** `cas_recover_internal`: answer 1 if the register or row `tid` shows the CAS took effect, else run it. */
  function CasRecoverSpec(s: CasState, expected: u32, newValue: u32, tid: u32, n: nat): (r: CasResult)
    requires WellFormed(s, n) && (tid as nat) < n
    ensures WellFormed(r.state, n)
    ensures r.answer == 1 <==>
      (Owner(s.word) == tid && Value(s.word) == newValue) || newValue in Row(s.matrix, n, tid as nat) || Value(s.word) == expected
  {
    if Owner(s.word) == tid && Value(s.word) == newValue then CasResult(s, 1)
    else if newValue in Row(s.matrix, n, tid as nat) then CasResult(s, 1)
    else CasInternalSpec(s, expected, newValue, tid, n)
  }

  /** The 64-bit register `var`. */
  class Register {
    var word: u64

    constructor (w: u64)
      ensures word == w
    {
      word := w;
    }
  }

  /** `cas_internal`: the answer byte is returned instead of being written through a pointer. */
  method CasInternal(reg: Register, matrix: array<u32>, expected: u32, newValue: u32, tid: u32, n: nat)
    returns (answer: byte)
    requires WellFormed(CasState(reg.word, matrix[..]), n) && (tid as nat) < n
    modifies reg, matrix
    ensures CasResult(CasState(reg.word, matrix[..]), answer)
         == CasInternalSpec(CasState(old(reg.word), old(matrix[..])), expected, newValue, tid, n)
  {
    var word := reg.word;
    var lastOwner := Owner(word);
    var current := Value(word);
    if current != expected {
      return 0;
    }
    if lastOwner != U32_MAX {
      CellInMatrix(lastOwner as nat, tid as nat, n);
      var index := lastOwner as nat * n + tid as nat;
      matrix[index] := current;
    }
    reg.word := Pack(tid, newValue);
    answer := 1;
  }

  /** `cas_recover_internal`, scanning row `tid` cell by cell. */
  method CasRecoverInternal(reg: Register, matrix: array<u32>, expected: u32, newValue: u32, tid: u32, n: nat)
    returns (answer: byte)
    requires WellFormed(CasState(reg.word, matrix[..]), n) && (tid as nat) < n
    modifies reg, matrix
    ensures CasResult(CasState(reg.word, matrix[..]), answer)
         == CasRecoverSpec(CasState(old(reg.word), old(matrix[..])), expected, newValue, tid, n)
  {
    var word := reg.word;
    if Owner(word) == tid && Value(word) == newValue {
      return 1;
    }
    ghost var row := Row(matrix[..], n, tid as nat);
    for other := 0 to n
      invariant matrix[..] == old(matrix[..]) && reg.word == old(reg.word)
      invariant newValue !in row[..other]
    {
      CellInMatrix(tid as nat, other, n);
      var index := tid as nat * n + other;
      assert matrix[index] == row[other];
      if matrix[index] == newValue {
        return 1;
      }
      assert row[..other + 1] == row[..other] + [row[other]];
    }
    assert row[..n] == row;
    answer := CasInternal(reg, matrix, expected, newValue, tid, n);
  }

  // ---------------------------------------------------------------------------
  // Properties of the CAS
  // ---------------------------------------------------------------------------

  /** A successful CAS leaves the previous owner's notification, and touches no other cell. */
  lemma {:induction false} SuccessNotifiesOwner(s: CasState, expected: u32, newValue: u32, tid: u32, n: nat)
    requires WellFormed(s, n) && (tid as nat) < n && Value(s.word) == expected
    ensures var r := CasInternalSpec(s, expected, newValue, tid, n);
      r.answer == 1 && r.state.word == Pack(tid, newValue) &&
      (Owner(s.word) == U32_MAX ==> r.state.matrix == s.matrix) &&
      (Owner(s.word) != U32_MAX ==>
         var cell := Owner(s.word) as nat * n + tid as nat;
         cell < |s.matrix| && r.state.matrix[cell] == Value(s.word) &&
         forall i :: 0 <= i < |s.matrix| && i != cell ==> r.state.matrix[i] == s.matrix[i])
  {
    if Owner(s.word) != U32_MAX {
      CellInMatrix(Owner(s.word) as nat, tid as nat, n);
    }
  }

  /** Recovery without evidence that the CAS took effect runs it again with the same arguments. */
  lemma RecoverWithoutEvidenceRetries(s: CasState, expected: u32, newValue: u32, tid: u32, n: nat)
    requires WellFormed(s, n) && (tid as nat) < n
    requires !(Owner(s.word) == tid && Value(s.word) == newValue) && newValue !in Row(s.matrix, n, tid as nat)
    ensures CasRecoverSpec(s, expected, newValue, tid, n) == CasInternalSpec(s, expected, newValue, tid, n)
  {
  }

  /** Recovery that answers 1 from evidence writes nothing. */
  lemma RecoverFromEvidenceWritesNothing(s: CasState, expected: u32, newValue: u32, tid: u32, n: nat)
    requires WellFormed(s, n) && (tid as nat) < n
    requires (Owner(s.word) == tid && Value(s.word) == newValue) || newValue in Row(s.matrix, n, tid as nat)
    ensures CasRecoverSpec(s, expected, newValue, tid, n) == CasResult(s, 1)
  {
  }

  /** A CAS invocation of some thread. */
  datatype Invocation = Invocation(tid: u32, expected: u32, newValue: u32)

  /** The state after the invocations run one after another. */
  function RunAll(s: CasState, calls: seq<Invocation>, n: nat): (r: CasState)
    requires WellFormed(s, n) && forall i :: 0 <= i < |calls| ==> (calls[i].tid as nat) < n
    ensures WellFormed(r, n)
    decreases |calls|
  {
    if calls == [] then s
    else RunAll(CasInternalSpec(s, calls[0].expected, calls[0].newValue, calls[0].tid, n).state, calls[1..], n)
  }

  /**
   * Thread `tid`'s successful CAS to `newValue` is visible: either the register still shows it, or
   * row `tid` holds `newValue`; and while `tid` owns the register its value is `newValue`.
   */
  predicate Notified(s: CasState, tid: u32, newValue: u32, n: nat)
    requires WellFormed(s, n) && (tid as nat) < n
  {
    (Owner(s.word) == tid ==> Value(s.word) == newValue) &&
    ((Owner(s.word) == tid && Value(s.word) == newValue) || newValue in Row(s.matrix, n, tid as nat))
  }

  /** When the register names `tid`, another thread's successful CAS writes the register's value into row `tid`. */
  lemma OwnerGetsNotified(s: CasState, c: Invocation, tid: u32, newValue: u32, n: nat)
    requires WellFormed(s, n) && (tid as nat) < n && (c.tid as nat) < n && c.tid != tid
    requires Owner(s.word) == tid && Value(s.word) == newValue && Value(s.word) == c.expected
    ensures newValue in Row(CasInternalSpec(s, c.expected, c.newValue, c.tid, n).state.matrix, n, tid as nat)
  {
    var r := CasInternalSpec(s, c.expected, c.newValue, c.tid, n);
    SuccessNotifiesOwner(s, c.expected, c.newValue, c.tid, n);
    CellInMatrix(tid as nat, c.tid as nat, n);
    var cell := tid as nat * n + c.tid as nat;
    assert Row(r.state.matrix, n, tid as nat)[c.tid as nat] == r.state.matrix[cell];
  }

  /** Writing a cell outside a slice leaves the slice as it was. */
  lemma SliceKeptByOutsideWrite(m: seq<u32>, cell: nat, v: u32, lo: nat, hi: nat)
    requires cell < |m| && lo <= hi <= |m| && (cell < lo || hi <= cell)
    ensures m[cell := v][lo..hi] == m[lo..hi]
  {
  }

  /** Another thread's CAS leaves row `tid` as it was unless the register names `tid`. */
  lemma OtherRowUntouched(s: CasState, c: Invocation, tid: u32, n: nat)
    requires WellFormed(s, n) && (tid as nat) < n && (c.tid as nat) < n && c.tid != tid
    requires Owner(s.word) != tid
    ensures Row(CasInternalSpec(s, c.expected, c.newValue, c.tid, n).state.matrix, n, tid as nat) == Row(s.matrix, n, tid as nat)
  {
    var r := CasInternalSpec(s, c.expected, c.newValue, c.tid, n);
    var owner := Owner(s.word);
    if r.answer == 1 && owner != U32_MAX {
      var lo, cell := tid as nat * n, owner as nat * n + c.tid as nat;
      CellInMatrix(tid as nat, 0, n);
      CellInMatrix(owner as nat, c.tid as nat, n);
      RowsDisjoint(owner as nat, c.tid as nat, tid as nat, n);
      assert r.state.matrix == s.matrix[cell := Value(s.word)];
      SliceKeptByOutsideWrite(s.matrix, cell, Value(s.word), lo, lo + n);
      assert Row(r.state.matrix, n, tid as nat) == r.state.matrix[lo..lo + n];
    }
  }

  /** A CAS of another thread, successful or not, keeps thread `tid`'s success visible. */
  lemma OtherCasKeepsNotified(s: CasState, c: Invocation, tid: u32, newValue: u32, n: nat)
    requires WellFormed(s, n) && (tid as nat) < n && (c.tid as nat) < n && c.tid != tid
    requires Notified(s, tid, newValue, n)
    ensures Notified(CasInternalSpec(s, c.expected, c.newValue, c.tid, n).state, tid, newValue, n)
  {
    var r := CasInternalSpec(s, c.expected, c.newValue, c.tid, n);
    if r.answer == 1 {
      if Owner(s.word) == tid {
        OwnerGetsNotified(s, c, tid, newValue, n);
      } else {
        OtherRowUntouched(s, c, tid, n);
      }
    }
  }

  /**
   * Recovery is idempotent: after thread `tid`'s `cas_internal` succeeded, whatever CASes the other
   * threads then ran, `cas_recover_internal` with the same arguments answers 1 and writes nothing.
   */
  lemma {:induction false} RecoveryAfterSuccessAnswersOne(s0: CasState, expected: u32, newValue: u32, tid: u32, n: nat,
                                                          others: seq<Invocation>)
    requires WellFormed(s0, n) && (tid as nat) < n
    requires CasInternalSpec(s0, expected, newValue, tid, n).answer == 1
    requires forall i :: 0 <= i < |others| ==> (others[i].tid as nat) < n && others[i].tid != tid
    ensures var s := RunAll(CasInternalSpec(s0, expected, newValue, tid, n).state, others, n);
      CasRecoverSpec(s, expected, newValue, tid, n) == CasResult(s, 1)
  {
    var s1 := CasInternalSpec(s0, expected, newValue, tid, n).state;
    OthersKeepNotified(s1, others, tid, newValue, n);
  }

  lemma {:induction false} OthersKeepNotified(s: CasState, others: seq<Invocation>, tid: u32, newValue: u32, n: nat)
    requires WellFormed(s, n) && (tid as nat) < n && Notified(s, tid, newValue, n)
    requires forall i :: 0 <= i < |others| ==> (others[i].tid as nat) < n && others[i].tid != tid
    ensures Notified(RunAll(s, others, n), tid, newValue, n)
    decreases |others|
  {
    if others != [] {
      var c := others[0];
      OtherCasKeepsNotified(s, c, tid, newValue, n);
      OthersKeepNotified(CasInternalSpec(s, c.expected, c.newValue, c.tid, n).state, others[1..], tid, newValue, n);
    }
  }
}
