/**
 * Fixed-block persistent allocator (code/allocation/pmem_allocator.cpp). Block `n` occupies
 * `block_size` user bytes followed by one marker byte; the marker of the last allocated block is
 * HEAP_END, earlier blocks are ALLOCATED or FREED. The allocation border and the set of freed
 * blocks are kept in RAM and rebuilt from the markers on recovery.
 */
module PmemAllocator {
  import opened Bytes
  import opened Errors

  const ALLOCATED_BLOCK_MARKER: byte := 0x0
  const HEAP_END_MARKER: byte := 0x1
  const FREED_BLOCK_MARKER: byte := 0x2

  // ---------------------------------------------------------------------------
  // Block arithmetic
  // ---------------------------------------------------------------------------

  /** `get_block_start`: block `n` starts after `n` blocks of `blockSize + 1` bytes. */
  function BlockStart(blockSize: nat, n: nat): nat
  {
    if n == 0 then 0 else BlockStart(blockSize, n - 1) + blockSize + 1
  }

  /** `get_block_end`: the offset of block `n`'s marker byte, its last byte. */
  function BlockEnd(blockSize: nat, n: nat): nat
  {
    BlockStart(blockSize, n) + blockSize
  }

  /** `get_block_num`: the block starting at `offset`. */
  function BlockNum(blockSize: nat, offset: nat): nat
    requires offset % (blockSize + 1) == 0
  {
    offset / (blockSize + 1)
  }

  lemma {:induction false} BlockStartIsProduct(blockSize: nat, n: nat)
    ensures BlockStart(blockSize, n) == n * (blockSize + 1)
  {
    if n > 0 {
      BlockStartIsProduct(blockSize, n - 1);
      assert n * (blockSize + 1) == (n - 1) * (blockSize + 1) + (blockSize + 1);
    }
  }

  lemma {:induction false} MulAtLeast(d: int, k: nat)
    requires d >= 1
    ensures d * k >= k
  {
    if d > 1 {
      MulAtLeast(d - 1, k);
      assert d * k == (d - 1) * k + k;
    }
  }

  /** Euclidean division is determined by quotient and remainder. */
  lemma DivModUnique(x: int, k: nat, q: int, r: int)
    requires k > 0 && 0 <= r < k && x == q * k + r
    ensures x / k == q && x % k == r
  {
    var q', r' := x / k, x % k;
    assert x == q' * k + r';
    assert (q - q') * k == r' - r;
    if q > q' {
      MulAtLeast(q - q', k);
    } else if q < q' {
      MulAtLeast(q' - q, k);
    }
  }

  /** Block numbers and block starts correspond one to one, and a marker byte is never a user byte. */
  lemma BlockNumInvertsStart(blockSize: nat, n: nat, offset: nat)
    ensures BlockStart(blockSize, n) % (blockSize + 1) == 0 && BlockNum(blockSize, BlockStart(blockSize, n)) == n
    ensures BlockEnd(blockSize, n) % (blockSize + 1) == blockSize
    ensures offset % (blockSize + 1) == 0 ==> BlockStart(blockSize, BlockNum(blockSize, offset)) == offset
  {
    var k := blockSize + 1;
    BlockStartIsProduct(blockSize, n);
    DivModUnique(n * k, k, n, 0);
    DivModUnique(n * k + blockSize, k, n, blockSize);
    if offset % k == 0 {
      var q := offset / k;
      assert offset == q * k + offset % k;
      BlockStartIsProduct(blockSize, q);
    }
  }

  /** Later blocks start after earlier blocks end. */
  lemma {:induction false} BlocksOrdered(blockSize: nat, i: nat, j: nat)
    requires i < j
    ensures BlockStart(blockSize, i) + blockSize + 1 <= BlockStart(blockSize, j)
    decreases j
  {
    if i < j - 1 {
      BlocksOrdered(blockSize, i, j - 1);
    }
  }

  /** The heap holds blocks `0 .. maxBorder`. */
  predicate HeapHolds(length: nat, blockSize: nat, maxBorder: nat)
  {
    BlockStart(blockSize, maxBorder + 1) <= length
  }

  /** Different blocks have different marker bytes. */
  lemma BlockEndsDistinct(blockSize: nat, i: nat, j: nat)
    requires i != j
    ensures BlockEnd(blockSize, i) != BlockEnd(blockSize, j)
  {
    if i < j {
      BlocksOrdered(blockSize, i, j);
    } else {
      BlocksOrdered(blockSize, j, i);
    }
  }

  /** The marker bytes of the first `count` blocks. */
  function Markers(heap: seq<byte>, blockSize: nat, count: nat): (r: seq<byte>)
    requires BlockStart(blockSize, count) <= |heap|
    ensures |r| == count
    ensures forall i :: 0 <= i < count ==> BlockEnd(blockSize, i) < |heap| && r[i] == heap[BlockEnd(blockSize, i)]
    decreases count
  {
    if count == 0 then []
    else
      Markers(heap, blockSize, count - 1) + [heap[BlockEnd(blockSize, count - 1)]]
  }

  /** Writing block `j`'s marker byte changes marker `j` and no other. */
  lemma MarkersAfterWrite(heap: seq<byte>, blockSize: nat, count: nat, j: nat, v: byte)
    requires BlockStart(blockSize, count) <= |heap| && j < count
    ensures BlockEnd(blockSize, j) < |heap|
    ensures Markers(heap[BlockEnd(blockSize, j) := v], blockSize, count) == Markers(heap, blockSize, count)[j := v]
  {
    BlocksOrdered(blockSize, j, count);
    var h := heap[BlockEnd(blockSize, j) := v];
    var a, b := Markers(h, blockSize, count), Markers(heap, blockSize, count)[j := v];
    forall i | 0 <= i < count ensures a[i] == b[i] {
      if i != j {
        BlockEndsDistinct(blockSize, i, j);
      }
    }
  }

  // ---------------------------------------------------------------------------
  // The allocator's state and its invariant
  // ---------------------------------------------------------------------------

  /** The markers of blocks `0 .. maxBorder`, the allocation border, and the freed-block set. */
  datatype AllocatorState = AllocatorState(markers: seq<byte>, border: nat, freed: set<nat>)

  /** The FREED blocks below `border`. */
  function FreedBelow(markers: seq<byte>, border: nat): set<nat>
    requires border <= |markers|
  {
    set i: nat | i < border && markers[i] == FREED_BLOCK_MARKER
  }

  /**
   * The link between markers and RAM state: the border's marker is HEAP_END, every block below it is
   * ALLOCATED or FREED, block 0 is never FREED, and the free set is exactly the FREED blocks below
   * the border.
   */
  predicate Consistent(s: AllocatorState)
  {
    s.border < |s.markers| && s.markers[s.border] == HEAP_END_MARKER &&
    (forall i :: 0 <= i < s.border ==> s.markers[i] == ALLOCATED_BLOCK_MARKER || s.markers[i] == FREED_BLOCK_MARKER) &&
    s.markers[0] != FREED_BLOCK_MARKER &&
    s.freed == FreedBelow(s.markers, s.border)
  }

  /** `is_allocated`: at or below the border and not FREED. */
  function IsAllocatedSpec(s: AllocatorState, b: nat): bool
    requires b < |s.markers|
  {
    b <= s.border && s.markers[b] != FREED_BLOCK_MARKER
  }

  /** A new allocator: block 0 becomes HEAP_END, the border is 0 and nothing is freed. */
  function NewAllocatorSpec(markers: seq<byte>): (s: AllocatorState)
    requires |markers| >= 1
    ensures Consistent(s)
  {
    AllocatorState(markers[0 := HEAP_END_MARKER], 0, {})
  }

  /** The result of `pmem_alloc`: the block handed out, or the exhaustion error, and the new state. */
  datatype Allocation = Allocation(result: Result<nat>, state: AllocatorState)

  /**
   * `pmem_alloc`: reuse the freed block `pick` when there is one (the source takes an arbitrary
   * member of its unordered set); otherwise fail when the border is at its maximum; otherwise move
   * the heap end one block forward.
   */
  function AllocSpec(s: AllocatorState, pick: nat): Allocation
    requires Consistent(s) && (s.freed != {} ==> pick in s.freed)
  {
    if s.freed != {} then
      Allocation(Ok(pick), AllocatorState(s.markers[pick := ALLOCATED_BLOCK_MARKER], s.border, s.freed - {pick}))
    else if s.border + 1 == |s.markers| then Allocation(Err(HeapExhausted), s)
    else Allocation(Ok(s.border + 1), AllocatorState(BumpCrashImage(s)[s.border := ALLOCATED_BLOCK_MARKER], s.border + 1, s.freed))
  }

  /** The markers after the first of the bump's two writes: the new heap end is marked, the old one not yet cleared. */
  function BumpCrashImage(s: AllocatorState): seq<byte>
    requires Consistent(s) && s.border + 1 < |s.markers|
  {
    s.markers[s.border + 1 := HEAP_END_MARKER]
  }

  /** The nearest block at or below `i` that is not FREED. */
  function WalkBack(markers: seq<byte>, i: nat): (r: nat)
    requires i < |markers| && markers[0] != FREED_BLOCK_MARKER
    ensures r <= i && markers[r] != FREED_BLOCK_MARKER
    ensures forall k :: r < k <= i ==> markers[k] == FREED_BLOCK_MARKER
  {
    if markers[i] != FREED_BLOCK_MARKER then i else WalkBack(markers, i - 1)
  }

  /**
   * `pmem_free` of block `b`: below the border it is marked FREED and remembered; the border block
   * itself is released by walking back over FREED blocks, which leave the set, to the nearest
   * ALLOCATED block, which becomes the heap end.
   */
  function FreeSpec(s: AllocatorState, b: nat): AllocatorState
    requires Consistent(s) && 0 < b <= s.border
  {
    if b < s.border then AllocatorState(s.markers[b := FREED_BLOCK_MARKER], s.border, s.freed + {b})
    else
      var nb := WalkBack(s.markers, b - 1);
      AllocatorState(s.markers[nb := HEAP_END_MARKER], nb, set i | i in s.freed && i < nb)
  }

  /** Recovery's forward scan: the first block from `i` on whose marker is HEAP_END. */
  function ScanBorder(markers: seq<byte>, i: nat): (r: nat)
    requires i <= |markers|
    ensures i <= r <= |markers|
    decreases |markers| - i
  {
    if i == |markers| then i
    else if markers[i] == HEAP_END_MARKER then i
    else ScanBorder(markers, i + 1)
  }

  // ---------------------------------------------------------------------------
  // The allocator object
  // ---------------------------------------------------------------------------

  class Allocator {
    const heap: array<byte>
    const blockSize: nat
    const maxBorder: nat
    var freedBlocks: set<nat>
    var allocationBorder: nat

    /** The abstract state: the blocks' markers in the heap, and the RAM fields. */
    function State(): AllocatorState
      reads this, heap
      requires HeapHolds(heap.Length, blockSize, maxBorder)
    {
      AllocatorState(Markers(heap[..], blockSize, maxBorder + 1), allocationBorder, freedBlocks)
    }

    ghost predicate Valid()
      reads this, heap
    {
      HeapHolds(heap.Length, blockSize, maxBorder) && Consistent(State())
    }

    /**
     * The constructor: a new allocator marks block 0 as the heap end; a recovering one scans the
     * markers forward to the first HEAP_END, collecting the FREED blocks on the way.
     */
    constructor (heapBytes: array<byte>, blockBytes: nat, maxBlock: nat, initNew: bool)
      requires HeapHolds(heapBytes.Length, blockBytes, maxBlock)
      requires !initNew ==> Recoverable(Markers(heapBytes[..], blockBytes, maxBlock + 1))
      modifies heapBytes
      ensures heap == heapBytes && blockSize == blockBytes && maxBorder == maxBlock && Valid()
      ensures initNew ==> State() == NewAllocatorSpec(Markers(old(heapBytes[..]), blockBytes, maxBlock + 1))
      ensures !initNew ==> (heap[..] == old(heapBytes[..]) &&
        var m := Markers(heap[..], blockSize, maxBorder + 1);
        allocationBorder == ScanBorder(m, 0) && freedBlocks == FreedBelow(m, allocationBorder))
    {
      heap := heapBytes;
      blockSize := blockBytes;
      maxBorder := maxBlock;
      if initNew {
        MarkersAfterWrite(heapBytes[..], blockBytes, maxBlock + 1, 0, HEAP_END_MARKER);
        heapBytes[BlockEnd(blockBytes, 0)] := HEAP_END_MARKER;
        freedBlocks := {};
        allocationBorder := 0;
      } else {
        var border, freed := ScanMarkers(heapBytes, blockBytes, maxBlock);
        allocationBorder, freedBlocks := border, freed;
      }
    }

    /** Write block `j`'s marker byte: marker `j` changes and no other byte does. */
    method WriteMarker(j: nat, v: byte)
      requires HeapHolds(heap.Length, blockSize, maxBorder) && j <= maxBorder
      modifies heap
      ensures BlockEnd(blockSize, j) < heap.Length && BlockEnd(blockSize, j) % (blockSize + 1) == blockSize
      ensures Markers(heap[..], blockSize, maxBorder + 1) == Markers(old(heap[..]), blockSize, maxBorder + 1)[j := v]
      ensures forall k :: 0 <= k < heap.Length && k % (blockSize + 1) != blockSize ==> heap[k] == old(heap[k])
    {
      MarkersAfterWrite(heap[..], blockSize, maxBorder + 1, j, v);
      BlockNumInvertsStart(blockSize, j, 0);
      heap[BlockEnd(blockSize, j)] := v;
      assert heap[..] == old(heap[..])[BlockEnd(blockSize, j) := v];
    }

    /** `pmem_alloc`: the offset of the block handed out, or the exhaustion error. */
    method Alloc() returns (r: Result<nat>)
      requires Valid()
      modifies this, heap
      ensures Valid()
      ensures old(freedBlocks) != {} ==>
        r.Ok? && r.value % (blockSize + 1) == 0 && BlockNum(blockSize, r.value) in old(freedBlocks) &&
        Allocation(Ok(BlockNum(blockSize, r.value)), State()) == AllocSpec(old(State()), BlockNum(blockSize, r.value))
      ensures old(freedBlocks) == {} ==>
        (r.Ok? ==> r.value % (blockSize + 1) == 0) &&
        Allocation(if r.Ok? then Ok(BlockNum(blockSize, r.value)) else r, State()) == AllocSpec(old(State()), 0)
      ensures forall k :: 0 <= k < heap.Length && k % (blockSize + 1) != blockSize ==> heap[k] == old(heap[k])
    {
      if freedBlocks != {} {
        r := ReuseFreed();
        return;
      }
      if allocationBorder == maxBorder {
        return Err(HeapExhausted);
      }
      r := BumpBorder();
    }

    /** The first branch of `pmem_alloc`: hand out some freed block and mark it ALLOCATED. */
    method ReuseFreed() returns (r: Result<nat>)
      requires Valid() && freedBlocks != {}
      modifies this, heap
      ensures Valid()
      ensures r.Ok? && r.value % (blockSize + 1) == 0 && BlockNum(blockSize, r.value) in old(freedBlocks) &&
        Allocation(Ok(BlockNum(blockSize, r.value)), State()) == AllocSpec(old(State()), BlockNum(blockSize, r.value))
      ensures forall k :: 0 <= k < heap.Length && k % (blockSize + 1) != blockSize ==> heap[k] == old(heap[k])
    {
      var b :| b in freedBlocks;
      ghost var s := State();
      freedBlocks := freedBlocks - {b};
      WriteMarker(b, ALLOCATED_BLOCK_MARKER);
      BlockNumInvertsStart(blockSize, b, 0);
      AllocKeepsConsistent(s, b);
      return Ok(BlockStart(blockSize, b));
    }

    /** The last branch of `pmem_alloc`: mark the next block HEAP_END, then the old heap end ALLOCATED. */
    method BumpBorder() returns (r: Result<nat>)
      requires Valid() && freedBlocks == {} && allocationBorder < maxBorder
      modifies this, heap
      ensures Valid()
      ensures r.Ok? && r.value % (blockSize + 1) == 0 &&
        Allocation(Ok(BlockNum(blockSize, r.value)), State()) == AllocSpec(old(State()), 0)
      ensures forall k :: 0 <= k < heap.Length && k % (blockSize + 1) != blockSize ==> heap[k] == old(heap[k])
    {
      var newBorder := allocationBorder + 1;
      ghost var s := State();
      WriteMarker(newBorder, HEAP_END_MARKER);
      WriteMarker(allocationBorder, ALLOCATED_BLOCK_MARKER);
      allocationBorder := newBorder;
      BlockNumInvertsStart(blockSize, newBorder, 0);
      AllocKeepsConsistent(s, 0);
      return Ok(BlockStart(blockSize, newBorder));
    }

    /** `pmem_free` of the block starting at `offset`. */
    method Free(offset: nat)
      requires Valid() && offset % (blockSize + 1) == 0
      requires 0 < BlockNum(blockSize, offset) <= allocationBorder
      modifies this, heap
      ensures Valid() && State() == FreeSpec(old(State()), BlockNum(blockSize, offset))
      ensures forall k :: 0 <= k < heap.Length && k % (blockSize + 1) != blockSize ==> heap[k] == old(heap[k])
    {
      var b := BlockNum(blockSize, offset);
      ghost var s := State();
      FreeKeepsConsistent(s, b);
      if b < allocationBorder {
        freedBlocks := freedBlocks + {b};
        WriteMarker(b, FREED_BLOCK_MARKER);
        return;
      }
      var previous, freed := ReleaseTail(b);
      WriteMarker(previous, HEAP_END_MARKER);
      freedBlocks := freed;
      allocationBorder := previous;
    }

    /**
     * The walk back of `pmem_free` when the border block is released: every FREED block passed on the
     * way leaves the free set, and the walk stops at the nearest block that is not FREED.
     */
    method ReleaseTail(b: nat) returns (previous: nat, freed: set<nat>)
      requires Valid() && 0 < b == allocationBorder
      ensures previous == WalkBack(State().markers, b - 1)
      ensures freed == set i | i in freedBlocks && i < previous
    {
      ghost var m := State().markers;
      previous := b - 1;
      freed := freedBlocks;
      while heap[BlockEnd(blockSize, previous)] == FREED_BLOCK_MARKER
        invariant previous < b && WalkBack(m, b - 1) == WalkBack(m, previous)
        invariant freed == set i | i in freedBlocks && i <= previous
        decreases previous
      {
        assert previous in freed;
        freed := freed - {previous};
        previous := previous - 1;
      }
      assert m[previous] == ALLOCATED_BLOCK_MARKER;
    }

    /** `is_allocated` of the block starting at `offset`. */
    method IsAllocated(offset: nat) returns (r: bool)
      requires Valid() && offset % (blockSize + 1) == 0 && BlockNum(blockSize, offset) <= maxBorder
      ensures r == IsAllocatedSpec(State(), BlockNum(blockSize, offset))
    {
      var b := BlockNum(blockSize, offset);
      if b > allocationBorder {
        return false;
      }
      var marker := heap[BlockEnd(blockSize, b)];
      assert marker == FREED_BLOCK_MARKER || marker == HEAP_END_MARKER || marker == ALLOCATED_BLOCK_MARKER;
      return marker != FREED_BLOCK_MARKER;
    }
  }

  /**
   * The recovery scan of the constructor: walk the markers forward from block 0 to the first
   * HEAP_END, collecting the FREED blocks on the way.
   */
  method ScanMarkers(heap: array<byte>, blockSize: nat, maxBorder: nat) returns (border: nat, freed: set<nat>)
    requires HeapHolds(heap.Length, blockSize, maxBorder)
    requires Recoverable(Markers(heap[..], blockSize, maxBorder + 1))
    ensures var m := Markers(heap[..], blockSize, maxBorder + 1);
      border == ScanBorder(m, 0) && freed == FreedBelow(m, border) && Consistent(AllocatorState(m, border, freed))
  {
    ghost var m := Markers(heap[..], blockSize, maxBorder + 1);
    ghost var end: nat :| end < |m| && m[end] == HEAP_END_MARKER &&
      forall i :: 0 <= i < end ==> m[i] == ALLOCATED_BLOCK_MARKER || m[i] == FREED_BLOCK_MARKER;
    RecoveredIsConsistent(m, end);
    freed := {};
    border := 0;
    while heap[BlockEnd(blockSize, border)] != HEAP_END_MARKER
      invariant border <= end && freed == FreedBelow(m, border)
      decreases end - border
    {
      if heap[BlockEnd(blockSize, border)] == FREED_BLOCK_MARKER {
        freed := freed + {border};
      }
      border := border + 1;
    }
  }

  /** A heap a recovering allocator can read: a HEAP_END marker preceded only by ALLOCATED and FREED ones, block 0 not FREED. */
  ghost predicate Recoverable(markers: seq<byte>)
  {
    |markers| > 0 && markers[0] != FREED_BLOCK_MARKER &&
    exists end :: 0 <= end < |markers| && markers[end] == HEAP_END_MARKER &&
      forall i :: 0 <= i < end ==> markers[i] == ALLOCATED_BLOCK_MARKER || markers[i] == FREED_BLOCK_MARKER
  }

  lemma RecoveredIsConsistent(m: seq<byte>, end: nat)
    requires end < |m| && m[end] == HEAP_END_MARKER
    requires forall i :: 0 <= i < end ==> m[i] == ALLOCATED_BLOCK_MARKER || m[i] == FREED_BLOCK_MARKER
    ensures ScanBorder(m, 0) == end
    ensures m[0] != FREED_BLOCK_MARKER ==> Consistent(AllocatorState(m, end, FreedBelow(m, end)))
  {
    ScanFindsFirst(m, 0, end);
  }

  lemma {:induction false} ScanFindsFirst(m: seq<byte>, i: nat, end: nat)
    requires i <= end < |m| && m[end] == HEAP_END_MARKER
    requires forall k :: i <= k < end ==> m[k] != HEAP_END_MARKER
    ensures ScanBorder(m, i) == end
    decreases end - i
  {
    if i < end {
      ScanFindsFirst(m, i + 1, end);
    }
  }

  // ---------------------------------------------------------------------------
  // Properties of the allocator
  // ---------------------------------------------------------------------------

  /**
   * Recovery rebuilds the live state: whenever the RAM state is consistent with the markers, the
   * forward scan finds exactly its border and its free set.
   */
  lemma RecoveryMatchesLiveState(s: AllocatorState)
    requires Consistent(s)
    ensures ScanBorder(s.markers, 0) == s.border && FreedBelow(s.markers, s.border) == s.freed
  {
    ScanFindsFirst(s.markers, 0, s.border);
  }

  lemma AllocKeepsConsistent(s: AllocatorState, pick: nat)
    requires Consistent(s) && (s.freed != {} ==> pick in s.freed)
    ensures Consistent(AllocSpec(s, pick).state)
  {
    var t := AllocSpec(s, pick).state;
    if s.freed != {} {
      assert FreedBelow(t.markers, t.border) == s.freed - {pick};
    } else if s.border + 1 < |s.markers| {
      assert FreedBelow(t.markers, t.border) == FreedBelow(s.markers, s.border);
    }
  }

  lemma FreeKeepsConsistent(s: AllocatorState, b: nat)
    requires Consistent(s) && 0 < b <= s.border
    ensures Consistent(FreeSpec(s, b))
  {
    var t := FreeSpec(s, b);
    if b < s.border {
      assert FreedBelow(t.markers, t.border) == s.freed + {b};
    } else {
      var nb := WalkBack(s.markers, b - 1);
      assert FreedBelow(t.markers, t.border) == set i | i in s.freed && i < nb;
    }
  }

  /**
   * `pmem_alloc` hands out a block that was not allocated, which then is, and no other block's
   * allocation status changes; it fails only when no block is freed and the border is at its maximum.
   */
  lemma AllocHandsOutFreeBlock(s: AllocatorState, pick: nat)
    requires Consistent(s) && (s.freed != {} ==> pick in s.freed)
    ensures var a := AllocSpec(s, pick);
      (a.result.Err? <==> s.freed == {} && s.border + 1 == |s.markers|) &&
      (a.result.Err? ==> a.state == s) &&
      (a.result.Ok? ==>
         var b := a.result.value;
         b < |s.markers| && !IsAllocatedSpec(s, b) && IsAllocatedSpec(a.state, b) &&
         forall c :: 0 <= c < |s.markers| && c != b ==> IsAllocatedSpec(a.state, c) == IsAllocatedSpec(s, c))
  {
  }

  /** `pmem_free` of an allocated block makes it unallocated and changes no other block's status. */
  lemma FreeReleasesOnlyThatBlock(s: AllocatorState, b: nat)
    requires Consistent(s) && 0 < b <= s.border && IsAllocatedSpec(s, b)
    ensures var t := FreeSpec(s, b);
      !IsAllocatedSpec(t, b) &&
      forall c :: 0 <= c < |s.markers| && c != b ==> IsAllocatedSpec(t, c) == IsAllocatedSpec(s, c)
  {
  }

  /**
   * A crash between the bump's two marker writes loses that allocation but nothing else: the markers
   * are still consistent with the state before the allocation, which recovery therefore rebuilds.
   */
  lemma BumpCrashRecoversOld(s: AllocatorState)
    requires Consistent(s) && s.freed == {} && s.border + 1 < |s.markers|
    ensures Consistent(AllocatorState(BumpCrashImage(s), s.border, s.freed))
    ensures ScanBorder(BumpCrashImage(s), 0) == s.border
  {
    var t := AllocatorState(BumpCrashImage(s), s.border, s.freed);
    assert FreedBelow(t.markers, t.border) == FreedBelow(s.markers, s.border);
    RecoveryMatchesLiveState(t);
  }

  /**
   * With nothing else freed, a block that is freed and then allocated again is handed back: below the
   * border it is the only member of the free set; at the border the heap end steps back one block and
   * the bump hands the same block out again.
   */
  lemma FreeThenAllocReuses(s: AllocatorState, b: nat)
    requires Consistent(s) && s.freed == {} && 0 < b <= s.border
    ensures Consistent(FreeSpec(s, b))
    ensures AllocSpec(FreeSpec(s, b), b).result == Ok(b)
  {
    FreeKeepsConsistent(s, b);
    if b == s.border {
      assert b - 1 !in FreedBelow(s.markers, s.border);
    }
  }

  /** With one-byte blocks, three allocations on a new heap return offsets 2, 4 and 6, and freeing the last releases it. */
  lemma ThreeAllocations(markers: seq<byte>)
    requires |markers| >= 4
    ensures var s0 := NewAllocatorSpec(markers);
      var a1 := AllocSpec(s0, 0);
      var a2 := AllocSpec(a1.state, 0);
      var a3 := AllocSpec(a2.state, 0);
      a1.result == Ok(1) && a2.result == Ok(2) && a3.result == Ok(3) &&
      BlockStart(1, 1) == 2 && BlockStart(1, 2) == 4 && BlockStart(1, 3) == 6 &&
      IsAllocatedSpec(a3.state, 1) && IsAllocatedSpec(a3.state, 2) && IsAllocatedSpec(a3.state, 3) &&
      var f := FreeSpec(a3.state, 3);
      IsAllocatedSpec(f, 1) && IsAllocatedSpec(f, 2) && !IsAllocatedSpec(f, 3)
  {
    var s0 := NewAllocatorSpec(markers);
    AllocKeepsConsistent(s0, 0);
    var a1 := AllocSpec(s0, 0);
    AllocKeepsConsistent(a1.state, 0);
    var a2 := AllocSpec(a1.state, 0);
    AllocKeepsConsistent(a2.state, 0);
    var a3 := AllocSpec(a2.state, 0);
    assert a3.state.border == 3 && a3.state.freed == {};
    FreeReleasesOnlyThatBlock(a3.state, 3);
  }
}
