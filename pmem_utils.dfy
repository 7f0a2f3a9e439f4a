/**
 * Cache-line alignment of offsets into a persistent region (code/common/pmem_utils.h).
 * The durability flush `pmem_do_flush` is a foreign call; in this model every region
 * write is durable when the operation that makes it returns, and crash states are the
 * intermediate region images named by the operations' specifications.
 */
module PmemUtils {

  /** Cache-line size; the source asks `sysconf` for it, the model fixes the usual 64. */
  const CACHE_LINE_SIZE: nat := 64

  /** `get_cache_line_aligned_address`: the least multiple of the cache-line size that is at least `address`. */
  function AlignUp(address: nat): (r: nat)
    ensures r >= address && r % CACHE_LINE_SIZE == 0
    ensures r - address < CACHE_LINE_SIZE
  {
    if address % CACHE_LINE_SIZE == 0 then address
    else address + (CACHE_LINE_SIZE - address % CACHE_LINE_SIZE)
  }

  /** No aligned value lies in `[address, AlignUp(address))`: the result is the least candidate. */
  lemma AlignUpIsLeast(address: nat, x: nat)
    requires x >= address && x % CACHE_LINE_SIZE == 0
    ensures AlignUp(address) <= x
  {
  }

  /** For `address = k * CACHE_LINE_SIZE + b` with `b` inside one line: `k` lines if `b == 0`, else `k + 1`. */
  lemma AlignUpOfLineAndRemainder(k: nat, b: nat)
    requires b < CACHE_LINE_SIZE
    ensures AlignUp(k * CACHE_LINE_SIZE + b) == if b == 0 then k * CACHE_LINE_SIZE else (k + 1) * CACHE_LINE_SIZE
  {
    var a := k * CACHE_LINE_SIZE + b;
    assert a % CACHE_LINE_SIZE == b && a / CACHE_LINE_SIZE == k;
  }

  /** Aligning twice is aligning once. */
  lemma AlignUpIdempotent(address: nat)
    ensures AlignUp(AlignUp(address)) == AlignUp(address)
  {
  }

  /** An aligned address is returned unchanged, and only an aligned one is. */
  lemma AlignUpFixesAligned(address: nat)
    ensures AlignUp(address) == address <==> address % CACHE_LINE_SIZE == 0
  {
  }

  /** Alignment is monotone, so frames laid out one after another stay in order. */
  lemma AlignUpMonotone(a: nat, b: nat)
    requires a <= b
    ensures AlignUp(a) <= AlignUp(b)
  {
    AlignUpIsLeast(a, AlignUp(b));
  }
}
