/**
  The 32-bit capacity arithmetic of the byte queue over whole runs of insertions and
  removals: it does not wrap, every reallocation more than doubles the buffer, and the
  buffer stays proportional to the peak content.
*/
module QueueGrowth {
  import opened Bytes
  import opened ByteQueue

  const GIGA: nat := 0x4000_0000

  /** One reallocation. */
  lemma GrowthArithmetic(max: uint32, block: uint32, need: nat)
    requires 0 < block <= GIGA && max < need <= GIGA
    ensures var cap := GrownCapacity(max, block, need);
      && cap == max + block * (1 + need / block)
      && 2 * max < cap && need < cap
      && cap <= 2 * need + block
  {
    var blocks := need / block;
    assert need == block * blocks + need % block;
    assert block * (1 + blocks) == block + block * blocks;
  }

  /** For block sizes up to 256 MB the computed capacity holds the content exactly when nothing wraps. */
  lemma CapacityHoldsExactly(max: uint32, block: uint32, need: nat)
    requires 0 < block <= 0x1000_0000 && max < need <= MAX_UINT32
    ensures need <= GrownCapacity(max, block, need)
            <==> need >= 0xF000_0000 || max + block * (1 + need / block) <= MAX_UINT32
  {
    var blocks := need / block;
    assert need == block * blocks + need % block;
    assert block * (1 + blocks) == block + block * blocks;
  }

  /** Two gigabytes full and one byte more: the capacity wraps to one block, far too small for the result. */
  lemma CapacityWraps()
    ensures GrownCapacity(0x8000_0000, DEFAULT_BLOCK_SIZE, 0x8000_0001) == DEFAULT_BLOCK_SIZE
  {
    assert 0x8000_0001 / 4096 == 0x8_0000;
  }

  /** A change of the content: bytes inserted anywhere, or removed anywhere. */
  datatype Change = Grows(n: nat) | Shrinks(n: nat)

  function SizeAfter(size: nat, c: Change): nat {
    match c
    case Grows(n) => size + n
    case Shrinks(n) => if n > size then 0 else size - n
  }

  /** The capacity UQueue.Insert is proved to leave. */
  function CapacityAfter(max: uint32, block: uint32, size: nat, c: Change): uint32
    requires block > 0
  {
    if c.Grows? && size + c.n > max then GrownCapacity(max, block, size + c.n) else max
  }

  function Capacity(max: uint32, block: uint32, size: nat, run: seq<Change>): uint32
    requires block > 0
    decreases |run|
  {
    if run == [] then max
    else Capacity(CapacityAfter(max, block, size, run[0]), block, SizeAfter(size, run[0]), run[1..])
  }

  function Peak(size: nat, run: seq<Change>): (p: nat)
    ensures size <= p
    decreases |run|
  {
    if run == [] then size
    else
      var rest := Peak(SizeAfter(size, run[0]), run[1..]);
      if size > rest then size else rest
  }

  /** Every insertion of the run finds its precondition satisfied. */
  ghost predicate AllFit(max: uint32, block: uint32, size: nat, run: seq<Change>)
    requires block > 0
    decreases |run|
  {
    run == [] ||
    var size', max' := SizeAfter(size, run[0]), CapacityAfter(max, block, size, run[0]);
    && size' <= max'
    && (max' != max ==> 2 * max < max')
    && AllFit(max', block, size', run[1..])
  }

  /** While content and block size stay within 2^30, no insertion of any run can overflow, and the buffer stays linear. */
  lemma {:induction false} RunsNeverWrap(max: uint32, block: uint32, size: nat, run: seq<Change>)
    requires 0 < block <= GIGA && size <= max && Peak(size, run) <= GIGA
    ensures AllFit(max, block, size, run)
    ensures Capacity(max, block, size, run) <= if max > 2 * Peak(size, run) + block then max else 2 * Peak(size, run) + block
    decreases |run|
  {
    if run != [] {
      var size' := SizeAfter(size, run[0]);
      assert size' <= Peak(size', run[1..]);
      if run[0].Grows? && size' > max {
        GrowthArithmetic(max, block, size');
      }
      RunsNeverWrap(CapacityAfter(max, block, size, run[0]), block, size', run[1..]);
    }
  }
}
