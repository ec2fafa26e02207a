/**
  The pool of byte queues for reuse (CScopeUQueueEx::CQPool in include/membuffer.h). `held` is
  the set of queues now in the hands of their users; a queue is taken off it when its user gives
  it back, and nobody else may give it back.
*/
module QueuePool {
  import opened Bytes
  import opened ByteQueue

  /** An idle queue as the pool keeps it: valid and without content. */
  ghost predicate Idle(q: UQueue)
    reads q
  {
    q.size == 0 && q.headPos == 0 && q.content == [] && q.buf.Length == q.maxBuffer && q.blockSize > 0
  }

  /** The capacity of an idle queue after a shrink; a queue shrunk to nothing keeps one block. */
  function Shrunk(capacity: nat, blockSize: nat, newSize: nat): nat {
    if capacity <= newSize then capacity else if newSize == 0 then blockSize else newSize
  }

  /** Prepares an idle queue for its next user. */
  method Refit(p: UQueue, initSize: uint32, blockSize: uint32)
    requires Idle(p)
    modifies p
    ensures p.Valid() && p.content == [] && !p.utf8ToW && !p.toUtf8
    ensures p.maxBuffer == if old(p.maxBuffer) < initSize then initSize else old(p.maxBuffer)
    ensures p.blockSize == if blockSize == 0 then DEFAULT_BLOCK_SIZE else blockSize
    ensures p.buf == old(p.buf) || fresh(p.buf)
  {
    p.blockSize := if blockSize == 0 then DEFAULT_BLOCK_SIZE else blockSize;
    if p.maxBuffer < initSize {
      p.ReallocBuffer(initSize);
    }
    p.utf8ToW, p.toUtf8 := false, false;
  }

  class CQPool {
    var free: seq<UQueue>
    ghost var held: set<UQueue>

    /** Nothing here depends on what the users do with the queues they hold. */
    ghost predicate Valid()
      reads this, free
    {
      && (forall i, j :: 0 <= i < j < |free| ==> free[i] != free[j])
      && (forall q <- free :: q !in held && Idle(q))
    }

    ghost function All(): set<UQueue>
      reads this
    {
      held + set q | q in free
    }

    /** No two queues, idle or held, share storage. */
    ghost predicate Apart()
      reads this, free, held
    {
      forall p <- All(), q <- All() :: p != q ==> p.buf != q.buf
    }

    constructor ()
      ensures Valid() && Apart() && free == [] && held == {}
    {
      free, held := [], {};
    }

    /**
      Hands out an empty queue with default conversion flags and at least the capacity asked for.
      It is in nobody else's hands, and it shares storage with no other queue.
    */
    method Lock(initSize: uint32, blockSize: uint32) returns (p: UQueue)
      requires Valid() && Apart()
      modifies this, free
      ensures Valid() && Apart()
      ensures p !in old(held) && held == old(held) + {p} && p !in free
      ensures p.Valid() && p.content == [] && !p.utf8ToW && !p.toUtf8 && p.maxBuffer >= initSize
      ensures p.blockSize == if blockSize == 0 then DEFAULT_BLOCK_SIZE else blockSize
      ensures old(free) == [] ==> fresh(p) && fresh(p.buf) && free == []
      ensures old(free) != [] ==> p == old(free[0]) && free == old(free)[1..] && (p.buf == old(free[0].buf) || fresh(p.buf))
      ensures forall q <- free :: unchanged(q)
    {
      if |free| > 0 {
        p := free[0];
        assert forall i :: 1 <= i < |free| ==> free[1..][i - 1] == free[i];
        free := free[1..];
        Refit(p, initSize, blockSize);
      } else {
        p := new UQueue(initSize, blockSize);
      }
      held := held + {p};
    }

    /** Takes a queue back from its user, emptied. */
    method Unlock(q: UQueue)
      requires Valid() && Apart() && q in held && q.Valid()
      modifies this, q, q.buf
      ensures Valid() && Apart()
      ensures held == old(held) - {q} && free == [q] + old(free) && Idle(q)
      ensures q.buf == old(q.buf) && forall p <- old(free) :: unchanged(p)
    {
      q.SetSize(0, true);
      free := [q] + free;
      held := held - {q};
    }

    /** Shrinks the idle queues that are larger than the size given. */
    method ResetSize(newSize: uint32)
      requires Valid() && Apart()
      modifies free
      ensures Valid() && Apart() && free == old(free) && held == old(held)
      ensures forall q <- free :: q.maxBuffer == Shrunk(old(q.maxBuffer), old(q.blockSize), newSize)
      ensures forall q <- held :: unchanged(q)
    {
      var n := 0;
      while n < |free|
        invariant 0 <= n <= |free| && free == old(free) && held == old(held)
        invariant Valid() && Apart()
        invariant forall i :: n <= i < |free| ==> unchanged(free[i])
        invariant forall i :: 0 <= i < n ==>
          free[i].maxBuffer == Shrunk(old(free[i].maxBuffer), old(free[i].blockSize), newSize)
        invariant forall q <- held :: unchanged(q)
        invariant forall q <- free :: q.buf == old(q.buf) || fresh(q.buf)
      {
        var p := free[n];
        assert Idle(p);
        if p.maxBuffer > newSize {
          p.ReallocBuffer(newSize);
        }
        n := n + 1;
      }
    }

    /** Deletes the idle queues; the held ones stay with their users. */
    method DestroyUQueuePool()
      requires Valid() && Apart()
      modifies this
      ensures Valid() && Apart() && free == [] && held == old(held)
    {
      free := [];
    }
  }
}
