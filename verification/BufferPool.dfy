/**
 * The buffer pool: a fixed set of blocks whose free ones are in a pointer queue.
 */
module BufferPools {
  import opened Words
  import opened Bits
  import opened QueuesSpsc

  ghost predicate NoRepeats(s: seq<nat>)
  {
    forall i, j | 0 <= i < j < |s| :: s[i] != s[j]
  }

  /** The blocks numbered below `n`, each free once or in use. */
  ghost predicate Shared(free: seq<nat>, inUse: set<nat>, n: nat)
  {
    && NoRepeats(free)
    && (forall b | b in free :: b < n && b !in inUse)
    && (forall b | b in inUse :: b < n)
    && |free| + |inUse| == n
  }

  lemma TakeFront(free: seq<nat>, inUse: set<nat>, n: nat)
    requires Shared(free, inUse, n) && free != []
    ensures free[0] !in inUse && Shared(free[1..], inUse + {free[0]}, n)
  {
    forall b | b in free[1..] ensures b < n && b !in inUse + {free[0]} {
      var i :| 0 <= i < |free[1..]| && free[1..][i] == b;
      assert free[i + 1] == b && free[0] != free[i + 1];
      assert b in free;
    }
  }

  lemma GiveBack(free: seq<nat>, inUse: set<nat>, n: nat, b: nat)
    requires Shared(free, inUse, n) && b in inUse
    ensures Shared(free + [b], inUse - {b}, n)
  {
  }

  /** Every block is in exactly one of the two places. */
  lemma FreeOrInUse(free: seq<nat>, inUse: set<nat>, n: nat, b: nat)
    requires Shared(free, inUse, n) && b < n
    ensures b in free <==> b !in inUse
  {
    var f := SetOf(free);
    FreeSet(free);
    assert f !! inUse;
    assert |f + inUse| == |f| + |inUse|;
    assert f + inUse <= Below(n);
    SubsetOfSize(f + inUse, Below(n));
  }

  ghost function SetOf(s: seq<nat>): set<nat>
  {
    set x | x in s
  }

  lemma {:induction false} FreeSet(free: seq<nat>)
    requires NoRepeats(free)
    ensures |SetOf(free)| == |free|
  {
    if free != [] {
      var rest := free[1..];
      FreeSet(rest);
      assert free[0] !in SetOf(rest) by {
        assert forall i | 0 <= i < |rest| :: rest[i] == free[i + 1] != free[0];
      }
      assert SetOf(free) == SetOf(rest) + {free[0]};
    }
  }

  /** The block numbers below `n`. */
  ghost function Below(n: nat): (r: set<nat>)
    ensures |r| == n && forall x: nat :: x in r <==> x < n
  {
    if n == 0 then {} else Below(n - 1) + {n - 1}
  }

  lemma SubsetOfSize(a: set<nat>, b: set<nat>)
    requires a <= b && |a| == |b|
    ensures a == b
  {
    assert |b - a| == |b| - |a|;
  }

  /** Where block `i` lies in the allocation. */
  function BlockAt(i: nat, blockCount: nat, blockSize: nat): (r: nat)
    requires i < blockCount
  {
    (blockCount - 1 - i) * blockSize
  }

  /** Blocks do not overlap and stay in the allocation. */
  lemma BlocksDisjoint(i: nat, j: nat, blockCount: nat, blockSize: nat)
    requires i < j < blockCount
    ensures BlockAt(j, blockCount, blockSize) + blockSize <= BlockAt(i, blockCount, blockSize)
    ensures BlockAt(i, blockCount, blockSize) + blockSize <= blockCount * blockSize
  {
    var a, b := blockCount - 1 - j, blockCount - 1 - i;
    Distribute(b, a, blockSize);
    Distribute(blockCount, b, blockSize);
    if blockSize > 0 {
      MulGe(b - a, blockSize);
      MulGe(blockCount - b, blockSize);
    }
  }

  class BufferPool {
    const blockCount: nat
    const blockSize: nat
    var blocksInUse: nat
    var bytesInUse: nat
    const free: QueueSpsc<nat>
    /** The blocks that callers have. */
    ghost var inUse: set<nat>

    ghost predicate Valid()
      reads this, free, free.buffer
    {
      && free.Valid() && free.pushing.NotPushing? && free.popping.NotPopping?
      && blockCount <= free.capacity
      && Shared(free.Contents(), inUse, blockCount)
      && blocksInUse == |inUse| && bytesInUse == blocksInUse * blockSize
    }

    /** `mn_buffer_pool_setup`: all blocks free, in order. */
    constructor (blockCount: nat, blockSize: nat)
      requires 0 < blockCount <= WORD / 2
      ensures Valid() && this.blockCount == blockCount && this.blockSize == blockSize && inUse == {}
      ensures free.Contents() == seq(blockCount, i => i) && fresh(free) && fresh(free.buffer)
    {
      CapacityRounded(blockCount);
      var slots := new nat[RoundedCapacity(blockCount)](_ => 0);
      var queue := new QueueSpsc(slots);
      FillQueue(queue, blockCount);
      this.blockCount, this.blockSize, blocksInUse, bytesInUse, free := blockCount, blockSize, 0, 0, queue;
      inUse := {};
    }

    /** A front block, if there is one, goes to the caller. */
    ghost predicate Took(was: seq<nat>, wasInUse: set<nat>, ok: bool)
      reads this, free
      requires free.taken <= |free.pushed|
    {
      && ok == (was != [])
      && (if ok then free.Contents() == was[1..] && inUse == wasInUse + {was[0]} && was[0] !in wasInUse
          else free.Contents() == was && inUse == wasInUse)
    }

    /** Count one block more. */
    method CountOut(ghost was: seq<nat>)
      requires free.Valid() && free.pushing.NotPushing? && free.popping.NotPopping? && blockCount <= free.capacity
      requires was != [] && free.Contents() == was[1..] && Shared(was, inUse, blockCount)
      requires blocksInUse == |inUse| && bytesInUse == blocksInUse * blockSize
      modifies this
      ensures Valid() && inUse == old(inUse) + {was[0]} && was[0] !in old(inUse)
    {
      TakeFront(was, inUse, blockCount);
      Distribute(blocksInUse, 1, blockSize);
      inUse := inUse + {was[0]};
      blocksInUse, bytesInUse := blocksInUse + 1, bytesInUse + blockSize;
    }

    /** `mn_buffer_pool_push` of a block that is in use: there is always room for it. */
    method Push(b: nat) returns (ok: bool)
      requires Valid() && b in inUse
      modifies this, free, free.buffer
      ensures Valid() && ok && free.Contents() == old(free.Contents()) + [b] && inUse == old(inUse) - {b}
    {
      GiveBack(free.Contents(), inUse, blockCount, b);
      ghost var was := free.Contents();
      ok := free.Push(b);
      assert free.Contents() == was + [b];
      Distribute(blocksInUse, 1, blockSize);
      inUse := inUse - {b};
      blocksInUse, bytesInUse := blocksInUse - 1, bytesInUse - blockSize;
    }

    /** `mn_buffer_pool_peek`: the block that the next pop takes. */
    method Peek() returns (ok: bool, block: nat)
      requires Valid()
      modifies free
      ensures Valid() && free.Contents() == old(free.Contents()) && ok == (free.Contents() != [])
      ensures ok ==> block == free.Contents()[0] && free.Current() && block !in inUse
    {
      var items;
      ok, items := free.Peek();
      block := if ok then items[0] else 0;
      assert ok ==> free.Contents()[0] in free.Contents();
    }

    /** `mn_buffer_pool_pop`. */
    method Pop() returns (ok: bool)
      requires Valid()
      modifies this, free
      ensures Valid() && Took(old(free.Contents()), old(inUse), ok)
    {
      ghost var was := free.Contents();
      ok := free.Pop();
      if ok {
        assert free.Contents() == was[1..];
        CountOut(was);
      }
    }

    /**
     * `mn_buffer_pool_pop_cached`. With a current peek the front block goes into use; without one,
     * and exactly then, the pool's counts no longer hold.
     */
    method PopCached()
      requires Valid()
      modifies this, free
      ensures Valid() <==> old(free.Current())
      ensures old(free.Current()) ==> Took(old(free.Contents()), old(inUse), true)
    {
      ghost var was, current := free.Contents(), free.Current();
      free.PopCached();
      if current {
        assert free.Contents() == was[1..];
        TakeFront(was, inUse, blockCount);
        inUse := inUse + {was[0]};
      }
      Distribute(blocksInUse, 1, blockSize);
      blocksInUse, bytesInUse := blocksInUse + 1, bytesInUse + blockSize;
    }

    /** `mn_buffer_pool_pop_back`. */
    method PopBack() returns (ok: bool, block: nat)
      requires Valid()
      modifies this, free
      ensures Valid() && Took(old(free.Contents()), old(inUse), ok)
      ensures ok ==> block == old(free.Contents())[0]
    {
      ghost var was := free.Contents();
      var items;
      ok, items := free.PopUpTo(1);
      block := if ok then items[0] else 0;
      if ok {
        assert free.Contents() == was[1..];
        CountOut(was);
      }
    }

    /** Any blocks: as many are free as are not in use, and each is in one place. */
    lemma Conserved(b: nat)
      requires Valid() && b < blockCount
      ensures blocksInUse + |free.Contents()| == blockCount
      ensures b in free.Contents() <==> b !in inUse
    {
      FreeOrInUse(free.Contents(), inUse, blockCount, b);
    }
  }

  /** The loop of `mn_buffer_pool_setup`; no push finds the queue full. */
  method FillQueue(queue: QueueSpsc<nat>, n: nat)
    requires queue.Valid() && queue.pushing.NotPushing? && queue.popping.NotPopping? && queue.Contents() == []
    requires n <= queue.capacity
    modifies queue, queue.buffer
    ensures queue.Valid() && queue.pushing.NotPushing? && queue.popping.NotPopping?
    ensures queue.Contents() == seq(n, i => i)
  {
    for k := 0 to n
      invariant queue.Valid() && queue.pushing.NotPushing? && queue.popping.NotPopping?
      invariant queue.taken == old(queue.taken) && queue.Contents() == seq(k, i => i)
    {
      ghost var was := queue.Contents();
      var ok := queue.Push(k);
      assert queue.Contents() == was + [k];
      assert seq(k + 1, i => i) == seq(k, i => i) + [k];
    }
  }
}
