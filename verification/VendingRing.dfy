/**
 * The ring buffer that vends byte buffers of one allocation, by one acquiring thread, and
 * takes them back, in the order in which they were vended, from another. Pointers are
 * offsets into the allocation. The acquirer decides on a tail that may be stale.
 */
module VendingRings {
  import opened Basics

  /** A vended buffer. */
  datatype Buf = Buf(start: nat, len: nat) {
    function End(): nat { start + len }
  }

  // --- the choice of a buffer ------------------------------------------------------------

  /** `aws_ring_buffer_acquire` after the loads. */
  function Choose(size: nat, head: nat, tail: nat, requested: nat): Option<Buf>
    requires head <= size && tail <= size
  {
    if head == tail then
      if requested > size then None else Some(Buf(0, requested))
    else if tail > head then
      if tail - head - 1 >= requested then Some(Buf(head, requested)) else None
    else if size - head >= requested then Some(Buf(head, requested))
    else if tail > requested then Some(Buf(0, requested))
    else None
  }

  /** `aws_ring_buffer_acquire_up_to` after the loads. */
  function ChooseUpTo(size: nat, head: nat, tail: nat, minimum: nat, requested: nat): Option<Buf>
    requires head <= size && tail <= size && 0 < minimum <= requested
  {
    if head == tail then
      var all := if size > requested then requested else size;
      if all < minimum then None else Some(Buf(0, all))
    else if tail > head then
      var space := tail - head - 1;
      var returnable := if space > requested then requested else space;
      if returnable >= minimum then Some(Buf(head, returnable)) else None
    else
      var headSpace, tailSpace := size - head, tail;
      if headSpace >= requested then Some(Buf(head, requested))
      else if tailSpace > requested then Some(Buf(0, requested))
      else if headSpace >= minimum && headSpace >= tailSpace then Some(Buf(head, headSpace))
      else if tailSpace > minimum then Some(Buf(0, tailSpace - 1))
      else None
  }

  /** A free run of the ring that a buffer may be cut from; the tail itself is never reached. */
  predicate Run(size: nat, head: nat, tail: nat, b: Buf)
  {
    if head == tail then b.start == 0 && b.len <= size
    else if tail > head then b.start == head && b.End() < tail
    else (b.start == head && b.End() <= size) || (b.start == 0 && b.End() < tail)
  }

  /**
   * `acquire_up_to` vends from a free run, at least the minimum and at most what was
   * requested; it fails only when no run holds the minimum, and gives less than was
   * requested only when no run holds more than it gives.
   */
  lemma UpToBest(size: nat, head: nat, tail: nat, minimum: nat, requested: nat, other: Buf)
    requires head <= size && tail <= size && 0 < minimum <= requested
    ensures var c := ChooseUpTo(size, head, tail, minimum, requested);
            && (c.Some? ==> Run(size, head, tail, c.value) && minimum <= c.value.len <= requested)
            && (Run(size, head, tail, other) && other.len >= minimum ==> c.Some? && c.value.len >= Min(other.len, requested))
  {
  }

  /** The length of the longest free run. */
  function Usable(size: nat, head: nat, tail: nat): int
  {
    if head == tail then size
    else if tail > head then tail - head - 1
    else Max(size - head, tail - 1)
  }

  /** It is the longest: no run is longer, and some run is as long. */
  lemma UsableIsLongest(size: nat, head: nat, tail: nat, b: Buf)
    requires head <= size && tail <= size
    ensures Run(size, head, tail, b) ==> b.len <= Usable(size, head, tail)
    ensures Usable(size, head, tail) >= 0
    ensures var n: nat := Usable(size, head, tail); Run(size, head, tail, Buf(0, n)) || Run(size, head, tail, Buf(head, n))
  {
  }

  /** `acquire_up_to` vends what was requested or the longest free run, unless the minimum is longer. */
  lemma UsesLongest(size: nat, head: nat, tail: nat, minimum: nat, requested: nat)
    requires head <= size && tail <= size && 0 < minimum <= requested
    ensures var c := ChooseUpTo(size, head, tail, minimum, requested);
            && (c.Some? <==> minimum <= Usable(size, head, tail))
            && (c.Some? ==> c.value.len == Min(requested, Usable(size, head, tail)))
  {
  }

  /** `acquire` is the case in which all that is requested is the minimum. */
  lemma WholeIsUpTo(size: nat, head: nat, tail: nat, requested: nat)
    requires head <= size && tail <= size && requested > 0
    ensures Choose(size, head, tail, requested) == ChooseUpTo(size, head, tail, requested, requested)
  {
  }

  // --- the layout of the vended buffers --------------------------------------------------

  /** Buffers one after the other from `from` to `to`. */
  ghost predicate Chain(bs: seq<Buf>, from: nat, to: nat)
  {
    if bs == [] then from == to
    else bs[0].start == from && bs[0].len > 0 && Chain(bs[1..], bs[0].End(), to)
  }

  lemma {:induction false} ChainPush(bs: seq<Buf>, from: nat, to: nat, b: Buf)
    requires Chain(bs, from, to) && b.start == to && b.len > 0
    ensures Chain(bs + [b], from, b.End())
  {
    if bs == [] {
      assert bs + [b] == [b];
      assert [b][1..] == [];
    } else {
      ChainPush(bs[1..], bs[0].End(), to, b);
      assert (bs + [b])[1..] == bs[1..] + [b];
    }
  }

  /** A chain's buffers lie in order within its ends. */
  lemma {:induction false} ChainSpan(bs: seq<Buf>, from: nat, to: nat)
    requires Chain(bs, from, to)
    ensures from + |bs| <= to
    ensures forall i | 0 <= i < |bs| :: from <= bs[i].start && bs[i].End() <= to && bs[i].len > 0
    ensures forall i, j | 0 <= i < j < |bs| :: bs[i].End() <= bs[j].start
  {
    if bs != [] {
      var rest := bs[1..];
      ChainSpan(rest, bs[0].End(), to);
      assert forall i | 0 < i < |bs| :: bs[i] == rest[i - 1];
    }
  }

  /** All in one chain from the tail to the head. */
  ghost predicate Straight(high: seq<Buf>, low: seq<Buf>, size: nat, head: nat, tail: nat)
  {
    low == [] && Chain(high, tail, head) && tail <= head <= size
  }

  /** One chain from the tail up, and one from the start of the allocation to the head. */
  ghost predicate Wrapped(high: seq<Buf>, low: seq<Buf>, size: nat, head: nat, tail: nat, top: nat)
  {
    low != [] && Chain(high, tail, top) && Chain(low, 0, head) && head < tail <= top <= size
  }

  ghost predicate Laid(high: seq<Buf>, low: seq<Buf>, size: nat, head: nat, tail: nat)
  {
    Straight(high, low, size, head, tail) || exists top: nat :: Wrapped(high, low, size, head, tail, top)
  }

  /** The head meets the tail exactly when nothing is outstanding. */
  lemma EmptyIffMeet(high: seq<Buf>, low: seq<Buf>, size: nat, head: nat, tail: nat)
    requires Laid(high, low, size, head, tail)
    ensures head <= size && tail <= size
    ensures head == tail <==> high + low == []
    ensures tail < head <==> low == [] && high != []
    ensures tail > head <==> low != []
  {
    if Straight(high, low, size, head, tail) {
      ChainSpan(high, tail, head);
    }
  }

  /** In bounds and without overlap. */
  ghost predicate Apart(a: Buf, b: Buf, size: nat)
  {
    a.End() <= size && b.End() <= size && (a.End() <= b.start || b.End() <= a.start)
  }

  /** An outstanding buffer is in bounds. */
  lemma LaidInside(high: seq<Buf>, low: seq<Buf>, size: nat, head: nat, tail: nat, i: nat)
    requires Laid(high, low, size, head, tail) && i < |high| + |low|
    ensures (high + low)[i].End() <= size
  {
    if Straight(high, low, size, head, tail) {
      ChainSpan(high, tail, head);
    } else {
      var top: nat :| Wrapped(high, low, size, head, tail, top);
      ChainSpan(high, tail, top);
      ChainSpan(low, 0, head);
    }
  }

  /** Outstanding buffers are in bounds and do not overlap. */
  lemma LaidApart(high: seq<Buf>, low: seq<Buf>, size: nat, head: nat, tail: nat, i: nat, j: nat)
    requires Laid(high, low, size, head, tail) && i < j < |high| + |low|
    ensures Apart((high + low)[i], (high + low)[j], size)
  {
    if Straight(high, low, size, head, tail) {
      ChainSpan(high, tail, head);
    } else {
      var top: nat :| Wrapped(high, low, size, head, tail, top);
      ChainSpan(high, tail, top);
      ChainSpan(low, 0, head);
    }
  }

  /** The first outstanding buffer goes: the low chain becomes the high one when it is reached. */
  function DropHigh(high: seq<Buf>, low: seq<Buf>): seq<Buf>
  {
    if high != [] then high[1..] else if low != [] then low[1..] else []
  }

  function DropLow(high: seq<Buf>, low: seq<Buf>): seq<Buf>
  {
    if high != [] then low else []
  }

  lemma ReleaseKeeps(high: seq<Buf>, low: seq<Buf>, size: nat, head: nat, tail: nat)
    requires Laid(high, low, size, head, tail) && high + low != []
    ensures var b := (high + low)[0];
            var tail' := b.End();
            && DropHigh(high, low) + DropLow(high, low) == (high + low)[1..]
            && Laid(DropHigh(high, low), DropLow(high, low), size, head, tail')
            && (tail < head ==> tail <= tail' <= head)
            && (tail > head ==> tail' >= tail || tail' <= head)
  {
    if Straight(high, low, size, head, tail) {
      ChainSpan(high[1..], high[0].End(), head);
    } else {
      var top: nat :| Wrapped(high, low, size, head, tail, top);
      if high != [] {
        ReleaseHigh(high, low, size, head, tail, top);
      } else {
        ReleaseLow(low, size, head, tail, top);
      }
    }
  }

  lemma ReleaseHigh(high: seq<Buf>, low: seq<Buf>, size: nat, head: nat, tail: nat, top: nat)
    requires Wrapped(high, low, size, head, tail, top) && high != []
    ensures Wrapped(high[1..], low, size, head, high[0].End(), top)
  {
    ChainSpan(high[1..], high[0].End(), top);
  }

  lemma ReleaseLow(low: seq<Buf>, size: nat, head: nat, tail: nat, top: nat)
    requires Wrapped([], low, size, head, tail, top)
    ensures Straight(low[1..], [], size, head, low[0].End()) && low[0].End() <= head
  {
    ChainSpan(low[1..], low[0].End(), head);
  }

  // --- the acquirer's knowledge ----------------------------------------------------------

  datatype Phase = Resting | Loaded(tailSeen: nat) | Resetting(len: nat)

  /** What a tail seen earlier says about the ring now. */
  ghost predicate Known(head: nat, tail: nat, seen: nat)
  {
    if seen == head then tail == head
    else if seen < head then seen <= tail <= head
    else seen <= tail || tail <= head
  }

  /** The chosen buffer can be added although the tail has moved since it was seen. */
  lemma VendKeeps(high: seq<Buf>, low: seq<Buf>, size: nat, head: nat, tail: nat, seen: nat, b: Buf)
    requires Laid(high, low, size, head, tail) && Known(head, tail, seen) && seen <= size && seen != head
    requires Run(size, head, seen, b) && b.len > 0
    ensures var wraps := b.start != head;
            && (wraps ==> low == [])
            && (if wraps || low != [] then Laid(high, low + [b], size, b.End(), tail) else Laid(high + [b], [], size, b.End(), tail))
  {
    EmptyIffMeet(high, low, size, head, tail);
    if low != [] {
      var top: nat :| Wrapped(high, low, size, head, tail, top);
      ChainPush(low, 0, head, b);
      assert Wrapped(high, low + [b], size, b.End(), tail, top);
    } else if b.start == head {
      ChainPush(high, tail, head, b);
      assert Straight(high + [b], [], size, b.End(), tail);
    } else {
      assert Chain([b][1..], b.End(), b.End());
      assert low + [b] == [b];
      assert Wrapped(high, [b], size, b.End(), tail, head);
    }
  }

  datatype Step = LoadTail | GiveBack | Decide(minimum: nat, requested: nat) | FinishReset

  /** All of a ring; `out` are the outstanding buffers, first vended first. */
  datatype Progress = Progress(head: nat, tail: nat, phase: Phase, out: seq<Buf>)

  /** A step of one thread, which does nothing when the thread is not at it. */
  ghost function Next(p: Progress, size: nat, step: Step): Progress
  {
    match step
    case LoadTail => if p.phase == Resting then p.(phase := Loaded(p.tail)) else p
    case GiveBack => if p.out == [] then p else p.(tail := p.out[0].End(), out := p.out[1..])
    case Decide(minimum, requested) =>
      if p.phase.Loaded? && 0 < minimum <= requested && p.head <= size && p.phase.tailSeen <= size then
        match ChooseUpTo(size, p.head, p.phase.tailSeen, minimum, requested)
        case None => p.(phase := Resting)
        case Some(b) =>
          if p.phase.tailSeen == p.head then p.(head := b.len, phase := Resetting(b.len))
          else p.(head := b.End(), phase := Resting, out := p.out + [b])
      else p
    case FinishReset => if p.phase.Resetting? then p.(tail := 0, phase := Resting, out := [Buf(0, p.phase.len)]) else p
  }

  ghost function Steps(p: Progress, size: nat, steps: seq<Step>): Progress
  {
    if steps == [] then p else Next(Steps(p, size, steps[..|steps| - 1]), size, steps[|steps| - 1])
  }

  class VendingRing {
    const size: nat
    var head: nat
    var tail: nat
    var phase: Phase
    /** What the releasing side holds, first vended first: buffers above the tail, then those from the start. */
    var high: seq<Buf>
    var low: seq<Buf>

    function Outstanding(): seq<Buf>
      reads this
    {
      high + low
    }

    ghost predicate Valid()
      reads this
    {
      match phase
      case Resting => Laid(high, low, size, head, tail)
      case Loaded(seen) => Laid(high, low, size, head, tail) && Known(head, tail, seen) && seen <= size
      case Resetting(len) => high == low == [] && head == len && 0 < len <= size
    }

    ghost function Now(): Progress
      reads this
    {
      Progress(head, tail, phase, Outstanding())
    }

    /** `aws_ring_buffer_init`. */
    constructor (size: nat)
      requires size > 0
      ensures Valid() && this.size == size && phase == Resting && Outstanding() == []
    {
      this.size, head, tail, phase := size, 0, 0, Resting;
      high, low := [], [];
      new;
      assert Straight(high, low, size, head, tail);
    }

    /** The loads of an acquiring call. */
    method Load()
      requires Valid() && phase == Resting
      modifies this`phase
      ensures Valid() && phase == Loaded(tail)
    {
      EmptyIffMeet(high, low, size, head, tail);
      phase := Loaded(tail);
    }

    /** `aws_ring_buffer_release` of the buffer that was vended first. */
    method Release(b: Buf)
      requires Valid() && Outstanding() != [] && b == Outstanding()[0]
      modifies this`tail, this`high, this`low
      ensures Valid() && Outstanding() == old(Outstanding())[1..] && tail == b.End()
    {
      EmptyIffMeet(high, low, size, head, tail);
      ReleaseKeeps(high, low, size, head, tail);
      tail := b.End();
      high, low := DropHigh(high, low), DropLow(high, low);
    }

    /** The call fails. */
    method Refuse()
      requires Valid() && phase.Loaded?
      modifies this`phase
      ensures Valid() && phase == Resting
    {
      phase := Resting;
    }

    /** Buffers were out when the tail was loaded: store the new head. */
    method Vend(b: Buf)
      requires Valid() && phase.Loaded? && phase.tailSeen != head && Run(size, head, phase.tailSeen, b) && b.len > 0
      modifies this`head, this`phase, this`high, this`low
      ensures Valid() && phase == Resting && Outstanding() == old(Outstanding()) + [b] && head == b.End()
    {
      VendKeeps(high, low, size, head, tail, phase.tailSeen, b);
      if b.start != head || low != [] {
        low := low + [b];
      } else {
        high := high + [b];
      }
      head, phase := b.End(), Resting;
    }

    /** No buffers were out: store the head, then the tail; nobody can release in between. */
    method StoreHead(b: Buf)
      requires Valid() && phase.Loaded? && phase.tailSeen == head && Run(size, head, head, b) && b.len > 0
      modifies this`head, this`phase
      ensures Valid() && phase == Resetting(b.len) && Outstanding() == [] && head == b.len
    {
      EmptyIffMeet(high, low, size, head, tail);
      head, phase := b.len, Resetting(b.len);
    }

    method StoreTail()
      requires Valid() && phase.Resetting?
      modifies this`tail, this`phase, this`high
      ensures Valid() && phase == Resting && Outstanding() == [Buf(0, old(phase.len))] && tail == 0
    {
      var b := Buf(0, phase.len);
      assert Chain([b][1..], b.End(), b.End());
      tail, phase := 0, Resting;
      high := [b];
      assert Straight(high, low, size, head, tail);
    }

    /** Release as many buffers as the other thread likes. */
    method ReleaseSome(count: nat, ghost out: seq<Buf>) returns (ghost released: nat)
      requires Valid() && !phase.Resetting? && out == Outstanding()
      modifies this`tail, this`high, this`low
      ensures Valid() && released <= |out| && Outstanding() == out[released..]
    {
      released := 0;
      for k := 0 to count
        invariant Valid() && released <= |out| && Outstanding() == out[released..]
      {
        ReleaseFirst();
        released := if released < |out| then released + 1 else released;
      }
    }

    /** Take back the first buffer, if any is out. */
    method ReleaseFirst()
      requires Valid()
      modifies this`tail, this`high, this`low
      ensures Valid() && Outstanding() == if old(Outstanding()) == [] then [] else old(Outstanding())[1..]
      ensures tail == if old(Outstanding()) == [] then old(tail) else old(Outstanding())[0].End()
    {
      if Outstanding() != [] {
        Release(Outstanding()[0]);
      }
    }

    /** Store what was decided. */
    method Settle(c: Option<Buf>)
      requires Valid() && phase.Loaded?
      requires c.Some? ==> Run(size, head, phase.tailSeen, c.value) && c.value.len > 0
      modifies this
      ensures Valid() && phase == Resting
      ensures Outstanding() == if c.Some? then old(Outstanding()) + [c.value] else old(Outstanding())
    {
      if c.None? {
        Refuse();
      } else if phase.tailSeen == head {
        EmptyIffMeet(high, low, size, head, tail);
        StoreHead(c.value);
        StoreTail();
      } else {
        Vend(c.value);
      }
    }

    /**
     * `aws_ring_buffer_acquire_up_to`, and `aws_ring_buffer_acquire` when `minimum` is
     * `requested`, with releases between its loads and its stores.
     */
    method AcquireUpTo(minimum: nat, requested: nat, releases: nat) returns (r: Option<Buf>, ghost released: nat)
      requires Valid() && phase == Resting && minimum <= requested
      modifies this
      ensures Valid() && phase == Resting && released <= |old(Outstanding())|
      ensures Outstanding() == old(Outstanding())[released..] + if r.Some? then [r.value] else []
      ensures r.Some? <==> 0 < minimum <= Usable(size, old(head), old(tail))
      ensures r.Some? ==> r.value.len == Min(requested, Usable(size, old(head), old(tail)))
    {
      released := 0;
      if requested == 0 || minimum == 0 {
        return None, 0;
      }
      Load();
      ghost var out := Outstanding();
      released := ReleaseSome(releases, out);
      EmptyIffMeet(high, low, size, head, tail);
      r := ChooseUpTo(size, head, phase.tailSeen, minimum, requested);
      UsesLongest(size, head, phase.tailSeen, minimum, requested);
      UpToBest(size, head, phase.tailSeen, minimum, requested, Buf(0, 0));
      Settle(r);
    }

    /** One step of either thread, if it is ready for it. */
    method Perform(step: Step)
      requires Valid()
      modifies this
      ensures Valid() && Now() == Next(old(Now()), size, step)
    {
      match step
      case LoadTail => if phase == Resting { Load(); }
      case GiveBack => ReleaseFirst();
      case Decide(minimum, requested) => if phase.Loaded? && 0 < minimum <= requested { DecideUpTo(minimum, requested); }
      case FinishReset => if phase.Resetting? { StoreTail(); }
    }

    /** The decision and the store of the head. */
    method DecideUpTo(minimum: nat, requested: nat)
      requires Valid() && phase.Loaded? && 0 < minimum <= requested
      modifies this`head, this`phase, this`high, this`low
      ensures Valid() && Now() == Next(old(Now()), size, Decide(minimum, requested))
    {
      EmptyIffMeet(high, low, size, head, tail);
      var r := ChooseUpTo(size, head, phase.tailSeen, minimum, requested);
      UpToBest(size, head, phase.tailSeen, minimum, requested, Buf(0, 0));
      if r.None? {
        Refuse();
      } else if phase.tailSeen == head {
        StoreHead(r.value);
      } else {
        Vend(r.value);
      }
    }

    /** Any interleaving of acquirer and releaser: buffers that are out are in bounds and never overlap. */
    method Interleave(steps: seq<Step>)
      requires Valid()
      modifies this
      ensures Valid() && forall i | 0 <= i < |Outstanding()| :: Outstanding()[i].End() <= size
      ensures forall i: nat, j: nat | i < j < |Outstanding()| :: Apart(Outstanding()[i], Outstanding()[j], size)
      ensures Now() == Steps(old(Now()), size, steps)
    {
      for k := 0 to |steps|
        invariant Valid() && Now() == Steps(old(Now()), size, steps[..k])
      {
        Perform(steps[k]);
        assert steps[..k + 1][..k] == steps[..k];
      }
      assert steps[..|steps|] == steps;
      forall i | 0 <= i < |Outstanding()| ensures Outstanding()[i].End() <= size {
        LaidInside(high, low, size, head, tail, i);
      }
      forall i: nat, j: nat | i < j < |Outstanding()| ensures Apart(Outstanding()[i], Outstanding()[j], size) {
        LaidApart(high, low, size, head, tail, i, j);
      }
    }

    /** In every state between calls. */
    lemma Safe(i: nat, j: nat)
      requires Valid() && phase == Resting
      ensures head == tail <==> Outstanding() == []
      ensures i < |Outstanding()| ==> Outstanding()[i].End() <= size
      ensures i < j < |Outstanding()| ==>
        Apart(Outstanding()[i], Outstanding()[j], size)
    {
      EmptyIffMeet(high, low, size, head, tail);
      if i < |Outstanding()| {
        LaidInside(high, low, size, head, tail, i);
      }
      if i < j < |Outstanding()| {
        LaidApart(high, low, size, head, tail, i, j);
      }
    }
  }
}
