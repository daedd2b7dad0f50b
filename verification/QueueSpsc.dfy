/**
 * The single-producer single-consumer pointer queue. Its 64-bit counters run on for ever and
 * wrap; each load, slot access and counter store is a step of its own.
 */
module QueuesSpsc {
  import opened Basics
  import opened Words
  import opened Bits
  import opened RingIndex

  /** `capacity` of `mn_queue_spsc_setup`. */
  function RoundedCapacity(capacity: nat): (r: nat)
    requires 0 < capacity < WORD
  {
    if And(capacity, capacity - 1) != 0 then RoundUp(capacity) else capacity
  }

  /** The least power of two that takes `capacity` elements. */
  lemma CapacityRounded(capacity: nat)
    requires 0 < capacity <= WORD / 2
    ensures LeastPowerAbove(RoundedCapacity(capacity), capacity) && RoundedCapacity(capacity) <= WORD / 2
  {
    AndCommutes(capacity, capacity - 1);
    AcceptsPowers(capacity);
    RoundUpCorrect(capacity);
  }

  lemma {:induction false} AndCommutes(a: nat, b: nat)
    ensures And(a, b) == And(b, a)
    decreases a + b
  {
    if a > 0 && b > 0 {
      AndCommutes(a / 2, b / 2);
    }
  }

  /** The difference of two wrapped counters. */
  lemma CounterDifference(t: nat, h: nat)
    requires t <= h < t + WORD
    ensures Masked(Place(h, WORD) - Place(t, WORD), WORD) == h - t
  {
    WordIsPow2();
    Difference(t, h, WORD);
  }

  lemma CounterAdvanced(k: nat, d: nat)
    requires d < WORD
    ensures Masked(Place(k, WORD) + d, WORD) == Place(k + d, WORD)
  {
    WordIsPow2();
    Advanced(k, d, WORD);
  }

  /** `(counter + d) & mask` is not disturbed by the wrap. */
  lemma CounterSlot(k: nat, d: nat, n: nat)
    requires PowerOfTwo(n) && n <= WORD
    ensures Masked(Place(k, WORD) + d, n) == Place(k + d, n)
  {
    ReduceIsMod(k, WORD);
    MaskedIsMod(Place(k, WORD) + d, n);
    ReduceIsMod(k + d, n);
    DivMod(k, WORD);
    var e: nat :| n == Pow2(e);
    WordIsPow2();
    var m := Pow2Divides(e, 64);
    Shifted(k % WORD + d, k / WORD, m, n);
  }

  lemma Shifted(x: nat, q: nat, m: nat, n: nat)
    requires n > 0
    ensures (x + q * (m * n)) % n == x % n
  {
    DivMod(x, n);
    assert q * (m * n) == (q * m) * n;
    Distribute(x / n, q * m, n);
    ModUnique(x + q * (m * n), n, x / n + q * m, x % n);
  }

  datatype Pushing<T> = NotPushing | Seen(item: T) | Stored(item: T)

  datatype Popping<T> = NotPopping | Popping(count: nat, got: seq<T>)

  datatype Step<T> =
    | BeginPush(item: T) | StorePush | EndPush
    | BeginPop(limit: nat) | FetchPop | EndPop | Discard | EndPeek | PopCached

  /** The slots of the queued elements hold them. */
  ghost predicate Holds<T>(b: seq<T>, pushed: seq<T>, t: nat)
    requires b != []
  {
    forall k: nat | t <= k < |pushed| :: b[Place(k, |b|)] == pushed[k]
  }

  lemma StoreHolds<T>(b: seq<T>, pushed: seq<T>, t: nat, x: T)
    requires b != [] && Holds(b, pushed, t) && t <= |pushed| < t + |b|
    ensures Holds(b[Place(|pushed|, |b|) := x], pushed, t)
  {
    forall k: nat | t <= k < |pushed| ensures Place(k, |b|) != Place(|pushed|, |b|) {
      PlacesApart(k, |pushed|, |b|);
    }
  }

  lemma GotNext<T>(got: seq<T>, s: seq<T>)
    requires got <= s && |got| < |s|
    ensures got + [s[|got|]] <= s
  {
  }

  // --- what the consumer was given ---------------------------------------------------------

  /** The consumer's calls that found something, the latest outermost. */
  datatype History<T> =
    | Start
    | Took(before: History<T>, item: T)
    | Dropped(before: History<T>)
    | Peeked(before: History<T>, item: T)

  /** The calls took the first `taken` pushed elements off one by one, and every answer was the front. */
  ghost predicate Consumes<T>(h: History<T>, pushed: seq<T>, taken: nat)
  {
    match h
    case Start => taken == 0
    case Took(b, x) => 0 < taken <= |pushed| && x == pushed[taken - 1] && Consumes(b, pushed, taken - 1)
    case Dropped(b) => 0 < taken && Consumes(b, pushed, taken - 1)
    case Peeked(b, x) => taken < |pushed| && x == pushed[taken] && Consumes(b, pushed, taken)
  }

  /** The elements that went, in order, with what the consumer was given of each. */
  function Removed<T>(h: History<T>): seq<Option<T>>
  {
    match h
    case Start => []
    case Took(b, x) => Removed(b) + [Some(x)]
    case Dropped(b) => Removed(b) + [None]
    case Peeked(b, _) => Removed(b)
  }

  lemma {:induction false} ConsumesMore<T>(h: History<T>, pushed: seq<T>, taken: nat, more: seq<T>)
    requires Consumes(h, pushed, taken)
    ensures Consumes(h, pushed + more, taken)
  {
    match h
    case Start =>
    case Took(b, x) => ConsumesMore(b, pushed, taken - 1, more);
    case Dropped(b) => ConsumesMore(b, pushed, taken - 1, more);
    case Peeked(b, x) => ConsumesMore(b, pushed, taken, more);
  }

  /** First in, first out: the `i`-th element to go is the `i`-th that was pushed. */
  lemma {:induction false} FirstInFirstOut<T>(h: History<T>, pushed: seq<T>, taken: nat)
    requires Consumes(h, pushed, taken) && taken <= |pushed|
    ensures |Removed(h)| == taken
    ensures forall i | 0 <= i < taken && Removed(h)[i].Some? :: Removed(h)[i].value == pushed[i]
  {
    match h
    case Start =>
    case Took(b, x) => FirstInFirstOut(b, pushed, taken - 1);
    case Dropped(b) => FirstInFirstOut(b, pushed, taken - 1);
    case Peeked(b, x) => FirstInFirstOut(b, pushed, taken);
  }

  function TookAll<T>(h: History<T>, items: seq<T>): History<T>
  {
    if items == [] then h else Took(TookAll(h, items[..|items| - 1]), items[|items| - 1])
  }

  lemma {:induction false} TookNext<T>(h: History<T>, pushed: seq<T>, taken: nat, n: nat)
    requires Consumes(h, pushed, taken) && taken + n <= |pushed|
    ensures Consumes(TookAll(h, pushed[taken..taken + n]), pushed, taken + n)
  {
    if n > 0 {
      var items := pushed[taken..taken + n];
      assert items[..n - 1] == pushed[taken..taken + (n - 1)] && items[n - 1] == pushed[taken + n - 1];
      TookNext(h, pushed, taken, n - 1);
    }
  }

  lemma TookGot<T>(h: History<T>, pushed: seq<T>, taken: nat, items: seq<T>)
    requires Consumes(h, pushed, taken) && taken + |items| <= |pushed| && items == pushed[taken..taken + |items|]
    ensures Consumes(TookAll(h, items), pushed, taken + |items|)
  {
    TookNext(h, pushed, taken, |items|);
  }

  lemma AllGot<T>(got: seq<T>, pushed: seq<T>, taken: nat, count: nat)
    requires taken + count <= |pushed| && got <= pushed[taken..taken + count] && |got| == count
    ensures got == pushed[taken..taken + count] == pushed[taken..][..count]
  {
  }

  // --- the steps of the threads ------------------------------------------------------------

  /** How far both threads are; `pushed` are all elements ever, of which `taken` have gone. */
  datatype Progress<T> = Progress(
    pushing: Pushing<T>, popping: Popping<T>, pushed: seq<T>, taken: nat, tailCache: nat, history: History<T>)

  /** A step of the producer, which does nothing when it is not at it. */
  ghost function ProducerNext<T>(p: Progress<T>, capacity: nat, step: Step<T>): Progress<T>
  {
    match (step, p.pushing)
    case (BeginPush(x), NotPushing) => if |p.pushed| - p.taken < capacity then p.(pushing := Seen(x)) else p
    case (StorePush, Seen(x)) => p.(pushing := Stored(x))
    case (EndPush, Stored(x)) => p.(pushing := NotPushing, pushed := p.pushed + [x])
    case _ => p
  }

  /** A step of the consumer. */
  ghost function ConsumerNext<T>(p: Progress<T>, step: Step<T>): Progress<T>
  {
    match (step, p.popping)
    case (BeginPop(limit), NotPopping) =>
      if limit > 0 && p.taken < |p.pushed| then p.(popping := Popping(Min(limit, |p.pushed| - p.taken), [])) else p
    case (FetchPop, Popping(count, got)) =>
      if |got| < count && p.taken + |got| < |p.pushed| then p.(popping := Popping(count, got + [p.pushed[p.taken + |got|]])) else p
    case (EndPop, Popping(count, got)) =>
      if |got| == count then p.(popping := NotPopping, taken := p.taken + count, history := TookAll(p.history, got)) else p
    case (Discard, Popping(count, _)) =>
      if count == 1 then p.(popping := NotPopping, taken := p.taken + 1, history := Dropped(p.history)) else p
    case (EndPeek, Popping(count, got)) =>
      if count == 1 && |got| == 1 then
        p.(popping := NotPopping, tailCache := Place(p.taken, WORD), history := Peeked(p.history, got[0]))
      else p
    case (PopCached, NotPopping) =>
      if p.tailCache == Place(p.taken, WORD) && p.taken < |p.pushed| then p.(taken := p.taken + 1, history := Dropped(p.history)) else p
    case _ => p
  }

  ghost function Steps<T>(p: Progress<T>, capacity: nat, steps: seq<Step<T>>): Progress<T>
  {
    if steps == [] then p
    else
      var n := |steps| - 1;
      ConsumerNext(ProducerNext(Steps(p, capacity, steps[..n]), capacity, steps[n]), steps[n])
  }

  class QueueSpsc<T> {
    const capacity: nat
    const buffer: array<T>
    var head: nat
    var tail: nat
    var tailCache: nat
    var pushing: Pushing<T>
    var popping: Popping<T>
    /** Everything ever pushed; the first `taken` of it has been popped. */
    ghost var pushed: seq<T>
    ghost var taken: nat
    var history: History<T>

    /** The cached tail is that of the front element, so that a cached pop takes it. */
    predicate Current()
      reads this
    {
      tailCache == tail && head != tail
    }

    ghost predicate Counted()
      reads this
    {
      && PowerOfTwo(capacity) && 0 < capacity <= WORD / 2 && buffer.Length == capacity
      && head == Place(|pushed|, WORD) && tail == Place(taken, WORD)
      && taken <= |pushed| <= taken + capacity && tailCache < WORD
    }

    ghost predicate Valid()
      reads this, buffer
    {
      && Counted() && Holds(buffer[..], pushed, taken) && Consumes(history, pushed, taken)
      && (!pushing.NotPushing? ==> |pushed| < taken + capacity)
      && (pushing.Stored? ==> buffer[Place(|pushed|, capacity)] == pushing.item)
      && (popping.Popping? ==> taken + popping.count <= |pushed| && popping.count > 0)
      && (popping.Popping? ==> popping.got <= pushed[taken..taken + popping.count])
    }

    /** What is queued, the front first. */
    ghost function Contents(): seq<T>
      reads this
      requires taken <= |pushed|
    {
      pushed[taken..]
    }

    ghost function Now(): Progress<T>
      reads this
    {
      Progress(pushing, popping, pushed, taken, tailCache, history)
    }

    /** `mn_queue_spsc_setup`, the memory having been acquired. */
    constructor (buffer: array<T>)
      requires PowerOfTwo(buffer.Length) && 0 < buffer.Length <= WORD / 2
      ensures Valid() && capacity == buffer.Length && this.buffer == buffer
      ensures pushed == [] && taken == 0 && history == Start && pushing.NotPushing? && popping.NotPopping?
    {
      capacity, this.buffer := buffer.Length, buffer;
      head, tail, tailCache, pushing, popping := 0, 0, 0, NotPushing, NotPopping;
      pushed, taken, history := [], 0, Start;
    }

    /** `mn_queue_spsc_count`. */
    function Count(): (r: nat)
      requires Counted()
      reads this
      ensures r == |Contents()| <= capacity
    {
      CounterDifference(taken, |pushed|);
      Masked(head - tail, WORD)
    }

    // --- the producer ----------------------------------------------------------------------

    /** The loads and the test of `mn_queue_spsc_push`. */
    method BeginPush(item: T) returns (ok: bool)
      requires Valid() && pushing.NotPushing?
      modifies this`pushing
      ensures Valid() && ok == (|Contents()| < capacity) && pushing == if ok then Seen(item) else NotPushing
    {
      ok := Count() != capacity;
      if ok {
        pushing := Seen(item);
      }
    }

    method StorePush()
      requires Valid() && pushing.Seen?
      modifies this`pushing, buffer
      ensures Valid() && pushing == Stored(old(pushing.item))
    {
      CounterSlot(|pushed|, 0, capacity);
      StoreHolds(buffer[..], pushed, taken, pushing.item);
      ghost var b := buffer[..];
      var slot := Masked(head, capacity);
      buffer[slot] := pushing.item;
      assert buffer[..] == b[slot := pushing.item];
      pushing := Stored(pushing.item);
    }

    method EndPush()
      requires Valid() && pushing.Stored?
      modifies this`pushing, this`head, this`pushed
      ensures Valid() && pushing.NotPushing? && pushed == old(pushed) + [old(pushing.item)]
    {
      CounterAdvanced(|pushed|, 1);
      ConsumesMore(history, pushed, taken, [pushing.item]);
      ghost var was := pushed;
      head, pushed, pushing := Masked(head + 1, WORD), pushed + [pushing.item], NotPushing;
      assert Holds(buffer[..], pushed, taken) by { assert Holds(buffer[..], was, taken); }
    }

    // --- the consumer ----------------------------------------------------------------------

    /** The loads and the test of the consuming calls; `limit` is 1 but for `pop_all`. */
    method BeginPop(limit: nat) returns (ok: bool)
      requires Valid() && popping.NotPopping? && limit > 0
      modifies this`popping
      ensures Valid() && ok == (Contents() != [])
      ensures popping == if ok then Popping(if |Contents()| < limit then |Contents()| else limit, []) else NotPopping
    {
      var size := Count();
      ok := size != 0;
      if ok {
        popping := Popping(if size < limit then size else limit, []);
      }
    }

    /** Read the next slot. */
    method FetchPop()
      requires Valid() && popping.Popping? && |popping.got| < popping.count
      modifies this`popping
      ensures Valid() && taken + old(|popping.got|) < |pushed|
      ensures popping == Popping(old(popping.count), old(popping.got) + [pushed[taken + old(|popping.got|)]])
    {
      var n, got := popping.count, popping.got;
      var x := SlotAhead(|got|);
      GotNext(got, pushed[taken..taken + n]);
      popping := Popping(n, got + [x]);
    }

    /** The element `off` behind the front. */
    function SlotAhead(off: nat): (x: T)
      requires Valid() && taken + off < |pushed|
      reads this, buffer
      ensures x == pushed[taken + off]
    {
      CounterSlot(taken, off, capacity);
      assert buffer[..][Place(taken + off, capacity)] == pushed[taken + off];
      buffer[Masked(tail + off, capacity)]
    }

    /** The store of the tail in `pop_back` and `pop_all`: the elements read are the next ones, in order. */
    method EndPop() returns (items: seq<T>)
      requires Valid() && popping.Popping? && |popping.got| == popping.count
      modifies this`popping, this`tail, this`taken, this`history
      ensures Valid() && popping.NotPopping? && items == old(popping.got) == old(Contents()[..popping.count])
      ensures taken == old(taken) + |items| && history == TookAll(old(history), items)
    {
      items := popping.got;
      AllGot(items, pushed, taken, popping.count);
      assert items == Contents()[..popping.count];
      TookGot(history, pushed, taken, items);
      popping := NotPopping;
      Advance(|items|, TookAll(history, items));
    }

    /** Store the tail past `n` elements. */
    method Advance(n: nat, h: History<T>)
      requires Valid() && popping.NotPopping? && taken + n <= |pushed| && Consumes(h, pushed, taken + n)
      modifies this`tail, this`taken, this`history
      ensures Valid() && taken == old(taken) + n && history == h
    {
      CounterAdvanced(taken, n);
      tail, taken, history := Masked(tail + n, WORD), taken + n, h;
    }

    /** The store of the tail in `mn_queue_spsc_pop`, which reads no slot. */
    method Discard()
      requires Valid() && popping.Popping? && popping.count == 1
      modifies this`popping, this`tail, this`taken, this`history
      ensures Valid() && popping.NotPopping? && taken == old(taken) + 1 && history == Dropped(old(history))
    {
      popping := NotPopping;
      Advance(1, Dropped(history));
    }

    /** The end of `mn_queue_spsc_peek`. */
    method EndPeek() returns (item: T)
      requires Valid() && popping.Popping? && popping.count == 1 && |popping.got| == 1
      modifies this`popping, this`tailCache, this`history
      ensures Valid() && popping.NotPopping? && Current() && taken < |pushed| && item == pushed[taken]
      ensures history == Peeked(old(history), item)
    {
      item := popping.got[0];
      assert popping.got == pushed[taken..taken + 1];
      CounterDifference(taken, |pushed|);
      tailCache, popping, history := tail, NotPopping, Peeked(history, item);
    }

    /**
     * `mn_queue_spsc_pop_cached`. It takes the front element when the cached tail is current, and
     * does nothing when it is one behind, as after another cached pop. Otherwise, and exactly then,
     * the tail no longer counts the elements taken.
     */
    method PopCached()
      requires Valid() && popping.NotPopping?
      modifies this`tail, this`taken, this`history
      ensures Valid() <==> old(Current()) || Masked(tailCache + 1, WORD) == old(tail)
      ensures tail == Masked(tailCache + 1, WORD)
      ensures old(Current()) ==> taken == old(taken) + 1 && taken <= |pushed| && history == Dropped(old(history))
      ensures !old(Current()) ==> taken == old(taken) && history == old(history)
    {
      var current := Current();
      if current {
        CounterAdvanced(taken, 1);
        CounterDifference(taken, |pushed|);
        taken, history := taken + 1, Dropped(history);
      }
      tail := Masked(tailCache + 1, WORD);
    }

    // --- whole calls -----------------------------------------------------------------------

    /** `mn_queue_spsc_push`. */
    method Push(item: T) returns (ok: bool)
      requires Valid() && pushing.NotPushing?
      modifies this`pushing, this`head, this`pushed, buffer
      ensures Valid() && pushing.NotPushing? && ok == (|old(Contents())| < capacity)
      ensures pushed == if ok then old(pushed) + [item] else old(pushed)
    {
      ok := BeginPush(item);
      if ok {
        StorePush();
        EndPush();
      }
    }

    /** `mn_queue_spsc_peek`: the front element, which stays. */
    method Peek() returns (ok: bool, items: seq<T>)
      requires Valid() && popping.NotPopping?
      modifies this`popping, this`tailCache, this`history
      ensures Valid() && popping.NotPopping? && ok == (Contents() != [])
      ensures ok ==> items == Contents()[..1] && Current()
      ensures !ok ==> items == [] && tailCache == old(tailCache)
    {
      items := [];
      ok := BeginPop(1);
      if ok {
        FetchPop();
        var x := EndPeek();
        items := [x];
      }
    }

    /** `mn_queue_spsc_pop`. */
    method Pop() returns (ok: bool)
      requires Valid() && popping.NotPopping?
      modifies this`popping, this`tail, this`taken, this`history
      ensures Valid() && popping.NotPopping? && ok == (old(Contents()) != [])
      ensures taken == if ok then old(taken) + 1 else old(taken)
    {
      ok := BeginPop(1);
      if ok {
        Discard();
      }
    }

    /** `mn_queue_spsc_pop_back` for `limit` 1 and `mn_queue_spsc_pop_all`. */
    method PopUpTo(limit: nat) returns (ok: bool, items: seq<T>)
      requires Valid() && popping.NotPopping? && limit > 0
      modifies this`popping, this`tail, this`taken, this`history
      ensures Valid() && popping.NotPopping? && ok == (old(Contents()) != [])
      ensures items == old(Contents())[..if |old(Contents())| < limit then |old(Contents())| else limit]
      ensures taken == old(taken) + |items|
    {
      items := [];
      ok := BeginPop(limit);
      if ok {
        ghost var n := popping.count;
        for off := 0 to popping.count
          invariant Valid() && popping.Popping? && popping.count == n && |popping.got| == off
          invariant taken == old(taken)
        {
          FetchPop();
        }
        items := EndPop();
      }
    }

    /** A step of the producer, if it is ready for it. */
    method ProducerStep(step: Step<T>)
      requires Valid()
      modifies this`pushing, this`head, this`pushed, buffer
      ensures Valid() && Now() == ProducerNext(old(Now()), capacity, step) && old(pushed) <= pushed
    {
      match step
      case BeginPush(x) => if pushing.NotPushing? { var _ := BeginPush(x); }
      case StorePush => if pushing.Seen? { StorePush(); }
      case EndPush => if pushing.Stored? { EndPush(); }
      case _ =>
    }

    /** A step of the consumer, if it is ready for it. */
    method ConsumerStep(step: Step<T>)
      requires Valid()
      modifies this`popping, this`tail, this`taken, this`tailCache, this`history
      ensures Valid() && Now() == ConsumerNext(old(Now()), step) && old(taken) <= taken
    {
      match step
      case BeginPop(limit) => if popping.NotPopping? && limit > 0 { var _ := BeginPop(limit); }
      case FetchPop => FetchIfReady();
      case BeginPush(_) =>
      case StorePush =>
      case EndPush =>
      case _ => ConsumerEnd(step);
    }

    /** The last step of a consuming call. */
    method ConsumerEnd(step: Step<T>)
      requires Valid() && (step.EndPop? || step.Discard? || step.EndPeek? || step.PopCached?)
      modifies this`popping, this`tail, this`taken, this`tailCache, this`history
      ensures Valid() && Now() == ConsumerNext(old(Now()), step) && old(taken) <= taken
    {
      match step
      case EndPop => EndIfReady();
      case Discard => if popping.Popping? && popping.count == 1 { Discard(); }
      case EndPeek => if popping.Popping? && popping.count == 1 && |popping.got| == 1 { var _ := EndPeek(); }
      case PopCached => CachedIfReady();
    }

    method FetchIfReady()
      requires Valid()
      modifies this`popping
      ensures Valid() && Now() == ConsumerNext(old(Now()), Step<T>.FetchPop)
    {
      if popping.Popping? && |popping.got| < popping.count {
        FetchPop();
      }
    }

    method EndIfReady()
      requires Valid()
      modifies this`popping, this`tail, this`taken, this`history
      ensures Valid() && Now() == ConsumerNext(old(Now()), Step<T>.EndPop) && old(taken) <= taken
    {
      if popping.Popping? && |popping.got| == popping.count {
        var _ := EndPop();
      }
    }

    method CachedIfReady()
      requires Valid()
      modifies this`tail, this`taken, this`history
      ensures Valid() && Now() == ConsumerNext(old(Now()), Step<T>.PopCached) && old(taken) <= taken
    {
      CurrentMeans();
      if popping.NotPopping? && (Current() || Masked(tailCache + 1, WORD) == tail) {
        PopCached();
      }
    }

    lemma CurrentMeans()
      requires Counted()
      ensures Current() <==> tailCache == Place(taken, WORD) && taken < |pushed|
    {
      CounterDifference(taken, |pushed|);
    }

    /**
     * Any interleaving, with cached pops only after a peek: the elements that the consumer was given
     * are those that were pushed, each once and in order, and the queue keeps within its capacity.
     */
    method Run(steps: seq<Step<T>>)
      requires Valid()
      modifies this, buffer
      ensures Valid() && old(pushed) <= pushed && old(taken) <= taken <= |pushed| <= taken + capacity
      ensures |Removed(history)| == taken
      ensures forall i | 0 <= i < taken && Removed(history)[i].Some? :: Removed(history)[i].value == pushed[i]
      ensures Now() == Steps(old(Now()), capacity, steps)
    {
      for k := 0 to |steps|
        invariant Valid() && old(pushed) <= pushed && old(taken) <= taken
        invariant Now() == Steps(old(Now()), capacity, steps[..k])
      {
        ProducerStep(steps[k]);
        ConsumerStep(steps[k]);
        assert steps[..k + 1][..k] == steps[..k];
      }
      assert steps[..|steps|] == steps;
      FirstInFirstOut(history, pushed, taken);
    }
  }
}
