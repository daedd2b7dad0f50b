/**
 * Slot sequences of a Robin Hood hash table: displacement, the order invariant and
 * what one step of probing, emplacement and backward-shift deletion does to it.
 * Everything here is about values; HashTable.dfy runs the loops over an array.
 */
module RobinHood {
  import opened Words

  /** A slot. The source marks an empty slot by hash code 0, which no key hashes to. */
  datatype Entry<K, V> = Free | Used(hash: nat, key: K, value: V)

  /** The start of the probe sequence of a hash code. */
  function Home(hash: nat, size: nat): (r: nat)
    requires size > 0
    ensures r < size
  {
    Reduce(hash, size)
  }

  /** Steps forward, with wrap-around, from slot `a` to slot `b`. */
  function Dist(size: nat, a: nat, b: nat): (r: nat)
    requires a < size && b < size
    ensures r < size
  {
    if a <= b then b - a else b + size - a
  }

  function Next(size: nat, i: nat): (r: nat)
    requires i < size
    ensures r < size
  {
    if i + 1 == size then 0 else i + 1
  }

  function Prev(size: nat, i: nat): (r: nat)
    requires i < size
    ensures r < size && Next(size, r) == i
  {
    if i == 0 then size - 1 else i - 1
  }

  /** The slot `k` steps after slot `a`. */
  function Ahead(size: nat, a: nat, k: nat): (r: nat)
    requires a < size && k < size
    ensures r < size && Dist(size, a, r) == k
  {
    if a + k < size then a + k else a + k - size
  }

  /** How far an entry with this hash code is from home when it sits in slot `i`. */
  function Probe(size: nat, hash: nat, i: nat): (r: nat)
    requires i < size
    ensures r < size
  {
    Dist(size, Home(hash, size), i)
  }

  /** Displacement of slot `i`; an empty slot counts as -1. */
  function Disp<K, V>(s: seq<Entry<K, V>>, i: nat): (r: int)
    requires i < |s|
    ensures -1 <= r < |s|
  {
    if s[i].Free? then -1 else Probe(|s|, s[i].hash, i)
  }

  /** The Robin Hood order: one step forward raises the displacement by at most one. */
  ghost predicate Ordered<K, V>(s: seq<Entry<K, V>>)
  {
    forall i: nat {:trigger Next(|s|, i)} | i < |s| :: Disp(s, Next(|s|, i)) <= Disp(s, i) + 1
  }

  /** The occupied slots, as a bag. */
  ghost function Bag<K, V>(s: seq<Entry<K, V>>): multiset<Entry<K, V>>
  {
    multiset(s)[Free := 0]
  }

  /** `s` with `e` in hand holds the same entries as `s0` with `e0` in hand. */
  ghost predicate Exchanged<K, V>(s0: seq<Entry<K, V>>, e0: Entry<K, V>, s: seq<Entry<K, V>>, e: Entry<K, V>)
  {
    multiset(s) + multiset{e} == multiset(s0) + multiset{e0}
  }

  lemma ExchangeOne<K, V>(s0: seq<Entry<K, V>>, e0: Entry<K, V>, s: seq<Entry<K, V>>, e: Entry<K, V>, i: nat)
    requires Exchanged(s0, e0, s, e) && i < |s|
    ensures Exchanged(s0, e0, s[i := e], s[i])
  {
  }

  lemma ExchangeAll<K, V>(s0: seq<Entry<K, V>>, e0: Entry<K, V>, s: seq<Entry<K, V>>)
    requires Exchanged(s0, e0, s, Free) && e0.Used?
    ensures Bag(s) == Bag(s0) + multiset{e0}
  {
    forall x: Entry<K, V> ensures Bag(s)[x] == (Bag(s0) + multiset{e0})[x] {
      assert (multiset(s) + multiset{Free})[x] == (multiset(s0) + multiset{e0})[x];
    }
  }

  // --- the source's index arithmetic -------------------------------------------------

  /** `(index + 1) & mask` is the following slot. */
  lemma NextSlot(size: nat, i: nat)
    requires PowerOfTwo(size) && 2 <= size <= WORD && i < size
    ensures Masked(i + 1, size) == Next(size, i)
  {
    MaskedSmall(i, size);
    MaskedPlus(i, 1, size);
  }

  // --- lookup ----------------------------------------------------------------------

  /**
   * The fact behind the early-out lookup: on the way from its home to where an entry
   * sits, every slot is occupied by an entry at least as displaced as the probe index.
   */
  lemma {:induction false} NoEarlyOut<K, V>(s: seq<Entry<K, V>>, j: nat, t: nat)
    requires Ordered(s) && j < |s| && s[j].Used?
    requires t <= Disp(s, j)
    ensures Disp(s, Ahead(|s|, Home(s[j].hash, |s|), t)) >= t
    decreases Disp(s, j) - t
  {
    var home := Home(s[j].hash, |s|);
    if t < Disp(s, j) {
      NoEarlyOut(s, j, t + 1);
      assert Next(|s|, Ahead(|s|, home, t)) == Ahead(|s|, home, t + 1);
    }
  }

  // --- probing and emplacement -----------------------------------------------------

  /** The slot that a hash code reaches at a probe index. */
  function SlotAt(size: nat, hash: nat, probe: nat): (r: nat)
    requires probe < size
    ensures r < size && Probe(size, hash, r) == probe
  {
    Ahead(size, Home(hash, size), probe)
  }

  /** A walk has reached this probe index past entries no richer than the walker. */
  ghost predicate Probing<K, V>(s: seq<Entry<K, V>>, hash: nat, probe: nat, free: nat)
  {
    && Ordered(s) && free < |s| && s[free].Free?
    && probe < |s| && probe <= Disp(s, Prev(|s|, SlotAt(|s|, hash, probe))) + 1
  }

  /** `(hash + k) & mask` is `k` steps after the home slot. */
  lemma ProbeSlotCorrect(size: nat, hash: nat, k: nat)
    requires PowerOfTwo(size) && size <= WORD && k < size
    ensures Masked(hash + k, size) == SlotAt(size, hash, k)
  {
    MaskedIsReduce(hash, size);
    MaskedPlus(hash, k, size);
  }

  /** `(index - hash) & mask` is the displacement of that entry in slot `index`. */
  lemma ProbeDistanceCorrect(size: nat, hash: nat, i: nat)
    requires PowerOfTwo(size) && size <= WORD && i < size
    ensures Masked(i - hash, size) == Probe(size, hash, i)
  {
    MaskedIsReduce(hash, size);
    MaskedMinus(i, hash, size);
  }

  method ProbeSlot(size: nat, hash: nat, probe: nat) returns (index: nat)
    requires PowerOfTwo(size) && size <= WORD && probe < size
    ensures index == SlotAt(size, hash, probe)
  {
    index := Masked(hash + probe, size);
    ProbeSlotCorrect(size, hash, probe);
  }

  method ProbeDistance(size: nat, hash: nat, index: nat) returns (probe: nat)
    requires PowerOfTwo(size) && size <= WORD && index < size
    ensures probe == Probe(size, hash, index)
  {
    probe := Masked(index - hash, size);
    ProbeDistanceCorrect(size, hash, index);
  }

  /** With a free slot about, nobody is displaced all the way round. */
  lemma SpareDisp<K, V>(s: seq<Entry<K, V>>, j: nat, f: nat)
    requires Ordered(s) && j < |s| && f < |s| && s[f].Free?
    ensures Disp(s, j) + 1 < |s|
  {
    if s[j].Used? && Disp(s, j) + 1 == |s| {
      var home := Home(s[j].hash, |s|);
      NoEarlyOut(s, j, Dist(|s|, home, f));
    }
  }

  /** Passing an occupant at least as displaced brings the free slot one step closer. */
  lemma ProbeOn<K, V>(s: seq<Entry<K, V>>, hash: nat, probe: nat, free: nat)
    requires Probing(s, hash, probe, free)
    requires Disp(s, SlotAt(|s|, hash, probe)) >= probe
    ensures Probing(s, hash, probe + 1, free)
    ensures SlotAt(|s|, hash, probe + 1) == Next(|s|, SlotAt(|s|, hash, probe))
    ensures SlotAt(|s|, hash, probe) != free
  {
    var i := SlotAt(|s|, hash, probe);
    SpareDisp(s, i, free);
    assert Prev(|s|, Next(|s|, i)) == i;
  }

  /** An entry that has probed up to a slot may be put there if it is poorer than the occupant. */
  lemma TakeSlot<K, V>(s: seq<Entry<K, V>>, i: nat, e: Entry<K, V>)
    requires Ordered(s) && i < |s| && e.Used?
    requires Disp(s, i) < Probe(|s|, e.hash, i) <= Disp(s, Prev(|s|, i)) + 1
    ensures Ordered(s[i := e])
  {
    var t := s[i := e];
    forall k: nat | k < |t| ensures Disp(t, Next(|t|, k)) <= Disp(t, k) + 1 {
      if Next(|t|, k) == i {
        assert k == Prev(|t|, i);
      }
    }
  }

  /** The displaced occupant goes on probing from the next slot. */
  lemma Displace<K, V>(s: seq<Entry<K, V>>, e: Entry<K, V>, probe: nat, free: nat)
    requires e.Used? && Probing(s, e.hash, probe, free)
    requires var i := SlotAt(|s|, e.hash, probe); 0 <= Disp(s, i) < probe
    ensures var i := SlotAt(|s|, e.hash, probe);
            && Probing(s[i := e], s[i].hash, Disp(s, i) + 1, free)
            && SlotAt(|s|, s[i].hash, Disp(s, i) + 1) == Next(|s|, i)
            && i != free
  {
    var i := SlotAt(|s|, e.hash, probe);
    TakeSlot(s, i, e);
    assert Prev(|s|, Next(|s|, i)) == i;
    assert Disp(s[i := e], i) == probe;
  }

  /** An entry in hand has reached slot `i`, `gap` steps before a free slot. */
  ghost predicate Carrying<K, V>(s: seq<Entry<K, V>>, e: Entry<K, V>, probe: nat, i: nat, gap: nat)
  {
    && e.Used? && i < |s| && gap < |s|
    && Probing(s, e.hash, probe, Ahead(|s|, i, gap))
    && i == SlotAt(|s|, e.hash, probe)
  }

  lemma CarryOn<K, V>(s: seq<Entry<K, V>>, e: Entry<K, V>, probe: nat, i: nat, gap: nat)
    requires Carrying(s, e, probe, i, gap) && Disp(s, i) >= probe
    ensures gap > 0 && Carrying(s, e, probe + 1, Next(|s|, i), gap - 1)
  {
    ProbeOn(s, e.hash, probe, Ahead(|s|, i, gap));
    assert Ahead(|s|, Next(|s|, i), gap - 1) == Ahead(|s|, i, gap);
  }

  lemma CarryDisplaced<K, V>(s: seq<Entry<K, V>>, e: Entry<K, V>, probe: nat, i: nat, gap: nat)
    requires Carrying(s, e, probe, i, gap) && 0 <= Disp(s, i) < probe
    ensures gap > 0 && Carrying(s[i := e], s[i], Disp(s, i) + 1, Next(|s|, i), gap - 1)
  {
    Displace(s, e, probe, Ahead(|s|, i, gap));
    assert Ahead(|s|, Next(|s|, i), gap - 1) == Ahead(|s|, i, gap);
  }

  lemma CarrySettled<K, V>(s: seq<Entry<K, V>>, e: Entry<K, V>, probe: nat, i: nat, gap: nat)
    requires Carrying(s, e, probe, i, gap) && s[i].Free?
    ensures Ordered(s[i := e])
  {
    TakeSlot(s, i, e);
  }

  /** Slot `a` is not among the `gap + 1` slots from `i` on. */
  ghost predicate Behind(size: nat, a: nat, i: nat, gap: nat)
  {
    a < size && i < size && gap < Dist(size, i, a)
  }

  lemma BehindStep(size: nat, a: nat, i: nat, gap: nat)
    requires i < size && 0 < gap < size && (Behind(size, a, i, gap) || a == i)
    ensures Behind(size, a, Next(size, i), gap - 1)
  {
  }

  // --- backward-shift deletion -----------------------------------------------------

  /** Ordered once the hole at `i` is filled or the slot after it needs no shift. */
  ghost predicate HoleAt<K, V>(s: seq<Entry<K, V>>, i: nat)
  {
    && i < |s| && s[i].Free?
    && (forall k: nat {:trigger Next(|s|, k)} | k < |s| && k != i :: Disp(s, Next(|s|, k)) <= Disp(s, k) + 1)
    && Disp(s, Next(|s|, i)) <= Disp(s, Prev(|s|, i)) + 2
  }

  lemma OpenHole<K, V>(s: seq<Entry<K, V>>, i: nat)
    requires Ordered(s) && i < |s|
    ensures HoleAt(s[i := Free], i)
  {
    var t := s[i := Free];
    assert Disp(s, i) <= Disp(s, Prev(|s|, i)) + 1;
    assert Disp(s, Next(|s|, i)) <= Disp(s, i) + 1;
    forall k: nat | k < |t| && k != i ensures Disp(t, Next(|t|, k)) <= Disp(t, k) + 1 {
    }
  }

  /** Moving a displaced follower into the hole moves the hole one slot on. */
  lemma ShiftHole<K, V>(s: seq<Entry<K, V>>, i: nat)
    requires |s| >= 2 && HoleAt(s, i) && Disp(s, Next(|s|, i)) > 0
    ensures HoleAt(s[i := s[Next(|s|, i)]][Next(|s|, i) := Free], Next(|s|, i))
  {
    var n := |s|;
    var j := Next(n, i);
    var t := s[i := s[j]][j := Free];
    assert Disp(t, i) == Disp(s, j) - 1;
    forall k: nat | k < n && k != j ensures Disp(t, Next(n, k)) <= Disp(t, k) + 1 {
      if Next(n, k) == i {
        assert k == Prev(n, i);
      }
    }
    assert Disp(s, Next(n, j)) <= Disp(s, j) + 1;
  }

  lemma CloseHole<K, V>(s: seq<Entry<K, V>>, i: nat)
    requires HoleAt(s, i) && Disp(s, Next(|s|, i)) <= 0
    ensures Ordered(s)
  {
  }

  /** `t` is `s` with the run after slot `i` moved back one slot, leaving slot `last` free. */
  ghost predicate ShiftedBack<K, V>(s: seq<Entry<K, V>>, t: seq<Entry<K, V>>, i: nat, last: nat)
  {
    && |t| == |s| && i < |s| && last < |s|
    && forall k: nat {:trigger t[k]} | k < |s| ::
         t[k] == if k == last then Free
                 else if Dist(|s|, i, k) < Dist(|s|, i, last) then s[Next(|s|, k)]
                 else s[k]
  }

  /** Filling the hole from the slot after it extends the shifted run by one. */
  lemma ShiftedOne<K, V>(s: seq<Entry<K, V>>, t: seq<Entry<K, V>>, i: nat, last: nat)
    requires |s| >= 2 && ShiftedBack(s, t, i, last) && Next(|s|, last) != i
    ensures ShiftedBack(s, t[last := t[Next(|s|, last)]][Next(|s|, last) := Free], i, Next(|s|, last))
  {
  }

  /** What backward-shift deletion has done so far, read with the slot `h` taken as empty. */
  ghost predicate Deleting<K, V>(s: seq<Entry<K, V>>, t: seq<Entry<K, V>>, i: nat, h: nat, gap: nat)
  {
    && |s| >= 2 && ShiftedBack(s, t, i, h) && HoleAt(t, h)
    && 0 < gap < |s| && t[Ahead(|s|, h, gap)].Free? && Dist(|s|, i, h) + gap < |s|
    && multiset(t) == multiset(s) - multiset{s[i]} + multiset{Free}
  }

  lemma StartDeleting<K, V>(s: seq<Entry<K, V>>, i: nat, free: nat)
    requires |s| >= 2 && Ordered(s) && i < |s| && free < |s| && s[free].Free? && s[i].Used?
    ensures Deleting(s, s[i := Free], i, i, Dist(|s|, i, free))
  {
    OpenHole(s, i);
    assert Ahead(|s|, i, Dist(|s|, i, free)) == free;
  }

  lemma GoOnDeleting<K, V>(s: seq<Entry<K, V>>, t: seq<Entry<K, V>>, i: nat, h: nat, gap: nat)
    requires Deleting(s, t, i, h, gap) && Disp(t, Next(|s|, h)) > 0
    ensures gap > 1
    ensures var j := Next(|s|, h); Deleting(s, t[h := t[j]][j := Free], i, j, gap - 1)
  {
    var n := |s|;
    var j := Next(n, h);
    assert Ahead(n, h, 1) == j;
    ShiftHole(t, h);
    assert j != i;
    ShiftedOne(s, t, i, h);
    assert Ahead(n, j, gap - 1) == Ahead(n, h, gap);
    assert Dist(n, i, j) == Dist(n, i, h) + 1;
    assert Ahead(n, h, gap) != h && Ahead(n, h, gap) != j;
  }

  lemma HoleMoves<K, V>(u: seq<Entry<K, V>>, h: nat, j: nat)
    requires h < |u| && j < |u| && h != j
    ensures var t := u[h := Free]; t[h := t[j]][j := Free] == u[h := u[j]][j := Free]
  {
  }

  /** Rewriting an entry under the same hash code keeps the order. */
  lemma RewriteKeepsOrder<K, V>(s: seq<Entry<K, V>>, i: nat, e: Entry<K, V>)
    requires Ordered(s) && i < |s| && s[i].Used? && e.Used? && e.hash == s[i].hash
    ensures Ordered(s[i := e])
    ensures Bag(s[i := e]) == Bag(s) - multiset{s[i]} + multiset{e}
  {
    var t := s[i := e];
    forall k: nat | k < |t| ensures Disp(t, k) == Disp(s, k) {
    }
    forall k: nat | k < |t| ensures Disp(t, Next(|t|, k)) <= Disp(t, k) + 1 {
    }
    assert s[i] in multiset(s);
  }
}
