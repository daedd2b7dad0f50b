/**
 * The Robin Hood hash table: lookup, emplacement, growth, put and removal over a slot
 * array, each proved against the bag of entries and, through it, against a plain map
 * whose keys are taken up to the caller's equality.
 */
module HashTables {
  import opened Basics
  import opened Words
  import opened Bits
  import opened RobinHood
  import opened HashKeys

  const HALF_WORD := 0x8000_0000_0000_0000

  /** Bytes of one slot and of the table header on a 64-bit platform. */
  const ENTRY_BYTES := 24
  const HEADER_BYTES := 80

  /** `s_find_entry`: where the key is, or the slot and probe index where it would go. */
  datatype Lookup = Found(slot: nat, probe: nat) | Missing(slot: nat, probe: nat)

  /** `aws_hash_table_create`: the element's slot, or an overflow in the size computation. */
  datatype Created = Created(slot: nat, wasCreated: bool) | Overflow

  /** The load limit of a table, always leaving a free slot; 0.95 as a double is this fraction. */
  function MaxLoad(size: nat): (r: nat)
    requires size >= 2
    ensures 1 <= r < size
  {
    var scaled := size * 4278419646001971 / 4503599627370496;
    Min(scaled, size - 1)
  }

  /** `hash_table_state_required_bytes` does not overflow. */
  predicate Allocatable(size: nat)
  {
    size * ENTRY_BYTES + HEADER_BYTES <= SIZE_MAX
  }

  /** A table of this size can be replaced by one of twice the size. */
  predicate CanDouble(size: nat)
  {
    2 * size <= HALF_WORD && Allocatable(2 * size)
  }

  /** Any table of up to 2^58 slots can double, and no larger one. */
  lemma DoublesUpTo(size: nat)
    requires PowerOfTwo(size)
    ensures CanDouble(size) <==> size <= 0x400_0000_0000_0000
  {
    Pow2Sum(58, 5);
    HalfWord();
    assert Pow2(5) == 32;
    assert Pow2(58) == 0x400_0000_0000_0000;
    if Pow2(58) <= size < 2 * Pow2(58) {
      PowersApart(Pow2(58), size);
    }
  }

  /** The load limit is 95 hundredths of the size, less one at most; below 20 slots it leaves one free. */
  lemma LoadLimit(size: nat)
    requires 2 <= size <= 0x2_0000_0000_0000
    ensures var r := MaxLoad(size); if size < 20 then r == size - 1 else 20 * r <= 19 * size <= 20 * r + 20
  {
    Fraction(size, size * 4278419646001971 / 4503599627370496, 4278419646001971, 4503599627370496);
  }

  /** A fraction `m / n` that is a little less than 19 twentieths. */
  lemma Fraction(size: nat, r: nat, m: nat, n: nat)
    requires 20 * m + 4 == 19 * n && 4 * size <= n && n > 0 && r == size * m / n
    ensures 20 * r <= 19 * size <= 20 * r + 20
  {
    DivMod(size * m, n);
    Spread(size, r, m, n);
    LessTimes(20 * r, 19 * size, n);
    LessTimes(19 * size, 20 * r + 20, n);
  }

  lemma Spread(size: nat, r: nat, m: nat, n: nat)
    requires 20 * m + 4 == 19 * n
    ensures (20 * r) * n == 20 * (r * n) && (20 * r + 20) * n == 20 * (r * n) + 20 * n
    ensures (19 * size) * n == 20 * (size * m) + 4 * size
  {
    assert (19 * size) * n == size * (20 * m + 4);
  }

  lemma LessTimes(a: nat, b: nat, n: nat)
    requires a * n < b * n + n
    ensures a <= b
  {
    if a > b {
      TimesMore(b, a, n);
    }
  }

  lemma TimesMore(a: nat, b: nat, n: nat)
    requires a < b
    ensures a * n + n <= b * n
  {
    Distribute(a, b - a, n);
    Distribute(1, b - a - 1, n);
  }

  /** A size never falls, and stays when it cannot double. */
  ghost predicate Grown(before: nat, after: nat)
  {
    before <= after && (CanDouble(before) || after == before)
  }

  /** `s_update_template_size`: the slot count for an expected number of elements. */
  function SizeFor(expected: nat): (r: Option<nat>)
    ensures r.None? <==> expected > HALF_WORD
    ensures r.Some? ==> 2 <= r.value <= HALF_WORD && PowerOfTwo(r.value) && expected <= r.value
    ensures r.Some? ==> r.value == 2 || r.value < 2 * expected
  {
    var least := if expected < 2 then 2 else expected;
    if least > HALF_WORD then None
    else
      RoundUpCorrect(least);
      Some(RoundUp(least))
  }

  lemma DoubledSize(size: nat)
    requires size >= 2 && PowerOfTwo(size)
    ensures 2 * size <= HALF_WORD ==> SizeFor(2 * size) == Some(2 * size)
  {
    if 2 * size <= HALF_WORD {
      DoublePower(size);
      PowersApart(2 * size, SizeFor(2 * size).value);
    }
  }

  /** The overflow checks of `s_expand_table`: the size doubles, or the table cannot grow. */
  function GrownSize(size: nat): (r: Option<nat>)
    requires 2 <= size <= HALF_WORD && PowerOfTwo(size)
    ensures r == if CanDouble(size) then Some(2 * size) else None
  {
    if 2 * size > SIZE_MAX then None
    else
      DoubledSize(size);
      var grown := SizeFor(2 * size);
      if grown.None? || !Allocatable(grown.value) then None else grown
  }

  // --- slots and bags ----------------------------------------------------------------

  lemma InBag<K, V>(s: seq<Entry<K, V>>, i: nat)
    requires i < |s| && s[i].Used?
    ensures s[i] in Bag(s)
  {
    assert s[i] in s;
  }

  lemma FromBag<K, V>(s: seq<Entry<K, V>>, e: Entry<K, V>) returns (i: nat)
    requires e in Bag(s)
    ensures i < |s| && s[i] == e && e.Used?
  {
    assert e in multiset(s);
    assert e in s;
    i :| i < |s| && s[i] == e;
  }

  lemma BagSize<K, V>(s: seq<Entry<K, V>>)
    ensures |Bag(s)| + multiset(s)[Free] == |s|
  {
  }

  lemma HasRoom<K, V>(s: seq<Entry<K, V>>) returns (f: nat)
    requires |Bag(s)| < |s|
    ensures f < |s| && s[f].Free?
  {
    BagSize(s);
    var e: Entry<K, V> := Free;
    assert e in multiset(s);
    assert e in s;
    f :| f < |s| && s[f] == e;
  }

  lemma TwoCopies<T>(s: seq<T>, i: nat, j: nat)
    requires i < j < |s| && s[i] == s[j]
    ensures multiset(s)[s[i]] >= 2
  {
    assert s == s[..j] + s[j..];
    assert s[i] == s[..j][i] && s[i] == s[j..][0];
    assert multiset(s) == multiset(s[..j]) + multiset(s[j..]);
  }

  /** Lookup has come this far without finding the key or a free slot. */
  ghost predicate Passed<P(!new), V>(hg: Hashing<P>, s: seq<Entry<Key<P>, V>>, key: Key<P>, probe: nat)
    requires |s| > 0 && probe <= |s|
  {
    forall t: nat | t < probe ::
      var e := s[SlotAt(|s|, hg.HashFor(key), t)];
      e.Used? && !hg.Same(key, e.key)
  }

  /**
   * The early exit is sound: if the slot at this probe index is free, or its occupant is
   * closer to home than the probe, and no earlier slot held the key, the key is absent.
   */
  lemma EarlyOutSound<P(!new), V>(hg: Hashing<P>, s: seq<Entry<Key<P>, V>>, key: Key<P>, probe: nat)
    requires hg.Lawful() && hg.Keyed(Bag(s)) && Ordered(s)
    requires probe < |s| && Passed(hg, s, key, probe)
    requires Disp(s, SlotAt(|s|, hg.HashFor(key), probe)) < probe
    ensures !hg.Has(Bag(s), key)
  {
    if hg.Has(Bag(s), key) {
      var e := hg.Holder(Bag(s), key);
      var j := FromBag(s, e);
      hg.SameIsEquivalence(key, e.key, key);
      var home := Home(e.hash, |s|);
      var d := Disp(s, j);
      assert SlotAt(|s|, e.hash, d) == j;
      if d >= probe {
        NoEarlyOut(s, j, probe);
      }
    }
  }

  /** One turn of the probe loop on an occupied slot that does not hold the key. */
  lemma PassedOne<P(!new), V>(hg: Hashing<P>, s: seq<Entry<Key<P>, V>>, key: Key<P>, probe: nat)
    requires hg.Lawful() && hg.Keyed(Bag(s))
    requires probe < |s| && Passed(hg, s, key, probe)
    requires var e := s[SlotAt(|s|, hg.HashFor(key), probe)];
             e.Used? && !(e.hash == hg.HashFor(key) && hg.Same(key, e.key))
    ensures Passed(hg, s, key, probe + 1)
  {
    var i := SlotAt(|s|, hg.HashFor(key), probe);
    InBag(s, i);
    hg.SameIsEquivalence(key, s[i].key, key);
  }

  /** Emplacement under way: `e` is in hand at slot `i`, and `entry` sits in slot `at` if that is known. */
  ghost predicate Emplacing<K, V>(
    s0: seq<Entry<K, V>>, entry: Entry<K, V>, s: seq<Entry<K, V>>, e: Entry<K, V>, probe: nat, i: nat, gap: nat, at: Option<nat>)
  {
    && i < |s| == |s0| && Exchanged(s0, entry, s, e)
    && (if at.None? then e == entry else at.value < |s| && s[at.value] == entry)
    && (e.Used? ==> Carrying(s, e, probe, i, gap))
    && (e.Used? && at.Some? ==> Behind(|s|, at.value, i, gap))
    && (e.Free? ==> Ordered(s))
  }

  /** One turn of the emplacement loop. */
  lemma EmplacingOn<K, V>(
    s0: seq<Entry<K, V>>, entry: Entry<K, V>, s: seq<Entry<K, V>>, e: Entry<K, V>, probe: nat, i: nat, gap: nat, at: Option<nat>,
    s': seq<Entry<K, V>>, e': Entry<K, V>, probe': nat, taken: bool)
    requires Emplacing(s0, entry, s, e, probe, i, gap, at) && e.Used?
    requires if taken then e' == s[i] && s' == s[i := e] else e' == e && s' == s
    requires e'.Free? ==> Ordered(s')
    requires e'.Used? ==> gap > 0 && Carrying(s', e', probe', Next(|s|, i), gap - 1)
    ensures var at' := if taken && at.None? then Some(i) else at;
            if e'.Used? then Emplacing(s0, entry, s', e', probe', Next(|s|, i), gap - 1, at')
            else Emplacing(s0, entry, s', e', probe', i, gap, at')
  {
    if taken {
      ExchangeOne(s0, entry, s, e, i);
    }
    if e'.Used? {
      if at.Some? {
        BehindStep(|s|, at.value, i, gap);
      } else if taken {
        BehindStep(|s|, i, i, gap);
      }
    }
  }

  class HashTable<P(==, !new), V> {
    const hg: Hashing<P>
    const nothing: V
    var slots: array<Entry<Key<P>, V>>
    var entryCount: nat
    var maxLoad: nat

    /** The slot array has a legal size and is in Robin Hood order, with room for one more. */
    ghost predicate Shaped()
      reads this, slots
    {
      && 2 <= slots.Length <= HALF_WORD && PowerOfTwo(slots.Length)
      && Ordered(slots[..])
      && |Bag(slots[..])| < slots.Length
    }

    ghost predicate Valid()
      reads this, slots
    {
      && hg.Lawful()
      && Shaped()
      && maxLoad == MaxLoad(slots.Length)
      && entryCount == |Bag(slots[..])| <= maxLoad
      && hg.Keyed(Bag(slots[..]))
    }

    ghost function Contents(): multiset<Entry<Key<P>, V>>
      reads this, slots
    {
      Bag(slots[..])
    }

    /** The plain map that the table stands for. */
    ghost function Map(): imap<Key<P>, V>
      reads this, slots
    {
      hg.AsMap(Bag(slots[..]))
    }

    constructor Empty(hg: Hashing<P>, nothing: V, size: nat)
      requires hg.Lawful() && 2 <= size <= HALF_WORD && PowerOfTwo(size)
      ensures Valid() && fresh(slots) && this.hg == hg && this.nothing == nothing
      ensures Contents() == multiset{} && slots.Length == size
    {
      this.hg := hg;
      this.nothing := nothing;
      slots := new Entry<Key<P>, V>[size](_ => Free);
      entryCount := 0;
      maxLoad := MaxLoad(size);
      new;
      BagSize(slots[..]);
      AllFree(slots[..]);
    }

    /** `aws_hash_table_init`: fails when the slot count or its byte size overflows. */
    static method Init(hg: Hashing<P>, nothing: V, expected: nat) returns (t: HashTable?<P, V>)
      requires hg.Lawful()
      ensures t == null <==> SizeFor(expected).None? || !Allocatable(SizeFor(expected).value)
      ensures t != null ==> fresh(t) && fresh(t.slots) && t.Valid() && t.hg == hg && t.nothing == nothing
      ensures t != null ==> t.Contents() == multiset{} && t.slots.Length == SizeFor(expected).value
    {
      var size := SizeFor(expected);
      if size.None? || !Allocatable(size.value) {
        return null;
      }
      t := new HashTable<P, V>.Empty(hg, nothing, size.value);
    }

    static lemma AllFree(s: seq<Entry<Key<P>, V>>)
      requires forall i | 0 <= i < |s| :: s[i].Free?
      ensures Bag(s) == multiset{}
    {
      forall e | e in Bag(s) ensures e.Free? {
        var i := FromBag(s, e);
      }
    }

    /** What a lookup reports about the slots it walked. */
    ghost predicate Located(key: Key<P>, r: Lookup)
      reads this, slots
    {
      var s := slots[..];
      && |s| > 0 && r.slot < |s| && r.probe < |s|
      && r.slot == SlotAt(|s|, hg.HashFor(key), r.probe)
      && match r
         case Found(i, _) => s[i].Used? && hg.Same(key, s[i].key)
         case Missing(i, p) => !hg.Has(Bag(s), key) && Disp(s, i) < p <= Disp(s, Prev(|s|, i)) + 1
    }

    /** `s_find_entry`, whose inlined fast path looks at the home slot only. */
    method FindEntry(key: Key<P>) returns (r: Lookup)
      requires Valid()
      ensures Located(key, r)
    {
      var hash := hg.HashFor(key);
      ghost var s := slots[..];
      var first := ProbeSlot(slots.Length, hash, 0);
      if slots[first].Free? {
        EarlyOutSound(hg, s, key, 0);
        return Missing(first, 0);
      }
      if slots[first].hash == hash && hg.Same(key, slots[first].key) {
        return Found(first, 0);
      }
      PassedOne(hg, s, key, 0);
      r := FindEntry1(key);
    }

    /** `s_find_entry1`: the general probe loop with its early exit. */
    method FindEntry1(key: Key<P>) returns (r: Lookup)
      requires Valid() && Passed(hg, slots[..], key, 1)
      ensures Located(key, r)
    {
      var hash := hg.HashFor(key);
      ghost var s := slots[..];
      ghost var free := HasRoom(s);
      ProbeOn(s, hash, 0, free);
      var probe := 1;
      while true
        invariant probe >= 1 && Probing(s, hash, probe, free)
        invariant Passed(hg, s, key, probe)
        decreases |s| - probe
      {
        var found := LookAt(key, hash, probe, free);
        if found.Some? {
          return found.value;
        }
        probe := probe + 1;
      }
    }

    /** One turn of the probe loop: an answer, or a step on. */
    method LookAt(key: Key<P>, hash: nat, probe: nat, ghost free: nat) returns (r: Option<Lookup>)
      requires Valid() && hash == hg.HashFor(key)
      requires probe >= 1 && Probing(slots[..], hash, probe, free) && Passed(hg, slots[..], key, probe)
      ensures r.Some? ==> Located(key, r.value)
      ensures r.None? ==> Probing(slots[..], hash, probe + 1, free) && Passed(hg, slots[..], key, probe + 1)
    {
      ghost var s := slots[..];
      var index := ProbeSlot(slots.Length, hash, probe);
      if slots[index].Free? {
        EarlyOutSound(hg, s, key, probe);
        return Some(Missing(index, probe));
      }
      if slots[index].hash == hash && hg.Same(key, slots[index].key) {
        return Some(Found(index, probe));
      }
      PassedOne(hg, s, key, probe);
      var entryProbe := ProbeDistance(slots.Length, slots[index].hash, index);
      if entryProbe < probe {
        EarlyOutSound(hg, s, key, probe);
        return Some(Missing(index, probe));
      }
      ProbeOn(s, hash, probe, free);
      return None;
    }

    method Store(index: nat, entry: Entry<Key<P>, V>)
      requires index < slots.Length
      modifies slots
      ensures slots[..] == old(slots[..])[index := entry]
    {
      slots[index] := entry;
    }

    /** One turn of the emplacement loop: swap with a richer occupant or pass on. */
    method EmplaceStep(carried: Entry<Key<P>, V>, probe: nat, ghost i: nat, ghost gap: nat)
      returns (next: Entry<Key<P>, V>, probe': nat, taken: Option<nat>)
      requires slots.Length <= HALF_WORD && PowerOfTwo(slots.Length)
      requires Carrying(slots[..], carried, probe, i, gap)
      modifies slots
      ensures taken.None? ==> next == carried && slots[..] == old(slots[..])
      ensures taken.Some? ==>
        taken.value == i && next == old(slots[i]) && slots[..] == old(slots[..])[i := carried]
      ensures next.Free? ==> Ordered(slots[..])
      ensures next.Used? ==> gap > 0 && Carrying(slots[..], next, probe', Next(slots.Length, i), gap - 1)
    {
      ghost var s := slots[..];
      var index := ProbeSlot(slots.Length, carried.hash, probe);
      var victim := slots[index];
      var victimProbe := 0;
      if victim.Used? {
        victimProbe := ProbeDistance(slots.Length, victim.hash, index);
      }
      if victim.Free? || victimProbe < probe {
        if victim.Free? {
          CarrySettled(s, carried, probe, i, gap);
        } else {
          CarryDisplaced(s, carried, probe, i, gap);
        }
        Store(index, carried);
        return victim, victimProbe + 1, Some(index);
      }
      CarryOn(s, carried, probe, i, gap);
      return carried, probe + 1, None;
    }

    /**
     * `s_emplace_item`: settle an entry, displacing richer ones on the way. An entry with
     * hash code 0 is not placed anywhere.
     */
    method EmplaceItem(entry: Entry<Key<P>, V>, probe0: nat) returns (at: Option<nat>)
      requires Shaped() && probe0 < slots.Length
      requires entry.Used? ==>
        probe0 <= Disp(slots[..], Prev(slots.Length, SlotAt(slots.Length, entry.hash, probe0))) + 1
      modifies slots
      ensures Ordered(slots[..])
      ensures entry.Free? ==> at.None? && slots[..] == old(slots[..])
      ensures entry.Used? ==> at.Some? && at.value < slots.Length && slots[at.value] == entry
      ensures entry.Used? ==> Bag(slots[..]) == old(Bag(slots[..])) + multiset{entry}
    {
      at := None;
      if entry.Free? {
        return;
      }
      ghost var n, s0 := slots.Length, slots[..];
      ghost var free := HasRoom(s0);
      ghost var i := SlotAt(n, entry.hash, probe0);
      assert Ahead(n, i, Dist(n, i, free)) == free;
      at := Settle(entry, probe0, i, Dist(n, i, free));
      ExchangeAll(s0, entry, slots[..]);
    }

    /** The emplacement loop. */
    method Settle(entry: Entry<Key<P>, V>, probe0: nat, ghost i0: nat, ghost gap0: nat) returns (at: Option<nat>)
      requires slots.Length <= HALF_WORD && PowerOfTwo(slots.Length)
      requires entry.Used? && Carrying(slots[..], entry, probe0, i0, gap0)
      modifies slots
      ensures Ordered(slots[..]) && Exchanged(old(slots[..]), entry, slots[..], Free)
      ensures at.Some? && at.value < slots.Length && slots[at.value] == entry
    {
      ghost var s0, i: nat, gap: nat := slots[..], i0, gap0;
      var carried, probe := entry, probe0;
      at := None;
      while carried.Used?
        invariant Emplacing(s0, entry, slots[..], carried, probe, i, gap, at)
        decreases carried.Used?, gap
      {
        ghost var s, e, p := slots[..], carried, probe;
        var taken;
        carried, probe, taken := EmplaceStep(carried, probe, i, gap);
        EmplacingOn(s0, entry, s, e, p, i, gap, at, slots[..], carried, probe, taken.Some?);
        if at.None? {
          at := taken;
        }
        if carried.Used? {
          i, gap := Next(slots.Length, i), gap - 1;
        }
      }
    }

    /** One turn of the deletion loop, seen with slot `index` as already empty. */
    method ShiftOne(index: nat) returns (next: Option<nat>)
      requires 2 <= slots.Length <= HALF_WORD && PowerOfTwo(slots.Length) && index < slots.Length
      modifies slots
      ensures next.None? ==>
        slots[..] == old(slots[..]) && Disp(slots[..], Next(slots.Length, index)) <= 0
      ensures next.Some? ==>
        && next.value == Next(slots.Length, index)
        && Disp(old(slots[..]), next.value) > 0
        && slots[..] == old(slots[..])[index := old(slots[next.value])]
    {
      var nextIndex := Masked(index + 1, slots.Length);
      NextSlot(slots.Length, index);
      if slots[nextIndex].Free? {
        return None;
      }
      var home := Masked(slots[nextIndex].hash, slots.Length);
      MaskedIsReduce(slots[nextIndex].hash, slots.Length);
      if home == nextIndex {
        return None;
      }
      Store(index, slots[nextIndex]);
      return Some(nextIndex);
    }

    /** The loop of `s_remove_entry`: shift until the next slot is free or holds an entry at home. */
    method CloseGap(index0: nat) returns (last: nat)
      requires Shaped() && index0 < slots.Length && slots[index0].Used?
      modifies slots
      ensures Ordered(slots[..]) && ShiftedBack(old(slots[..]), slots[..], index0, last)
      ensures Bag(slots[..]) == old(Bag(slots[..])) - multiset{old(slots[index0])}
    {
      ghost var s := slots[..];
      ghost var free := HasRoom(s);
      StartDeleting(s, index0, free);
      var index: nat := index0;
      ghost var gap: nat := Dist(|s|, index0, free);
      while true
        invariant index < slots.Length
        invariant Deleting(s, slots[..][index := Free], index0, index, gap)
        decreases gap
      {
        ghost var u := slots[..];
        var next := ShiftOne(index);
        if next.None? {
          break;
        }
        GoOnDeleting(s, u[index := Free], index0, index, gap);
        HoleMoves(u, index, next.value);
        index, gap := next.value, gap - 1;
      }
      CloseHole(slots[..][index := Free], index);
      DroppedBag(s, slots[..][index := Free], index0);
      Store(index, Free);
      return index;
    }

    /** `s_remove_entry`; returns the last slot touched. */
    method RemoveEntry(index: nat) returns (last: nat)
      requires Valid() && index < slots.Length && slots[index].Used?
      modifies this`entryCount, slots
      ensures Valid()
      ensures Contents() == old(Contents()) - multiset{old(slots[index])}
      ensures ShiftedBack(old(slots[..]), slots[..], index, last)
    {
      InBag(slots[..], index);
      hg.DropKeyed(Contents(), slots[index]);
      entryCount := entryCount - 1;
      last := CloseGap(index);
    }

    static lemma DroppedBag(s: seq<Entry<Key<P>, V>>, t: seq<Entry<Key<P>, V>>, i: nat)
      requires i < |s| && s[i].Used? && multiset(t) == multiset(s) - multiset{s[i]} + multiset{Free}
      ensures s[i] in Bag(s) && Bag(t) == Bag(s) - multiset{s[i]}
    {
      InBag(s, i);
    }

    /** `aws_hash_table_find`: the value stored under an equal key. */
    method Find(key: Key<P>) returns (r: Option<V>)
      requires Valid()
      ensures r == if key in Map() then Some(Map()[key]) else None
    {
      var at := FindEntry(key);
      if at.Missing? {
        return None;
      }
      InBag(slots[..], at.slot);
      hg.HolderUnique(Contents(), key, slots[at.slot]);
      return Some(slots[at.slot].value);
    }

    /** The loop of `s_expand_table`: settle every entry of another slot array in this empty one. */
    method SettleAll(before: array<Entry<Key<P>, V>>)
      requires before != slots && before.Length < slots.Length <= HALF_WORD && PowerOfTwo(slots.Length)
      requires Ordered(slots[..]) && Bag(slots[..]) == multiset{}
      modifies slots
      ensures Ordered(slots[..]) && Bag(slots[..]) == Bag(before[..])
    {
      for i := 0 to before.Length
        invariant Ordered(slots[..]) && Bag(slots[..]) == Bag(before[..i])
      {
        PrefixBag(before[..], i);
        BagSize(before[..i]);
        assert before[..][..i] == before[..i] && before[..][..i + 1] == before[..i + 1];
        if before[i].Used? {
          var _ := EmplaceItem(before[i], 0);
        }
      }
      assert before[..before.Length] == before[..];
    }

    /** `s_expand_table`: double the slot count and settle every entry again. */
    method Expand() returns (ok: bool)
      requires Valid()
      modifies this
      ensures Valid() && entryCount == old(entryCount) && Contents() == old(Contents())
      ensures ok <==> CanDouble(old(slots.Length))
      ensures ok ==> fresh(slots) && slots.Length == 2 * old(slots.Length) && entryCount < maxLoad
      ensures !ok ==> slots == old(slots) && maxLoad == old(maxLoad)
    {
      var size := GrownSize(slots.Length);
      if size.None? {
        return false;
      }
      DoublePower(slots.Length);
      MaxLoadGrows(slots.Length);
      var before := slots;
      slots := new Entry<Key<P>, V>[size.value](_ => Free);
      maxLoad := MaxLoad(size.value);
      AllFree(slots[..]);
      SettleAll(before);
      return true;
    }

    static lemma PrefixBag(s: seq<Entry<Key<P>, V>>, i: nat)
      requires i < |s|
      ensures Bag(s[..i + 1]) == if s[i].Used? then Bag(s[..i]) + multiset{s[i]} else Bag(s[..i])
    {
      assert s[..i + 1] == s[..i] + [s[i]];
    }

    /** Count and settle a new element; the load limit has been checked. */
    method Insert(e: Entry<Key<P>, V>, probe: nat) returns (slot: nat)
      requires Valid() && entryCount < maxLoad && probe < slots.Length
      requires e.Used? && e.hash == hg.HashFor(e.key) && !hg.Has(Contents(), e.key)
      requires probe <= Disp(slots[..], Prev(slots.Length, SlotAt(slots.Length, e.hash, probe))) + 1
      modifies this`entryCount, slots
      ensures Valid() && slot < slots.Length && slots[slot] == e
      ensures Contents() == old(Contents()) + multiset{e}
    {
      hg.AddKeyed(Contents(), e);
      entryCount := entryCount + 1;
      var at := EmplaceItem(e, probe);
      return at.value;
    }

    /** `aws_hash_table_create`: find the element or make one with a null value. */
    method Create(key: Key<P>) returns (r: Created)
      requires Valid()
      modifies this, slots
      ensures Valid() && (slots == old(slots) || fresh(slots)) && Grown(old(slots.Length), slots.Length)
      ensures r.Overflow? <==> Unable(old(slots[..]), key)
      ensures r.Overflow? ==> slots == old(slots) && slots[..] == old(slots[..])
      ensures r.Created? ==>
        && r.slot < slots.Length && slots[r.slot].Used? && hg.Same(key, slots[r.slot].key)
        && (r.wasCreated <==> !hg.Has(old(Contents()), key))
      ensures r.Created? && !r.wasCreated ==> slots == old(slots) && slots[..] == old(slots[..])
      ensures r.Created? && r.wasCreated ==>
        var e := Used(hg.HashFor(key), key, nothing);
        slots[r.slot] == e && Contents() == old(Contents()) + multiset{e}
    {
      var at := FindEntry(key);
      if at.Found? {
        InBag(slots[..], at.slot);
        return Created(at.slot, false);
      }
      var probe := at.probe;
      if entryCount + 1 > maxLoad {
        var ok := Expand();
        if !ok {
          return Overflow;
        }
        probe := 0;
      }
      var slot := Insert(Used(hg.HashFor(key), key, nothing), probe);
      return Created(slot, true);
    }

    /** Write the key and the value of an element in place. */
    method Overwrite(slot: nat, key: Key<P>, value: V)
      requires Valid() && slot < slots.Length && slots[slot].Used? && hg.Same(key, slots[slot].key)
      modifies slots
      ensures Valid()
      ensures Contents() == old(Contents()) - multiset{old(slots[slot])} + multiset{Used(old(slots[slot].hash), key, value)}
    {
      var e := Used(slots[slot].hash, key, value);
      InBag(slots[..], slot);
      RewriteKeepsOrder(slots[..], slot, e);
      hg.ReplaceKeyed(Contents(), slots[slot], e);
      Store(slot, e);
    }

    /** Create the element for `key`, about to be written with `value`. */
    method CreateFor(key: Key<P>, value: V) returns (r: Created)
      requires Valid()
      modifies this, slots
      ensures Valid() && (slots == old(slots) || fresh(slots)) && Grown(old(slots.Length), slots.Length)
      ensures r.Overflow? <==> Unable(old(slots[..]), key)
      ensures r.Overflow? ==> slots == old(slots) && slots[..] == old(slots[..])
      ensures r.Created? ==>
        && r.slot < slots.Length && slots[r.slot].Used? && hg.Same(key, slots[r.slot].key)
        && (r.wasCreated <==> key !in old(Map()))
        && hg.AsMap(Contents() - multiset{slots[r.slot]} + multiset{Used(slots[r.slot].hash, key, value)})
           == hg.Assign(old(Map()), key, value)
    {
      ghost var b := Contents();
      r := Create(key);
      if r.Created? {
        InBag(slots[..], r.slot);
        hg.CreateThenWrite(b, r.wasCreated, slots[r.slot], Used(slots[r.slot].hash, key, value));
      }
    }

    /** The key is new, the load limit is reached and the table cannot grow any more. */
    ghost predicate Unable(s: seq<Entry<Key<P>, V>>, key: Key<P>)
    {
      |s| >= 2 && !hg.Has(Bag(s), key) && |Bag(s)| >= MaxLoad(|s|) && !CanDouble(|s|)
    }

    /** `aws_hash_table_put`; answers whether the element is new, or nothing on overflow. */
    method Put(key: Key<P>, value: V) returns (wasCreated: Option<bool>)
      requires Valid()
      modifies this, slots
      ensures Valid() && (slots == old(slots) || fresh(slots)) && Grown(old(slots.Length), slots.Length)
      ensures wasCreated.None? <==> Unable(old(slots[..]), key)
      ensures match wasCreated
              case None => slots == old(slots) && slots[..] == old(slots[..])
              case Some(isNew) => (isNew <==> key !in old(Map())) && Map() == hg.Assign(old(Map()), key, value)
    {
      var r := CreateFor(key, value);
      if r.Overflow? {
        return None;
      }
      Overwrite(r.slot, key, value);
      return Some(r.wasCreated);
    }

    /** The element under a key, taken out of the table. */
    method TakeOut(key: Key<P>) returns (e: Option<Entry<Key<P>, V>>)
      requires Valid()
      modifies this`entryCount, slots
      ensures Valid()
      ensures e == if hg.Has(old(Contents()), key) then Some(hg.Holder(old(Contents()), key)) else None
      ensures Contents() == if e.Some? then old(Contents()) - multiset{e.value} else old(Contents())
    {
      var at := FindEntry(key);
      if at.Missing? {
        return None;
      }
      e := Some(slots[at.slot]);
      InBag(slots[..], at.slot);
      hg.HolderUnique(Contents(), key, slots[at.slot]);
      var _ := RemoveEntry(at.slot);
    }

    /** `aws_hash_table_remove`: forget a key; answers the value that was there. */
    method Remove(key: Key<P>) returns (was: Option<V>)
      requires Valid()
      modifies this`entryCount, slots
      ensures Valid()
      ensures was == if key in old(Map()) then Some(old(Map())[key]) else None
      ensures Map() == hg.Forget(old(Map()), key)
    {
      ghost var b := Contents();
      var e := TakeOut(key);
      if e.None? {
        hg.ForgetAbsent(b, key);
        return None;
      }
      hg.DropForgets(b, e.value);
      hg.ForgetSame(hg.AsMap(b), e.value.key, key);
      return Some(e.value.value);
    }

    /** The `memset` of `aws_hash_table_clear`. */
    method ZeroSlots()
      modifies slots
      ensures forall k | 0 <= k < slots.Length :: slots[k].Free?
    {
      var i := 0;
      while i < slots.Length
        invariant 0 <= i <= slots.Length
        invariant forall k | 0 <= k < i :: slots[k].Free?
      {
        slots[i] := Free;
        i := i + 1;
      }
    }

    /** `aws_hash_table_clear`: empty every slot, keeping the size. */
    method Clear()
      requires Valid()
      modifies this`entryCount, slots
      ensures Valid() && Contents() == multiset{} && Map() == imap[]
    {
      ZeroSlots();
      entryCount := 0;
      AllFree(slots[..]);
    }
  }

  lemma MaxLoadGrows(size: nat)
    requires size >= 2
    ensures MaxLoad(size) < MaxLoad(2 * size)
  {
  }
}
