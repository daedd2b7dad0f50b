/**
 * Whole runs of a hash table against a plain map, and equality of two tables.
 */
module HashRuns {
  import opened Basics
  import opened RobinHood
  import opened HashKeys
  import opened HashTables

  // --- runs --------------------------------------------------------------------------

  datatype Op<P, V> = Put(key: Key<P>, value: V) | Get(key: Key<P>) | Delete(key: Key<P>) | Wipe

  /** A put that would outgrow the address space is refused and changes nothing. */
  datatype Answer<V> = Stored(isNew: bool) | Refused | Value(found: Option<V>) | Wiped

  /** One operation of the plain map, with the answer it must give. */
  ghost predicate MapStep<P(!new), V(!new)>(hg: Hashing<P>, m: imap<Key<P>, V>, op: Op<P, V>, a: Answer<V>, m': imap<Key<P>, V>)
  {
    match op
    case Put(k, v) => (a == Stored(k !in m) && m' == hg.Assign(m, k, v)) || (a == Refused && k !in m && m' == m)
    case Get(k) => a == Value(hg.Lookup(m, k)) && m' == m
    case Delete(k) => a == Value(hg.Lookup(m, k)) && m' == hg.Forget(m, k)
    case Wipe => a == Wiped && m' == imap[]
  }

  /** A run of the plain map through the states `ms`. */
  ghost predicate MapRun<P(!new), V(!new)>(hg: Hashing<P>, ms: seq<imap<Key<P>, V>>, ops: seq<Op<P, V>>, answers: seq<Answer<V>>)
  {
    && |ms| == |ops| + 1 && |answers| == |ops|
    && forall i: nat | i < |ops| :: MapStep(hg, ms[i], ops[i], answers[i], ms[i + 1])
  }

  /** What a step leaves under a pointer, by the caller's equality alone. */
  lemma StepByEquality<P(!new), V(!new)>(hg: Hashing<P>, m: imap<Key<P>, V>, op: Op<P, V>, a: Answer<V>, m': imap<Key<P>, V>, q: P)
    requires hg.Lawful() && MapStep(hg, m, op, a, m')
    ensures match op
      case Put(Ptr(p), v) =>
        if a.Refused? then m' == m && hg.Lookup(m, Ptr(p)).None?
        else hg.Lookup(m', Ptr(q)) == if hg.equalsFn(q, p) then Some(v) else hg.Lookup(m, Ptr(q))
      case Put(Null, v) => hg.Lookup(m', Ptr(q)) == hg.Lookup(m, Ptr(q)) && (!a.Refused? ==> hg.Lookup(m', Null) == Some(v))
      case Get(k) => a == Value(hg.Lookup(m, k)) && hg.Lookup(m', Ptr(q)) == hg.Lookup(m, Ptr(q))
      case Delete(Ptr(p)) =>
        a == Value(hg.Lookup(m, Ptr(p))) && hg.Lookup(m', Ptr(q)) == if hg.equalsFn(q, p) then None else hg.Lookup(m, Ptr(q))
      case Delete(Null) => a == Value(hg.Lookup(m, Null)) && hg.Lookup(m', Ptr(q)) == hg.Lookup(m, Ptr(q)) && hg.Lookup(m', Null).None?
      case Wipe => hg.Lookup(m', Ptr(q)).None? && hg.Lookup(m', Null).None?
  {
    match op
    case Put(Ptr(p), v) => hg.AssignByEquality(m, p, v, q);
    case Put(Null, v) => hg.AssignNull(m, v, q);
    case Get(_) =>
    case Delete(Ptr(p)) => hg.ForgetByEquality(m, p, q);
    case Delete(Null) => hg.ForgetNull(m, q);
    case Wipe =>
  }

  method Perform<P(==, !new), V(!new)>(table: HashTable<P, V>, op: Op<P, V>) returns (a: Answer<V>)
    requires table.Valid()
    modifies table, table.slots
    ensures table.Valid() && (table.slots == old(table.slots) || fresh(table.slots)) && Grown(old(table.slots.Length), table.slots.Length)
    ensures MapStep(table.hg, old(table.Map()), op, a, table.Map())
    ensures a.Refused? <==> op.Put? && table.Unable(old(table.slots[..]), op.key)
  {
    match op {
      case Put(k, v) =>
        var isNew := table.Put(k, v);
        a := if isNew.Some? then Stored(isNew.value) else Refused;
      case Get(k) =>
        var v := table.Find(k);
        a := Value(v);
      case Delete(k) =>
        var v := table.Remove(k);
        a := Value(v);
      case Wipe =>
        table.Clear();
        a := Wiped;
    }
  }

  lemma MapRunOn<P(!new), V(!new)>(
    hg: Hashing<P>, ms: seq<imap<Key<P>, V>>, ops: seq<Op<P, V>>, i: nat, answers: seq<Answer<V>>, a: Answer<V>, m: imap<Key<P>, V>)
    requires i < |ops| && MapRun(hg, ms, ops[..i], answers) && MapStep(hg, ms[i], ops[i], a, m)
    ensures MapRun(hg, ms + [m], ops[..i + 1], answers + [a])
  {
  }

  /** A put was refused only if the table cannot double now. */
  ghost predicate Caused<V>(answers: seq<Answer<V>>, size: nat)
  {
    forall i | 0 <= i < |answers| && answers[i].Refused? :: !CanDouble(size)
  }

  lemma CausedOn<V>(answers: seq<Answer<V>>, a: Answer<V>, size: nat, size': nat)
    requires Caused(answers, size) && Grown(size, size') && (a.Refused? ==> !CanDouble(size'))
    ensures Caused(answers + [a], size')
  {
  }

  /**
   * Every sequence of operations answers as the plain map does and keeps the table valid. A put
   * is refused only once the table is as large as it can be.
   */
  method Run<P(==, !new), V(!new)>(table: HashTable<P, V>, ops: seq<Op<P, V>>)
    returns (answers: seq<Answer<V>>, ghost ms: seq<imap<Key<P>, V>>)
    requires table.Valid()
    modifies table, table.slots
    ensures table.Valid() && Grown(old(table.slots.Length), table.slots.Length)
    ensures Caused(answers, table.slots.Length)
    ensures MapRun(table.hg, ms, ops, answers) && ms[0] == old(table.Map()) && ms[|ops|] == table.Map()
  {
    answers, ms := [], [table.Map()];
    for i := 0 to |ops|
      invariant table.Valid() && (table.slots == old(table.slots) || fresh(table.slots))
      invariant Grown(old(table.slots.Length), table.slots.Length) && Caused(answers, table.slots.Length)
      invariant MapRun(table.hg, ms, ops[..i], answers) && ms[0] == old(table.Map()) && ms[i] == table.Map()
    {
      ghost var size := table.slots.Length;
      var a := Perform(table, ops[i]);
      MapRunOn(table.hg, ms, ops, i, answers, a, table.Map());
      CausedOn(answers, a, size, table.slots.Length);
      answers, ms := answers + [a], ms + [table.Map()];
    }
    assert ops[..|ops|] == ops;
  }

  // --- equality ----------------------------------------------------------------------

  /** A larger bag has an entry whose key the smaller one lacks. */
  lemma {:induction false} NotInto<P(!new), V>(hg: Hashing<P>, a: multiset<Entry<Key<P>, V>>, b: multiset<Entry<Key<P>, V>>)
    returns (e: Entry<Key<P>, V>)
    requires hg.Lawful() && hg.Keyed(a) && hg.Keyed(b) && |a| > |b|
    ensures e in a && e.Used? && !hg.Has(b, e.key)
    decreases |b|
  {
    e :| e in a;
    if hg.Has(b, e.key) {
      var f := hg.Holder(b, e.key);
      var a', b' := a - multiset{e}, b - multiset{f};
      hg.DropKeyed(a, e);
      hg.DropKeyed(b, f);
      var e' := NotInto(hg, a', b');
      if hg.Has(b, e'.key) {
        HolderElsewhere(hg, a, b, e, f, e');
      }
      e := e';
    }
  }

  /** Two entries with different keys in `a` have different holders in `b`. */
  lemma HolderElsewhere<P(!new), V>(
    hg: Hashing<P>, a: multiset<Entry<Key<P>, V>>, b: multiset<Entry<Key<P>, V>>,
    e: Entry<Key<P>, V>, f: Entry<Key<P>, V>, e': Entry<Key<P>, V>)
    requires hg.Lawful() && hg.Keyed(a)
    requires e in a && f in b && f.Used? && hg.Same(e.key, f.key)
    requires e' in a - multiset{e} && hg.Has(b, e'.key)
    ensures hg.Has(b - multiset{f}, e'.key)
  {
    assert e' in a && e' != e;
    var f' := hg.Holder(b, e'.key);
    hg.SameIsEquivalence(e'.key, f'.key, e.key);
    hg.SameIsEquivalence(e.key, f.key, e.key);
    assert f' in b - multiset{f};
  }

  /** Every key of `a` is a key of `b`. */
  ghost predicate KeysWithin<P(!new), V>(hg: Hashing<P>, a: multiset<Entry<Key<P>, V>>, b: multiset<Entry<Key<P>, V>>)
  {
    forall k: Key<P> {:trigger hg.Has(a, k)} :: hg.Has(a, k) ==> hg.Has(b, k)
  }

  /** Pigeonhole: if all keys of `a` are in `b` and `a` is no smaller, all keys of `b` are in `a`. */
  lemma SameKeys<P(!new), V>(hg: Hashing<P>, a: multiset<Entry<Key<P>, V>>, b: multiset<Entry<Key<P>, V>>, k: Key<P>)
    requires hg.Lawful() && hg.Keyed(a) && hg.Keyed(b) && |a| >= |b|
    requires KeysWithin(hg, a, b)
    requires hg.Has(b, k)
    ensures hg.Has(a, k)
  {
    if !hg.Has(a, k) {
      var f := hg.Holder(b, k);
      var b' := b - multiset{f};
      hg.DropKeyed(b, f);
      var e := NotInto(hg, a, b');
      hg.SameIsEquivalence(e.key, e.key, e.key);
      assert hg.Has(a, e.key);
    }
  }

  /** `s_safe_eq_check` on values. */
  predicate ValuesMatch<V(==)>(valueEq: (V, V) -> bool, nothing: V, x: V, y: V)
  {
    x == y || (x != nothing && y != nothing && valueEq(x, y))
  }

  /** The two maps have the same keys and matching values. */
  ghost predicate SameMaps<P(!new), V>(m: imap<Key<P>, V>, m': imap<Key<P>, V>, valueEq: (V, V) -> bool, nothing: V)
  {
    forall k: Key<P> :: (k in m <==> k in m') && (k in m ==> ValuesMatch(valueEq, nothing, m[k], m'[k]))
  }

  /** For a reflexive comparison and maps without null values: the same keys, and equal values under each. */
  lemma SameMapsMeans<P(!new), V(!new)>(m: imap<Key<P>, V>, m': imap<Key<P>, V>, valueEq: (V, V) -> bool, nothing: V)
    requires (forall x :: valueEq(x, x)) && (forall k | k in m :: m[k] != nothing) && (forall k | k in m' :: m'[k] != nothing)
    ensures SameMaps(m, m', valueEq, nothing) <==> forall k: Key<P> :: (k in m <==> k in m') && (k in m ==> valueEq(m[k], m'[k]))
  {
  }

  /** A null value matches only a null value. */
  lemma NullMatchesNull<V>(valueEq: (V, V) -> bool, nothing: V, x: V)
    ensures ValuesMatch(valueEq, nothing, nothing, x) <==> x == nothing
    ensures ValuesMatch(valueEq, nothing, x, nothing) <==> x == nothing
  {
  }

  /** Every entry of the first `n` slots has a match in the other table. */
  ghost predicate Matched<P(!new), V>(
    hg: Hashing<P>, s: seq<Entry<Key<P>, V>>, n: nat, b: multiset<Entry<Key<P>, V>>, valueEq: (V, V) -> bool, nothing: V)
    requires n <= |s|
  {
    forall i: nat | i < n && s[i].Used? ::
      hg.Has(b, s[i].key) && ValuesMatch(valueEq, nothing, s[i].value, hg.Holder(b, s[i].key).value)
  }

  /** Each key of a matched table has a matching value in the other one. */
  lemma MatchedKey<P(!new), V>(
    hg: Hashing<P>, s: seq<Entry<Key<P>, V>>, b: multiset<Entry<Key<P>, V>>, valueEq: (V, V) -> bool, nothing: V, k: Key<P>)
    requires hg.Lawful() && hg.Keyed(b) && Matched(hg, s, |s|, b, valueEq, nothing) && hg.Has(Bag(s), k)
    ensures hg.Has(b, k) && ValuesMatch(valueEq, nothing, hg.Holder(Bag(s), k).value, hg.Holder(b, k).value)
  {
    var e := hg.Holder(Bag(s), k);
    var i := FromBag(s, e);
    var f := hg.Holder(b, e.key);
    hg.SameIsEquivalence(k, e.key, f.key);
    hg.HolderUnique(b, k, f);
  }

  lemma MatchedIsSame<P(!new), V>(
    hg: Hashing<P>, s: seq<Entry<Key<P>, V>>, b: multiset<Entry<Key<P>, V>>, valueEq: (V, V) -> bool, nothing: V)
    requires hg.Lawful() && hg.Keyed(Bag(s)) && hg.Keyed(b) && |Bag(s)| == |b|
    requires Matched(hg, s, |s|, b, valueEq, nothing)
    ensures SameMaps(hg.AsMap(Bag(s)), hg.AsMap(b), valueEq, nothing)
  {
    forall k: Key<P> | hg.Has(Bag(s), k)
      ensures hg.Has(b, k) && ValuesMatch(valueEq, nothing, hg.Holder(Bag(s), k).value, hg.Holder(b, k).value)
    {
      MatchedKey(hg, s, b, valueEq, nothing, k);
    }
    forall k: Key<P> | hg.Has(b, k) ensures hg.Has(Bag(s), k) {
      SameKeys(hg, Bag(s), b, k);
    }
  }

  lemma UnmatchedDiffers<P(!new), V>(
    hg: Hashing<P>, s: seq<Entry<Key<P>, V>>, b: multiset<Entry<Key<P>, V>>, valueEq: (V, V) -> bool, nothing: V)
    requires hg.Lawful() && hg.Keyed(Bag(s)) && hg.Keyed(b) && !Matched(hg, s, |s|, b, valueEq, nothing)
    ensures !SameMaps(hg.AsMap(Bag(s)), hg.AsMap(b), valueEq, nothing)
  {
    var i: nat :| i < |s| && s[i].Used? &&
      !(hg.Has(b, s[i].key) && ValuesMatch(valueEq, nothing, s[i].value, hg.Holder(b, s[i].key).value));
    KeyOf(hg, s, i);
  }

  /** Look one element up in the other table and compare the values. */
  method MatchOne<P(==, !new), V(==)>(b: HashTable<P, V>, e: Entry<Key<P>, V>, valueEq: (V, V) -> bool) returns (r: bool)
    requires b.Valid() && e.Used?
    ensures r <==> b.hg.Has(b.Contents(), e.key)
                   && ValuesMatch(valueEq, b.nothing, e.value, b.hg.Holder(b.Contents(), e.key).value)
  {
    var found := b.Find(e.key);
    return found.Some? && ValuesMatch(valueEq, b.nothing, e.value, found.value);
  }

  /** The loop of `aws_hash_table_eq` over the slots of the first table. */
  method AllMatched<P(==, !new), V(==)>(slots: array<Entry<Key<P>, V>>, b: HashTable<P, V>, valueEq: (V, V) -> bool) returns (r: bool)
    requires b.Valid()
    ensures r <==> Matched(b.hg, slots[..], slots.Length, b.Contents(), valueEq, b.nothing)
  {
    var i := 0;
    while i < slots.Length
      invariant 0 <= i <= slots.Length
      invariant Matched(b.hg, slots[..], i, b.Contents(), valueEq, b.nothing)
    {
      if slots[i].Used? {
        var ok := MatchOne(b, slots[i], valueEq);
        if !ok {
          return false;
        }
      }
      i := i + 1;
    }
    return true;
  }

  /** `aws_hash_table_eq`: equal entry counts, then every entry of `a` looked up in `b`. */
  method TablesEqual<P(==, !new), V(==)>(a: HashTable<P, V>, b: HashTable<P, V>, valueEq: (V, V) -> bool) returns (r: bool)
    requires a.Valid() && b.Valid() && a.hg == b.hg && a.nothing == b.nothing
    ensures r <==> SameMaps(a.Map(), b.Map(), valueEq, a.nothing)
  {
    if a.entryCount != b.entryCount {
      CountsDiffer(a.hg, a.Contents(), b.Contents(), valueEq, a.nothing);
      return false;
    }
    r := AllMatched(a.slots, b, valueEq);
    if r {
      MatchedIsSame(a.hg, a.slots[..], b.Contents(), valueEq, a.nothing);
    } else {
      UnmatchedDiffers(a.hg, a.slots[..], b.Contents(), valueEq, a.nothing);
    }
  }

  lemma OwnKey<P(!new), V>(hg: Hashing<P>, b: multiset<Entry<Key<P>, V>>, e: Entry<Key<P>, V>)
    requires hg.Lawful() && e in b && e.Used?
    ensures e.key in hg.AsMap(b)
  {
    hg.SameIsEquivalence(e.key, e.key, e.key);
  }

  lemma KeyOf<P(!new), V>(hg: Hashing<P>, s: seq<Entry<Key<P>, V>>, i: nat)
    requires hg.Lawful() && hg.Keyed(Bag(s)) && i < |s| && s[i].Used?
    ensures hg.Has(Bag(s), s[i].key) && hg.AsMap(Bag(s))[s[i].key] == s[i].value
  {
    InBag(s, i);
    hg.SameIsEquivalence(s[i].key, s[i].key, s[i].key);
    hg.HolderUnique(Bag(s), s[i].key, s[i]);
  }

  /** Tables of different size cannot have the same keys. */
  lemma CountsDiffer<P(!new), V>(
    hg: Hashing<P>, a: multiset<Entry<Key<P>, V>>, b: multiset<Entry<Key<P>, V>>, valueEq: (V, V) -> bool, nothing: V)
    requires hg.Lawful() && hg.Keyed(a) && hg.Keyed(b) && |a| != |b|
    ensures !SameMaps(hg.AsMap(a), hg.AsMap(b), valueEq, nothing)
  {
    if SameMaps(hg.AsMap(a), hg.AsMap(b), valueEq, nothing) {
      if |a| > |b| {
        var e := NotInto(hg, a, b);
        OwnKey(hg, a, e);
      } else {
        var e := NotInto(hg, b, a);
        OwnKey(hg, b, e);
      }
    }
  }
}
