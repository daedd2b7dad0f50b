/**
 * The list that a cache stands for: what each operation does to it under the three
 * eviction policies, and what every run keeps.
 */
module CacheModel {
  import opened Basics
  import opened HashKeys

  datatype Node<P, V> = Node(key: Key<P>, value: V)

  datatype Policy = Lru | Fifo | Lifo

  datatype Op<P, V> =
    | Put(key: Key<P>, value: V)
    | Find(key: Key<P>)
    | Remove(key: Key<P>)
    | Clear
    | UseLru

  lemma DropFirst<T>(s: seq<T>)
    requires s != []
    ensures Drop(s, 0) == s[1..]
  {
  }

  /** Where a key sits in the list; the length if it is not there. */
  function Position<P(==, !new), V>(hg: Hashing<P>, list: seq<Node<P, V>>, key: Key<P>): (i: nat)
    ensures i <= |list|
    ensures i < |list| ==> hg.Same(key, list[i].key)
    ensures forall j | 0 <= j < i :: !hg.Same(key, list[j].key)
  {
    if list == [] then 0
    else if hg.Same(key, list[0].key) then 0
    else 1 + Position(hg, list[1..], key)
  }

  function Without<P(==, !new), V>(hg: Hashing<P>, list: seq<Node<P, V>>, key: Key<P>): (r: seq<Node<P, V>>)
    ensures |r| <= |list|
  {
    var i := Position(hg, list, key);
    if i < |list| then Drop(list, i) else list
  }

  /** Cut an over-full list: the front goes, or under LIFO the node before the back. */
  function Evict<T>(policy: Policy, list: seq<T>): (r: seq<T>)
    requires |list| >= 2
    ensures |r| == |list| - 1 && r[|r| - 1] == list[|list| - 1]
  {
    if policy == Lifo then Drop(list, |list| - 2) else list[1..]
  }

  lemma EvictIsDrop<T>(policy: Policy, list: seq<T>)
    requires |list| >= 2
    ensures Evict(policy, list) == Drop(list, if policy == Lifo then |list| - 2 else 0)
  {
    DropFirst(list);
  }

  function PutStep<P(==, !new), V>(hg: Hashing<P>, policy: Policy, max: nat, list: seq<Node<P, V>>, key: Key<P>, value: V): (r: seq<Node<P, V>>)
    requires 1 <= max && |list| <= max
    ensures |r| <= max && r != [] && r[|r| - 1] == Node(key, value)
  {
    var l := Without(hg, list, key) + [Node(key, value)];
    if |l| > max then Evict(policy, l) else l
  }

  /** A find moves the node to the back under LRU only. */
  function FindStep<P(==, !new), V>(hg: Hashing<P>, policy: Policy, list: seq<Node<P, V>>, key: Key<P>): (r: seq<Node<P, V>>)
    ensures |r| == |list|
  {
    var i := Position(hg, list, key);
    if policy == Lru && i < |list| then Drop(list, i) + [list[i]] else list
  }

  function Step<P(==, !new), V>(hg: Hashing<P>, policy: Policy, max: nat, list: seq<Node<P, V>>, op: Op<P, V>): (r: seq<Node<P, V>>)
    requires 1 <= max && |list| <= max
    ensures |r| <= max
  {
    match op
    case Put(k, v) => PutStep(hg, policy, max, list, k, v)
    case Find(k) => FindStep(hg, policy, list, k)
    case Remove(k) => Without(hg, list, k)
    case Clear => []
    case UseLru => if policy == Lru && list != [] then list[1..] + [list[0]] else list
  }

  /** The list after a whole run. */
  function Run<P(==, !new), V>(hg: Hashing<P>, policy: Policy, max: nat, ops: seq<Op<P, V>>): (r: seq<Node<P, V>>)
    requires 1 <= max
    ensures |r| <= max
  {
    if ops == [] then [] else Step(hg, policy, max, Run(hg, policy, max, ops[..|ops| - 1]), ops[|ops| - 1])
  }

  /** No key occurs twice. */
  ghost predicate DistinctKeys<P(!new), V>(hg: Hashing<P>, list: seq<Node<P, V>>)
  {
    forall i, j | 0 <= i < j < |list| :: !hg.Same(list[i].key, list[j].key)
  }

  // --- what order the list is in -------------------------------------------------------

  /** The key that an operation refreshes in a given list, if any. */
  function Touched<P(==, !new), V>(hg: Hashing<P>, policy: Policy, list: seq<Node<P, V>>, op: Op<P, V>): (r: seq<Key<P>>)
  {
    match op
    case Put(k, _) => [k]
    case Find(k) => if policy == Lru && Position(hg, list, k) < |list| then [k] else []
    case UseLru => if policy == Lru && list != [] then [list[0].key] else []
    case _ => []
  }

  /** The keys refreshed by a run, in order. */
  function Touches<P(==, !new), V>(hg: Hashing<P>, policy: Policy, max: nat, ops: seq<Op<P, V>>): (r: seq<Key<P>>)
    requires 1 <= max
  {
    if ops == [] then []
    else
      var before := ops[..|ops| - 1];
      Touches(hg, policy, max, before) + Touched(hg, policy, Run(hg, policy, max, before), ops[|ops| - 1])
  }

  /** When a key was last refreshed: one more than the index in the log, 0 for never. */
  function LastTouch<P(==, !new)>(hg: Hashing<P>, log: seq<Key<P>>, key: Key<P>): (t: nat)
    ensures t <= |log|
  {
    if log == [] then 0
    else if hg.Same(key, log[|log| - 1]) then |log|
    else LastTouch(hg, log[..|log| - 1], key)
  }

  /** The list holds keys in the order in which they were last refreshed. */
  ghost predicate ByLastTouch<P(!new), V>(hg: Hashing<P>, log: seq<Key<P>>, list: seq<Node<P, V>>)
  {
    && (forall i | 0 <= i < |list| :: LastTouch(hg, log, list[i].key) > 0)
    && (forall i, j | 0 <= i < j < |list| :: LastTouch(hg, log, list[i].key) < LastTouch(hg, log, list[j].key))
  }

  lemma DropKeepsOrder<P(!new), V>(hg: Hashing<P>, log: seq<Key<P>>, list: seq<Node<P, V>>, i: nat)
    requires ByLastTouch(hg, log, list) && i < |list|
    ensures ByLastTouch(hg, log, Drop(list, i))
  {
    var r := Drop(list, i);
    forall a, b | 0 <= a < b < |r| ensures LastTouch(hg, log, r[a].key) < LastTouch(hg, log, r[b].key) {
      assert r[a] == list[if a < i then a else a + 1];
      assert r[b] == list[if b < i then b else b + 1];
    }
    forall a | 0 <= a < |r| ensures LastTouch(hg, log, r[a].key) > 0 {
      assert r[a] == list[if a < i then a else a + 1];
    }
  }

  lemma WithoutKeepsOrder<P(!new), V>(hg: Hashing<P>, log: seq<Key<P>>, list: seq<Node<P, V>>, key: Key<P>)
    requires ByLastTouch(hg, log, list)
    ensures ByLastTouch(hg, log, Without(hg, list, key))
  {
    var i := Position(hg, list, key);
    if i < |list| {
      DropKeepsOrder(hg, log, list, i);
    }
  }

  /** Keys in order of last refresh are distinct: a key has one last refresh. */
  lemma OrderedIsDistinct<P(!new), V>(hg: Hashing<P>, log: seq<Key<P>>, list: seq<Node<P, V>>)
    requires hg.Lawful() && ByLastTouch(hg, log, list)
    ensures DistinctKeys(hg, list)
  {
    forall i, j | 0 <= i < j < |list| ensures !hg.Same(list[i].key, list[j].key) {
      if hg.Same(list[i].key, list[j].key) {
        SameLastTouch(hg, log, list[i].key, list[j].key);
      }
    }
  }

  lemma {:induction false} SameLastTouch<P(!new)>(hg: Hashing<P>, log: seq<Key<P>>, a: Key<P>, b: Key<P>)
    requires hg.Lawful() && hg.Same(a, b)
    ensures LastTouch(hg, log, a) == LastTouch(hg, log, b)
  {
    if log != [] {
      var k := log[|log| - 1];
      hg.SameIsEquivalence(a, b, k);
      hg.SameIsEquivalence(b, a, k);
      SameLastTouch(hg, log[..|log| - 1], a, b);
    }
  }

  /** A fresh refresh of a key absent from the list puts it at the back. */
  lemma RefreshedGoesBack<P(!new), V>(hg: Hashing<P>, log: seq<Key<P>>, rest: seq<Node<P, V>>, n: Node<P, V>, key: Key<P>)
    requires hg.Lawful() && ByLastTouch(hg, log, rest) && hg.Same(n.key, key)
    requires forall i | 0 <= i < |rest| :: !hg.Same(rest[i].key, key)
    ensures ByLastTouch(hg, log + [key], rest + [n])
  {
    var log', r := log + [key], rest + [n];
    assert log'[..|log|] == log;
    forall i | 0 <= i < |rest| ensures LastTouch(hg, log', r[i].key) == LastTouch(hg, log, rest[i].key) {
    }
  }

  lemma WithoutLacks<P(!new), V>(hg: Hashing<P>, list: seq<Node<P, V>>, key: Key<P>)
    requires hg.Lawful() && DistinctKeys(hg, list)
    ensures var r := Without(hg, list, key); forall i | 0 <= i < |r| :: !hg.Same(r[i].key, key)
  {
    var p, r := Position(hg, list, key), Without(hg, list, key);
    forall i | 0 <= i < |r| ensures !hg.Same(r[i].key, key) {
      var j := if p < |list| && i >= p then i + 1 else i;
      assert r[i] == list[j];
      hg.SameIsEquivalence(list[j].key, key, list[j].key);
      if p < j && hg.Same(list[j].key, key) {
        hg.SameIsEquivalence(list[p].key, key, list[j].key);
        hg.SameIsEquivalence(key, list[p].key, key);
      }
    }
  }

  lemma EvictKeepsOrder<P(!new), V>(hg: Hashing<P>, log: seq<Key<P>>, policy: Policy, list: seq<Node<P, V>>)
    requires |list| >= 2 && ByLastTouch(hg, log, list)
    ensures ByLastTouch(hg, log, Evict(policy, list))
  {
    DropKeepsOrder(hg, log, list, if policy == Lifo then |list| - 2 else 0);
    assert Drop(list, 0) == list[1..];
  }

  lemma PutKeepsOrder<P(!new), V>(hg: Hashing<P>, policy: Policy, max: nat, log: seq<Key<P>>, list: seq<Node<P, V>>, k: Key<P>, v: V)
    requires hg.Lawful() && 1 <= max && |list| <= max && ByLastTouch(hg, log, list)
    ensures ByLastTouch(hg, log + [k], PutStep(hg, policy, max, list, k, v))
  {
    OrderedIsDistinct(hg, log, list);
    WithoutKeepsOrder(hg, log, list, k);
    WithoutLacks(hg, list, k);
    hg.SameIsEquivalence(k, k, k);
    var l := Without(hg, list, k) + [Node(k, v)];
    RefreshedGoesBack(hg, log, Without(hg, list, k), Node(k, v), k);
    if |l| > max {
      EvictKeepsOrder(hg, log + [k], policy, l);
    }
  }

  lemma FindKeepsOrder<P(!new), V>(hg: Hashing<P>, log: seq<Key<P>>, list: seq<Node<P, V>>, k: Key<P>)
    requires hg.Lawful() && ByLastTouch(hg, log, list) && Position(hg, list, k) < |list|
    ensures ByLastTouch(hg, log + [k], FindStep(hg, Lru, list, k))
  {
    var i := Position(hg, list, k);
    OrderedIsDistinct(hg, log, list);
    WithoutKeepsOrder(hg, log, list, k);
    WithoutLacks(hg, list, k);
    hg.SameIsEquivalence(k, list[i].key, k);
    RefreshedGoesBack(hg, log, Drop(list, i), list[i], k);
  }

  lemma UseKeepsOrder<P(!new), V>(hg: Hashing<P>, log: seq<Key<P>>, list: seq<Node<P, V>>)
    requires hg.Lawful() && ByLastTouch(hg, log, list) && list != []
    ensures ByLastTouch(hg, log + [list[0].key], list[1..] + [list[0]])
  {
    var k := list[0].key;
    OrderedIsDistinct(hg, log, list);
    DropKeepsOrder(hg, log, list, 0);
    DropFirst(list);
    hg.SameIsEquivalence(k, k, k);
    forall i | 0 <= i < |list[1..]| ensures !hg.Same(list[1..][i].key, k) {
      hg.SameIsEquivalence(list[1..][i].key, k, k);
    }
    RefreshedGoesBack(hg, log, list[1..], list[0], k);
  }

  lemma StepKeepsOrder<P(!new), V>(hg: Hashing<P>, policy: Policy, max: nat, log: seq<Key<P>>, list: seq<Node<P, V>>, op: Op<P, V>)
    requires hg.Lawful() && 1 <= max && |list| <= max && ByLastTouch(hg, log, list)
    ensures ByLastTouch(hg, log + Touched(hg, policy, list, op), Step(hg, policy, max, list, op))
  {
    assert log + [] == log;
    match op {
      case Put(k, v) =>
        PutKeepsOrder(hg, policy, max, log, list, k, v);
      case Find(k) =>
        if policy == Lru && Position(hg, list, k) < |list| {
          FindKeepsOrder(hg, log, list, k);
        }
      case Remove(k) =>
        WithoutKeepsOrder(hg, log, list, k);
      case Clear =>
      case UseLru =>
        if policy == Lru && list != [] {
          UseKeepsOrder(hg, log, list);
        }
    }
  }

  /**
   * After any run the list holds distinct keys in the order of their last refresh: under
   * LRU the front is the least recently used, under FIFO the least recently put, and the
   * back is always the newest.
   */
  lemma {:induction false} RunKeepsOrder<P(!new), V>(hg: Hashing<P>, policy: Policy, max: nat, ops: seq<Op<P, V>>)
    requires hg.Lawful() && 1 <= max
    ensures ByLastTouch(hg, Touches(hg, policy, max, ops), Run(hg, policy, max, ops))
    ensures DistinctKeys(hg, Run(hg, policy, max, ops))
  {
    if ops != [] {
      var n := |ops| - 1;
      RunKeepsOrder(hg, policy, max, ops[..n]);
      StepKeepsOrder(hg, policy, max, Touches(hg, policy, max, ops[..n]), Run(hg, policy, max, ops[..n]), ops[n]);
    }
    OrderedIsDistinct(hg, Touches(hg, policy, max, ops), Run(hg, policy, max, ops));
  }

  /** The keys put, in order. */
  function PutKeys<P, V>(ops: seq<Op<P, V>>): seq<Key<P>>
  {
    if ops == [] then []
    else
      var op := ops[|ops| - 1];
      PutKeys(ops[..|ops| - 1]) + if op.Put? then [op.key] else []
  }

  /** Under FIFO and LIFO a key is refreshed when it is put and at no other time. */
  lemma {:induction false} OnlyPutsCount<P(!new), V>(hg: Hashing<P>, policy: Policy, max: nat, ops: seq<Op<P, V>>)
    requires 1 <= max && policy != Lru
    ensures Touches(hg, policy, max, ops) == PutKeys(ops)
  {
    if ops != [] {
      OnlyPutsCount(hg, policy, max, ops[..|ops| - 1]);
    }
  }

  /** Under LRU finding a key that is there refreshes it, and brings it to the back. */
  lemma FindsCount<P(!new), V>(hg: Hashing<P>, max: nat, ops: seq<Op<P, V>>, key: Key<P>, i: nat)
    requires hg.Lawful() && 1 <= max && i < |Run(hg, Lru, max, ops)| && hg.Same(key, Run(hg, Lru, max, ops)[i].key)
    ensures var list := Run(hg, Lru, max, ops);
            && Touches(hg, Lru, max, ops + [Find(key)]) == Touches(hg, Lru, max, ops) + [key]
            && Run(hg, Lru, max, ops + [Find(key)]) == Drop(list, i) + [list[i]]
  {
    RunKeepsOrder(hg, Lru, max, ops);
    PositionIs(hg, Run(hg, Lru, max, ops), key, i);
    OneMore(hg, Lru, max, ops, Find(key));
  }

  lemma OneMore<P(!new), V>(hg: Hashing<P>, policy: Policy, max: nat, ops: seq<Op<P, V>>, op: Op<P, V>)
    requires 1 <= max
    ensures var list := Run(hg, policy, max, ops);
            && Touches(hg, policy, max, ops + [op]) == Touches(hg, policy, max, ops) + Touched(hg, policy, list, op)
            && Run(hg, policy, max, ops + [op]) == Step(hg, policy, max, list, op)
  {
    assert (ops + [op])[..|ops|] == ops;
  }

  lemma PositionIs<P(!new), V>(hg: Hashing<P>, list: seq<Node<P, V>>, key: Key<P>, i: nat)
    requires hg.Lawful() && DistinctKeys(hg, list) && i < |list| && hg.Same(key, list[i].key)
    ensures Position(hg, list, key) == i
  {
    var p := Position(hg, list, key);
    if p < i {
      hg.SameIsEquivalence(key, list[p].key, key);
      hg.SameIsEquivalence(list[p].key, key, list[i].key);
    }
  }

  /** The node that goes when a new key is put into a full list. */
  function Victim<T>(policy: Policy, list: seq<T>): (v: nat)
    requires list != []
    ensures v < |list|
  {
    if policy == Lifo then |list| - 1 else 0
  }

  lemma PutDropsVictim<P(!new), V>(hg: Hashing<P>, policy: Policy, max: nat, list: seq<Node<P, V>>, key: Key<P>, value: V)
    requires 1 <= max && Position(hg, list, key) == |list| == max
    ensures PutStep(hg, policy, max, list, key, value) == Drop(list, Victim(policy, list)) + [Node(key, value)]
  {
  }

  /**
   * What a put throws away, in terms of the history: among the nodes that were there, the
   * one refreshed longest ago, or under LIFO the one refreshed last.
   */
  lemma VictimByHistory<P(!new), V>(hg: Hashing<P>, policy: Policy, max: nat, ops: seq<Op<P, V>>, i: nat)
    requires hg.Lawful() && 1 <= max && i < |Run(hg, policy, max, ops)|
    ensures var list, log := Run(hg, policy, max, ops), Touches(hg, policy, max, ops);
            var v := Victim(policy, list);
            i != v ==>
              if policy == Lifo
              then LastTouch(hg, log, list[i].key) < LastTouch(hg, log, list[v].key)
              else LastTouch(hg, log, list[v].key) < LastTouch(hg, log, list[i].key)
  {
    RunKeepsOrder(hg, policy, max, ops);
  }

  /** The back of the list, which the most-recent query answers, was refreshed after every other key. */
  lemma NewestIsBack<P(!new), V>(hg: Hashing<P>, policy: Policy, max: nat, ops: seq<Op<P, V>>, i: nat)
    requires hg.Lawful() && 1 <= max && i + 1 < |Run(hg, policy, max, ops)|
    ensures var list, log := Run(hg, policy, max, ops), Touches(hg, policy, max, ops);
            LastTouch(hg, log, list[i].key) < LastTouch(hg, log, list[|list| - 1].key)
  {
    RunKeepsOrder(hg, policy, max, ops);
  }
}
