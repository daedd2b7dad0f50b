/**
 * The linked hash table and the caches on it: a hash table whose elements are nodes of a
 * list, mutated together. The list is what the cache stands for (CacheModel).
 */
module Caches {
  import opened Basics
  import opened RobinHood
  import opened HashKeys
  import opened HashTables
  import opened CacheModel

  /** The value of a hash element: a pointer to a list node, null in a new element. */
  datatype Link<P, V> = NoNode | At(node: Node<P, V>)

  /** `order[i]` is the table entry of list node `i`; their keys are equal, maybe not identical. */
  ghost predicate Paired<P(!new), V>(hg: Hashing<P>, order: seq<Entry<Key<P>, Link<P, V>>>, list: seq<Node<P, V>>)
  {
    && |order| == |list|
    && forall i: nat {:trigger order[i]} {:trigger list[i]} | i < |list| ::
         order[i].Used? && order[i].value == At(list[i]) && hg.Same(order[i].key, list[i].key)
  }

  /** The key is in the table exactly when it is in the list, and at matching places. */
  lemma PositionOf<P(!new), V>(
    hg: Hashing<P>, order: seq<Entry<Key<P>, Link<P, V>>>, list: seq<Node<P, V>>,
    b: multiset<Entry<Key<P>, Link<P, V>>>, key: Key<P>)
    requires hg.Lawful() && hg.Keyed(b) && multiset(order) == b && Paired(hg, order, list)
    ensures var i := Position(hg, list, key);
            if i < |list| then hg.Has(b, key) && hg.Holder(b, key) == order[i] else !hg.Has(b, key)
  {
    var i := Position(hg, list, key);
    if i < |list| {
      hg.SameIsEquivalence(order[i].key, list[i].key, key);
      hg.SameIsEquivalence(key, list[i].key, order[i].key);
      assert order[i] in b;
      hg.HolderUnique(b, key, order[i]);
    } else if hg.Has(b, key) {
      var e := hg.Holder(b, key);
      assert e in order;
      var j: nat :| j < |order| && order[j] == e;
      hg.SameIsEquivalence(key, e.key, list[j].key);
    }
  }

  /** A node occurs once in the list: its key finds it. */
  lemma NodeIsThere<P(!new), V>(
    hg: Hashing<P>, order: seq<Entry<Key<P>, Link<P, V>>>, list: seq<Node<P, V>>, i: nat, j: nat)
    requires hg.Lawful() && hg.Keyed(multiset(order)) && Paired(hg, order, list)
    requires i < |list| && j < |list| && list[i] == list[j]
    ensures i == j
  {
    var k := list[i].key;
    hg.SameIsEquivalence(order[i].key, k, order[j].key);
    hg.SameIsEquivalence(order[j].key, k, k);
    assert order[i] in multiset(order) && order[j] in multiset(order);
    if i < j {
      TwoCopies(order, i, j);
    } else if j < i {
      TwoCopies(order, j, i);
    }
  }

  lemma PairedDrop<P(!new), V>(hg: Hashing<P>, order: seq<Entry<Key<P>, Link<P, V>>>, list: seq<Node<P, V>>, i: nat)
    requires Paired(hg, order, list) && i < |list|
    ensures Paired(hg, Drop(order, i), Drop(list, i))
  {
    var o, l := Drop(order, i), Drop(list, i);
    forall k: nat | k < |l| ensures o[k].Used? && o[k].value == At(l[k]) && hg.Same(o[k].key, l[k].key) {
      var j := if k < i then k else k + 1;
      assert o[k] == order[j] && l[k] == list[j];
    }
  }

  lemma PairedPush<P(!new), V>(
    hg: Hashing<P>, order: seq<Entry<Key<P>, Link<P, V>>>, list: seq<Node<P, V>>, e: Entry<Key<P>, Link<P, V>>, n: Node<P, V>)
    requires Paired(hg, order, list) && e.Used? && e.value == At(n) && hg.Same(e.key, n.key)
    ensures Paired(hg, order + [e], list + [n])
  {
  }

  class LinkedHashTable<P(==, !new), V(==)> {
    const table: HashTable<P, Link<P, V>>
    var list: seq<Node<P, V>>
    ghost var order: seq<Entry<Key<P>, Link<P, V>>>

    ghost predicate Valid()
      reads this, table, table.slots
    {
      && table.Valid() && table.nothing == NoNode
      && multiset(order) == table.Contents()
      && Paired(table.hg, order, list)
    }

    constructor (table: HashTable<P, Link<P, V>>)
      requires table.Valid() && table.nothing == NoNode && table.Contents() == multiset{}
      ensures Valid() && this.table == table && list == []
    {
      this.table := table;
      list, order := [], [];
    }

    /** `aws_linked_hash_table_get_element_count` is the length of the list. */
    lemma Counted()
      requires Valid()
      ensures table.entryCount == |list|
    {
      assert |multiset(order)| == |order|;
    }

    /** The hash table has no room for this key and can make none. */
    ghost predicate Refuses(key: Key<P>)
      reads this, table, table.slots
    {
      table.Unable(table.slots[..], key)
    }

    /** `aws_linked_list_remove` on the list node of an element. */
    method Unlink(node: Node<P, V>, ghost i: nat)
      requires i < |list| && list[i] == node && forall j: nat | j < |list| && list[j] == node :: j == i
      modifies this`list
      ensures list == Drop(old(list), i)
    {
      var k := 0;
      while list[k] != node
        invariant k <= i
        decreases i - k
      {
        k := k + 1;
      }
      list := Drop(list, k);
    }

    /** `aws_linked_hash_table_find`. */
    method Find(key: Key<P>) returns (r: Option<V>)
      requires Valid()
      ensures var i := Position(table.hg, list, key);
              r == if i < |list| then Some(list[i].value) else None
    {
      PositionOf(table.hg, order, list, table.Contents(), key);
      var found := table.Find(key);
      return if found.Some? then Some(found.value.node.value) else None;
    }

    /** `aws_linked_hash_table_move_node_to_end_of_list`. */
    method MoveToEnd(i: nat)
      requires Valid() && i < |list|
      modifies this
      ensures Valid() && list == Drop(old(list), i) + [old(list[i])]
    {
      PairedDrop(table.hg, order, list, i);
      PairedPush(table.hg, Drop(order, i), Drop(list, i), order[i], list[i]);
      assert order[i] in multiset(order);
      list, order := Drop(list, i) + [list[i]], Drop(order, i) + [order[i]];
    }

    /** `aws_linked_hash_table_find_and_move_to_back`. */
    method FindAndMoveToBack(key: Key<P>) returns (r: Option<V>)
      requires Valid()
      modifies this
      ensures Valid()
      ensures var i := Position(table.hg, old(list), key);
              && r == (if i < old(|list|) then Some(old(list)[i].value) else None)
              && list == FindStep(table.hg, Lru, old(list), key)
    {
      r := Find(key);
      if r.Some? {
        MoveToEnd(Position(table.hg, list, key));
      }
    }

    /** The list is linked to exactly the entries of this bag. */
    ghost predicate LinkedTo(b: multiset<Entry<Key<P>, Link<P, V>>>)
      reads this
    {
      table.hg.Lawful() && table.hg.Keyed(b) && multiset(order) == b && Paired(table.hg, order, list)
    }

    /** Drop the list node of the element that holds `key`; its entry is gone from the table. */
    method Unhook(node: Node<P, V>, key: Key<P>, ghost b: multiset<Entry<Key<P>, Link<P, V>>>)
      requires LinkedTo(b) && table.hg.Has(b, key) && table.hg.Holder(b, key).value == At(node)
      modifies this
      ensures list == Without(table.hg, old(list), key)
      ensures LinkedTo(b - multiset{table.hg.Holder(b, key)})
    {
      PositionOf(table.hg, order, list, b, key);
      ghost var i := Position(table.hg, list, key);
      forall j: nat | j < |list| && list[j] == node ensures j == i {
        NodeIsThere(table.hg, order, list, j, i);
      }
      PairedDrop(table.hg, order, list, i);
      table.hg.DropKeyed(b, table.hg.Holder(b, key));
      Unlink(node, i);
      order := Drop(order, i);
    }

    /** `aws_linked_hash_table_remove`; the destroy callback unlinks the node. */
    method Remove(key: Key<P>)
      requires Valid()
      modifies this, table`entryCount, table.slots
      ensures Valid() && list == Without(table.hg, old(list), key)
    {
      ghost var b := table.Contents();
      HolderReady(b, key);
      var e := table.TakeOut(key);
      if e.Some? {
        UnhookOld(key, e.value, b);
      }
    }

    lemma HolderReady(b: multiset<Entry<Key<P>, Link<P, V>>>, key: Key<P>)
      requires LinkedTo(b)
      ensures if table.hg.Has(b, key) then table.hg.Holder(b, key) in b && Ready(key, table.hg.Holder(b, key), b)
              else Without(table.hg, list, key) == list
    {
      PositionOf(table.hg, order, list, b, key);
    }

    /** The element for `key` is in the table at `slot`, and all others are linked. */
    ghost predicate Dangling(key: Key<P>, slot: nat)
      reads this, table, table.slots
    {
      && table.Valid() && table.nothing == NoNode
      && slot < table.slots.Length && table.slots[slot].Used?
      && table.hg.Same(key, table.slots[slot].key)
      && multiset(order) == table.Contents() - multiset{table.slots[slot]}
      && Paired(table.hg, order, list)
    }

    /** Unlink the node of an existing element; a new element has none. */
    method UnhookOld(key: Key<P>, e: Entry<Key<P>, Link<P, V>>, ghost b: multiset<Entry<Key<P>, Link<P, V>>>)
      requires LinkedTo(b) && Ready(key, e, b)
      modifies this
      ensures list == Without(table.hg, old(list), key)
      ensures LinkedTo(b - multiset{e})
    {
      if e.value != NoNode {
        table.hg.HolderUnique(b, key, e);
        Unhook(e.value.node, key, b);
      } else {
        PositionOf(table.hg, order, list, b, key);
        assert b - multiset{e} == b;
      }
    }

    /** Find or create the element for a put; an old one has a node and a new one has none. */
    method Obtain(key: Key<P>) returns (slot: Option<nat>)
      requires Valid()
      modifies table, table.slots
      ensures table.Valid() && (table.slots == old(table.slots) || fresh(table.slots)) && Grown(old(table.slots.Length), table.slots.Length)
      ensures slot.None? <==> old(Refuses(key))
      ensures slot.None? ==> table.Contents() == old(table.Contents())
      ensures slot.Some? ==>
        && slot.value < table.slots.Length && table.slots[slot.value].Used?
        && Ready(key, table.slots[slot.value], old(table.Contents()))
        && old(table.Contents()) - multiset{table.slots[slot.value]} == table.Contents() - multiset{table.slots[slot.value]}
    {
      ghost var b := table.Contents();
      var r := table.Create(key);
      if r.Overflow? {
        return None;
      }
      LinkOf(b, table.slots[..], r.slot, r.wasCreated, key);
      return Some(r.slot);
    }

    ghost predicate Ready(key: Key<P>, e: Entry<Key<P>, Link<P, V>>, b: multiset<Entry<Key<P>, Link<P, V>>>)
    {
      && e.Used? && table.hg.Same(key, e.key)
      && if e in b then e.value != NoNode else e.value == NoNode && !table.hg.Has(b, key)
    }

    /** The first half of a put: create the element, or unlink the node of the one that exists. */
    method Detach(key: Key<P>) returns (slot: Option<nat>)
      requires Valid()
      modifies this, table, table.slots
      ensures (table.slots == old(table.slots) || fresh(table.slots)) && Grown(old(table.slots.Length), table.slots.Length)
      ensures slot.None? <==> old(Refuses(key))
      ensures slot.None? ==> Valid() && list == old(list)
      ensures slot.Some? ==> Dangling(key, slot.value) && list == Without(table.hg, old(list), key)
    {
      ghost var b := table.Contents();
      slot := Obtain(key);
      if slot.Some? {
        DetachAt(key, slot.value, b);
      }
    }

    /** The element for `key` is in place: unlink its node, if it has one. */
    method DetachAt(key: Key<P>, slot: nat, ghost b: multiset<Entry<Key<P>, Link<P, V>>>)
      requires LinkedTo(b) && table.Valid() && table.nothing == NoNode
      requires slot < table.slots.Length && table.slots[slot].Used? && Ready(key, table.slots[slot], b)
      requires b - multiset{table.slots[slot]} == table.Contents() - multiset{table.slots[slot]}
      modifies this
      ensures Dangling(key, slot) && list == Without(table.hg, old(list), key)
    {
      UnhookOld(key, table.slots[slot], b);
    }

    /** Whether the element found or made for a put has a node yet. */
    lemma LinkOf(b: multiset<Entry<Key<P>, Link<P, V>>>, s: seq<Entry<Key<P>, Link<P, V>>>, slot: nat, isNew: bool, key: Key<P>)
      requires LinkedTo(b) && slot < |s| && s[slot].Used? && table.hg.Same(key, s[slot].key)
      requires isNew <==> !table.hg.Has(b, key)
      requires if isNew then s[slot].value == NoNode && Bag(s) == b + multiset{s[slot]} else Bag(s) == b
      ensures Ready(key, s[slot], b)
      ensures b - multiset{s[slot]} == Bag(s) - multiset{s[slot]}
    {
      InBag(s, slot);
      if !isNew {
        assert s[slot] in order;
      } else {
        assert s[slot] !in b;
      }
    }

    /** The second half: point the element at a new node and append that node. */
    method Attach(key: Key<P>, slot: nat, value: V)
      requires Dangling(key, slot)
      modifies this, table.slots
      ensures Valid() && list == old(list) + [Node(key, value)] && table.slots == old(table.slots)
    {
      var n := Node(key, value);
      var e := table.slots[slot];
      ghost var e' := Used(e.hash, e.key, At(n));
      table.hg.SameIsEquivalence(key, e.key, key);
      PairedPush(table.hg, order, list, e', n);
      table.Overwrite(slot, e.key, At(n));
      list, order := list + [n], order + [e'];
    }

    /** `aws_linked_hash_table_put`: a new node at the back, in place of the old one if any. */
    method Put(key: Key<P>, value: V) returns (ok: bool)
      requires Valid()
      modifies this, table, table.slots
      ensures Valid() && (table.slots == old(table.slots) || fresh(table.slots)) && Grown(old(table.slots.Length), table.slots.Length)
      ensures ok <==> !old(Refuses(key))
      ensures list == if ok then Without(table.hg, old(list), key) + [Node(key, value)] else old(list)
    {
      var slot := Detach(key);
      ghost var size := table.slots.Length;
      ok := slot.Some?;
      if ok {
        Attach(key, slot.value, value);
        assert table.slots.Length == size;
      }
    }

    /** `aws_linked_hash_table_clear`: the destroy callback unlinks every node in turn. */
    method Clear()
      requires Valid()
      modifies this, table`entryCount, table.slots
      ensures Valid() && list == []
    {
      UnlinkAll();
      table.Clear();
    }

    /** The destroy callback on one element. */
    method Destroy(e: Entry<Key<P>, Link<P, V>>, ghost b: multiset<Entry<Key<P>, Link<P, V>>>)
      requires LinkedTo(b) && e in b
      modifies this
      ensures LinkedTo(b - multiset{e})
    {
      assert e in order;
      table.hg.SameIsEquivalence(e.key, e.key, e.key);
      table.hg.HolderUnique(b, e.key, e);
      Unhook(e.value.node, e.key, b);
    }

    method DestroyAt(e: Entry<Key<P>, Link<P, V>>, ghost s: seq<Entry<Key<P>, Link<P, V>>>, ghost i: nat)
      requires i < |s| && s[i] == e && LinkedTo(Bag(s[i..]))
      modifies this
      ensures LinkedTo(Bag(s[i + 1..]))
    {
      SuffixBag(s, i);
      if e.Used? {
        Destroy(e, Bag(s[i..]));
      }
    }

    /** The loop of `aws_hash_table_clear` over the elements, with the unlinking callback. */
    method UnlinkAll()
      requires Valid()
      modifies this
      ensures list == [] && order == []
    {
      ghost var s := table.slots[..];
      assert s[0..] == s;
      for i := 0 to table.slots.Length
        invariant LinkedTo(Bag(s[i..]))
      {
        DestroyAt(table.slots[i], s, i);
      }
      NothingLeft(s);
    }

    lemma NothingLeft(s: seq<Entry<Key<P>, Link<P, V>>>)
      requires LinkedTo(Bag(s[|s|..]))
      ensures list == [] && order == []
    {
      assert s[|s|..] == [];
      assert |multiset(order)| == |order|;
    }

    static lemma SuffixBag(s: seq<Entry<Key<P>, Link<P, V>>>, i: nat)
      requires i < |s|
      ensures s[i].Used? ==> s[i] in Bag(s[i..]) && Bag(s[i + 1..]) == Bag(s[i..]) - multiset{s[i]}
      ensures s[i].Free? ==> Bag(s[i + 1..]) == Bag(s[i..])
    {
      assert s[i..] == [s[i]] + s[i + 1..];
    }
  }

  /**
   * A bounded cache over a linked hash table: LRU, FIFO or LIFO. A put that the hash table
   * refuses because it cannot grow leaves the cache as it was.
   */
  class Cache<P(==, !new), V(==)> {
    const table: LinkedHashTable<P, V>
    const maxItems: nat
    const policy: Policy

    ghost predicate Valid()
      reads this, table, table.table, table.table.slots
    {
      table.Valid() && maxItems >= 1 && |table.list| <= maxItems
    }

    ghost function Items(): seq<Node<P, V>>
      reads this, table
    {
      table.list
    }

    constructor (table: LinkedHashTable<P, V>, maxItems: nat, policy: Policy)
      requires table.Valid() && table.list == [] && maxItems >= 1
      ensures Valid() && Items() == [] && this.table == table && this.maxItems == maxItems && this.policy == policy
    {
      this.table, this.maxItems, this.policy := table, maxItems, policy;
    }

    /** The element count is the hash table's; it is the length of the list. */
    lemma CountIsLength()
      requires Valid()
      ensures table.table.entryCount == |Items()|
    {
      table.Counted();
    }

    /** `s_lru_cache_put`, `s_fifo_cache_put` and `s_lifo_cache_put`. */
    method Put(key: Key<P>, value: V) returns (ok: bool)
      requires Valid()
      modifies table, table.table, table.table.slots
      ensures Valid() && (table.table.slots == old(table.table.slots) || fresh(table.table.slots))
      ensures Grown(old(table.table.slots.Length), table.table.slots.Length)
      ensures ok <==> !old(table.Refuses(key))
      ensures Items() == if ok then PutStep(table.table.hg, policy, maxItems, old(Items()), key, value) else old(Items())
    {
      ok := table.Put(key, value);
      if !ok {
        return;
      }
      Trim();
    }

    /** Manage the space if an element was added to a full cache. */
    method Trim()
      requires table.Valid() && maxItems >= 1 && |table.list| <= maxItems + 1
      modifies table, table.table`entryCount, table.table.slots
      ensures table.Valid()
      ensures table.list == if old(|table.list|) > maxItems then Evict(policy, old(table.list)) else old(table.list)
    {
      table.Counted();
      if table.table.entryCount > maxItems {
        EvictIsDrop(policy, table.list);
        RemoveAt(if policy == Lifo then |table.list| - 2 else 0);
      }
    }

    /** Evict one node by its key, as all three caches do. */
    method RemoveAt(i: nat)
      requires table.Valid() && i < |table.list|
      modifies table, table.table`entryCount, table.table.slots
      ensures table.Valid() && table.list == Drop(old(table.list), i)
    {
      OwnPosition(table.table.hg, table.order, table.list, i);
      table.Remove(table.list[i].key);
    }

    /** `aws_cache_find`: only the LRU cache reorders. */
    method Find(key: Key<P>) returns (r: Option<V>)
      requires Valid()
      modifies table
      ensures Valid() && Items() == FindStep(table.table.hg, policy, old(Items()), key)
      ensures var i := Position(table.table.hg, old(Items()), key);
              r == if i < old(|Items()|) then Some(old(Items())[i].value) else None
    {
      if policy == Lru {
        r := table.FindAndMoveToBack(key);
      } else {
        r := table.Find(key);
      }
    }

    /** `aws_cache_remove`. */
    method Remove(key: Key<P>)
      requires Valid()
      modifies table, table.table`entryCount, table.table.slots
      ensures Valid() && Items() == Without(table.table.hg, old(Items()), key)
    {
      table.Remove(key);
    }

    /** `aws_cache_clear`. */
    method Clear()
      requires Valid()
      modifies table, table.table`entryCount, table.table.slots
      ensures Valid() && Items() == []
    {
      table.Clear();
    }

    /** `aws_lru_cache_use_lru_element`: the front value, moved to the back. */
    method UseLru() returns (r: Option<V>)
      requires Valid() && policy == Lru
      modifies table
      ensures Valid()
      ensures if old(Items()) == [] then r == None && Items() == []
              else r == Some(old(Items())[0].value) && Items() == old(Items())[1..] + [old(Items())[0]]
    {
      if table.list == [] {
        return None;
      }
      r := Some(table.list[0].value);
      DropFirst(table.list);
      table.MoveToEnd(0);
    }

    /** `aws_lru_cache_get_mru_element`: the back value, left where it is. */
    method GetMru() returns (r: Option<V>)
      requires Valid()
      ensures r == if Items() == [] then None else Some(Items()[|Items()| - 1].value)
    {
      r := if table.list == [] then None else Some(table.list[|table.list| - 1].value);
    }

    /** One operation of the model on the cache; answers false when a put is refused. */
    method Perform(op: Op<P, V>) returns (ok: bool)
      requires Valid()
      modifies table, table.table, table.table.slots
      ensures Valid() && (table.table.slots == old(table.table.slots) || fresh(table.table.slots))
      ensures Grown(old(table.table.slots.Length), table.table.slots.Length)
      ensures Items() == if ok then Step(table.table.hg, policy, maxItems, old(Items()), op) else old(Items())
      ensures ok <==> !(op.Put? && old(table.Refuses(op.key)))
    {
      if op.Put? {
        ok := Put(op.key, op.value);
      } else {
        ok := true;
        PerformOther(op);
      }
    }

    /** An operation that is always accepted. */
    method PerformOther(op: Op<P, V>)
      requires Valid() && !op.Put?
      modifies table, table.table`entryCount, table.table.slots
      ensures Valid() && Items() == Step(table.table.hg, policy, maxItems, old(Items()), op)
    {
      match op
      case Find(k) => var _ := Find(k);
      case Remove(k) => Remove(k);
      case Clear => Clear();
      case UseLru =>
        if policy == Lru {
          var _ := UseLru();
        }
    }

    /**
     * The cache is as the model is after the accepted ones of the operations. Only puts have been
     * refused, and only once the table was as large as it can be and the bound above its load limit.
     */
    ghost predicate After(ops: seq<Op<P, V>>, accepted: seq<bool>)
      requires maxItems >= 1
      reads this, table, table.table
    {
      OnlyPuts(ops, accepted, Outgrown()) && Items() == Run(table.table.hg, policy, maxItems, Kept(ops, accepted))
    }

    /** The table cannot grow, and its load limit is within the bound of the cache. */
    ghost predicate Outgrown()
      reads this, table, table.table
    {
      TooSmall(table.table.slots.Length, maxItems)
    }

    /** A put that is refused finds the table outgrown. */
    lemma RefusedOutgrown(key: Key<P>)
      requires Valid() && table.Refuses(key)
      ensures Outgrown()
    {
      CountIsLength();
    }

    /** One operation of a run. */
    method RunOne(ops: seq<Op<P, V>>, accepted: seq<bool>, i: nat) returns (ok: bool)
      requires Valid() && i < |ops| && After(ops[..i], accepted)
      modifies table, table.table, table.table.slots
      ensures Valid() && (table.table.slots == old(table.table.slots) || fresh(table.table.slots))
      ensures Grown(old(table.table.slots.Length), table.table.slots.Length)
      ensures After(ops[..i + 1], accepted + [ok])
    {
      if ops[i].Put? && table.Refuses(ops[i].key) {
        RefusedOutgrown(ops[i].key);
      }
      ok := Perform(ops[i]);
      RunNext(table.table.hg, policy, maxItems, ops, accepted, i, ok);
      OnlyPutsNext(ops, accepted, i, ok, old(Outgrown()), Outgrown());
    }

    /** Any run from the empty cache ends in the list of the model for the same run, refused puts left out. */
    method RunAll(ops: seq<Op<P, V>>) returns (accepted: seq<bool>)
      requires Valid() && Items() == []
      modifies table, table.table, table.table.slots
      ensures Valid() && After(ops, accepted)
      ensures maxItems < MaxLoad(old(table.table.slots.Length)) ==> forall i | 0 <= i < |ops| :: accepted[i]
    {
      accepted := [];
      for i := 0 to |ops|
        invariant Valid() && (table.table.slots == old(table.table.slots) || fresh(table.table.slots))
        invariant Grown(old(table.table.slots.Length), table.table.slots.Length)
        invariant After(ops[..i], accepted)
      {
        var ok := RunOne(ops, accepted, i);
        accepted := accepted + [ok];
      }
      assert ops[..|ops|] == ops;
    }
  }

  /** A table of this size cannot grow and is full at some number of elements within the bound. */
  ghost predicate TooSmall(size: nat, maxItems: nat)
  {
    size >= 2 && !CanDouble(size) && MaxLoad(size) <= maxItems
  }

  /** Only puts are refused, and none unless there is a cause. */
  ghost predicate OnlyPuts<P, V>(ops: seq<Op<P, V>>, accepted: seq<bool>, cause: bool)
  {
    |accepted| == |ops| && forall i | 0 <= i < |ops| && !accepted[i] :: ops[i].Put? && cause
  }

  lemma OnlyPutsNext<P, V>(ops: seq<Op<P, V>>, accepted: seq<bool>, i: nat, ok: bool, cause: bool, cause': bool)
    requires i < |ops| && OnlyPuts(ops[..i], accepted, cause) && (ok || (ops[i].Put? && cause')) && (cause ==> cause')
    ensures OnlyPuts(ops[..i + 1], accepted + [ok], cause')
  {
  }

  /** The operations that were accepted, in order. */
  ghost function Kept<T>(ops: seq<T>, accepted: seq<bool>): seq<T>
    requires |accepted| == |ops|
  {
    if ops == [] then []
    else
      var n := |ops| - 1;
      Kept(ops[..n], accepted[..n]) + if accepted[n] then [ops[n]] else []
  }

  lemma KeptNext<T>(ops: seq<T>, accepted: seq<bool>, i: nat, ok: bool)
    requires i < |ops| && |accepted| == i
    ensures Kept(ops[..i + 1], accepted + [ok]) == Kept(ops[..i], accepted) + if ok then [ops[i]] else []
  {
    assert ops[..i + 1][..i] == ops[..i] && (accepted + [ok])[..i] == accepted;
  }

  lemma RunNext<P(!new), V>(
    hg: Hashing<P>, policy: Policy, max: nat, ops: seq<Op<P, V>>, accepted: seq<bool>, i: nat, ok: bool)
    requires 1 <= max && i < |ops| && |accepted| == i
    ensures var list := Run(hg, policy, max, Kept(ops[..i], accepted));
            Run(hg, policy, max, Kept(ops[..i + 1], accepted + [ok])) == if ok then Step(hg, policy, max, list, ops[i]) else list
  {
    KeptNext(ops, accepted, i, ok);
    var k := Kept(ops[..i], accepted);
    if ok {
      assert (k + [ops[i]])[..|k|] == k;
    } else {
      assert k + [] == k;
    }
  }

  /** Each node is found under its own key. */
  lemma OwnPosition<P(!new), V>(hg: Hashing<P>, order: seq<Entry<Key<P>, Link<P, V>>>, list: seq<Node<P, V>>, i: nat)
    requires hg.Lawful() && hg.Keyed(multiset(order)) && Paired(hg, order, list) && i < |list|
    ensures Position(hg, list, list[i].key) == i
  {
    var k := list[i].key;
    hg.SameIsEquivalence(k, k, k);
    var j := Position(hg, list, k);
    hg.SameIsEquivalence(order[i].key, k, list[j].key);
    hg.SameIsEquivalence(order[j].key, list[j].key, order[i].key);
    hg.SameIsEquivalence(list[j].key, order[j].key, k);
    hg.SameIsEquivalence(order[i].key, list[j].key, order[j].key);
    assert order[i] in multiset(order) && order[j] in multiset(order);
    if j < i {
      TwoCopies(order, j, i);
    }
  }
}
