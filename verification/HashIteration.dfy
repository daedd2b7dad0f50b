/**
 * Iterating over a hash table while deleting from it, and comparing two tables.
 * The iterator walks a window of slots; deletion shifts entries back across the end of
 * the array, so the window shrinks when an entry already visited moves into it.
 */
module HashIteration {
  import opened Basics
  import opened RobinHood
  import opened HashKeys
  import opened HashTables

  datatype Status = Done | DeleteCalled | ReadyForUse

  /** What a callback answers: the two flag bits of `aws_hash_table_foreach`. */
  datatype Decision = Decision(goOn: bool, delete: bool)

  // --- bags of windows ---------------------------------------------------------------

  lemma BagConcat<K, V>(s: seq<Entry<K, V>>, t: seq<Entry<K, V>>)
    ensures Bag(s + t) == Bag(s) + Bag(t)
  {
  }

  lemma BagSplit<K, V>(s: seq<Entry<K, V>>, a: nat, b: nat, c: nat)
    requires a <= b <= c <= |s|
    ensures Bag(s[a..c]) == Bag(s[a..b]) + Bag(s[b..c])
  {
    assert s[a..c] == s[a..b] + s[b..c];
    BagConcat(s[a..b], s[b..c]);
  }

  lemma BagOne<K, V>(s: seq<Entry<K, V>>, i: nat)
    requires i < |s|
    ensures Bag(s[i..i + 1]) == if s[i].Used? then multiset{s[i]} else multiset{}
  {
    assert s[i..i + 1] == [s[i]];
  }

  lemma FirstOfWindow<K, V>(s: seq<Entry<K, V>>, a: nat, c: nat)
    requires a < c <= |s|
    ensures Bag(s[a..c]) == (if s[a].Used? then multiset{s[a]} else multiset{}) + Bag(s[a + 1..c])
  {
    BagSplit(s, a, a + 1, c);
    BagOne(s, a);
  }

  /**
   * Deleting at slot `i` of a window that ends at `limit`: what is left of the window is
   * what followed slot `i`, provided the window is cut short when the shift ran past it.
   */
  lemma WindowAfterDelete<K, V>(s: seq<Entry<K, V>>, t: seq<Entry<K, V>>, i: nat, last: nat, limit: nat)
    requires i < limit <= |s| && ShiftedBack(s, t, i, last)
    ensures Bag(t[i..CutLimit(i, last, limit)]) == Bag(s[i + 1..limit])
  {
    if last < i || last >= limit {
      ShiftAcross(s, t, i, last, limit);
    } else {
      ShiftInside(s, t, i, last, limit);
      BagAround(s, t, i, last, limit);
    }
  }

  /** A shift that runs past the window moves all of its rest back by one. */
  lemma ShiftAcross<K, V>(s: seq<Entry<K, V>>, t: seq<Entry<K, V>>, i: nat, last: nat, limit: nat)
    requires i < limit <= |s| && ShiftedBack(s, t, i, last) && (last < i || last >= limit)
    ensures t[i..limit - 1] == s[i + 1..limit]
  {
    forall k: nat | i <= k < limit - 1 ensures t[k] == s[k + 1] {
      assert Next(|s|, k) == k + 1;
    }
  }

  lemma BagAround<K, V>(s: seq<Entry<K, V>>, t: seq<Entry<K, V>>, i: nat, last: nat, limit: nat)
    requires i <= last < limit <= |s| == |t|
    requires t[i..last] == s[i + 1..last + 1] && t[last].Free? && t[last + 1..limit] == s[last + 1..limit]
    ensures Bag(t[i..limit]) == Bag(s[i + 1..limit])
  {
    BagSplit(t, i, last, limit);
    FirstOfWindow(t, last, limit);
    BagSplit(s, i + 1, last + 1, limit);
  }

  lemma ShiftInside<K, V>(s: seq<Entry<K, V>>, t: seq<Entry<K, V>>, i: nat, last: nat, limit: nat)
    requires i <= last < limit <= |s| && ShiftedBack(s, t, i, last)
    ensures t[i..last] == s[i + 1..last + 1] && t[last].Free? && t[last + 1..limit] == s[last + 1..limit]
  {
    forall k: nat | i <= k < last ensures t[k] == s[k + 1] {
      assert Next(|s|, k) == k + 1;
    }
    forall k: nat | last < k < limit ensures t[k] == s[k] {
    }
  }

  /** The end of the window after a deletion at slot `i` whose shift ended in slot `last`. */
  function CutLimit(i: nat, last: nat, limit: nat): (r: nat)
    requires i < limit
    ensures i <= r <= limit
  {
    if last < i || last >= limit then limit - 1 else limit
  }

  method RemoveAt<P(==, !new), V>(table: HashTable<P, V>, slot: nat, limit: nat) returns (last: nat)
    requires table.Valid() && slot < limit <= table.slots.Length && table.slots[slot].Used?
    modifies table`entryCount, table.slots
    ensures table.Valid()
    ensures table.Contents() == old(table.Contents()) - multiset{old(table.slots[slot])}
    ensures Bag(table.slots[..][slot..CutLimit(slot, last, limit)]) == old(Bag(table.slots[..][slot + 1..limit]))
  {
    ghost var s := table.slots[..];
    last := table.RemoveEntry(slot);
    WindowAfterDelete(s, table.slots[..], slot, last, limit);
  }

  /** The loop of `s_get_next_element`. */
  method FirstUsed<K, V>(slots: array<Entry<K, V>>, start: nat, limit: nat) returns (i: nat)
    requires start <= limit <= slots.Length
    ensures start <= i <= limit && (i < limit ==> slots[i].Used?)
    ensures Bag(slots[..][start..limit]) == Bag(slots[..][i..limit])
  {
    i := start;
    while i < limit && slots[i].Free?
      invariant start <= i <= limit
      invariant Bag(slots[..][start..limit]) == Bag(slots[..][i..limit])
    {
      FirstOfWindow(slots[..], i, limit);
      i := i + 1;
    }
  }

  /** `aws_hash_iter`: a cursor over the slots of a table. */
  class HashIter<P(==, !new), V> {
    const table: HashTable<P, V>
    var slot: nat
    var limit: nat
    var status: Status
    var element: Entry<Key<P>, V>

    /** The slot at which the next search starts, wrapping past `SIZE_MAX`. */
    function Start(): (r: nat)
      reads this
    {
      if slot == SIZE_MAX then 0 else slot + 1
    }

    ghost predicate Valid()
      reads this, table, table.slots
    {
      && table.Valid() && limit <= table.slots.Length
      && match status
         case Done => slot == limit
         case DeleteCalled => Start() <= limit
         case ReadyForUse => slot < limit && element.Used? && table.slots[slot] == element
    }

    /** The entries still to be visited, not counting the current one. */
    ghost function Ahead(): multiset<Entry<Key<P>, V>>
      requires Valid()
      reads this, table, table.slots
    {
      if status.Done? then multiset{} else Bag(table.slots[..][Start()..limit])
    }

    /** The entries still to be visited, with the current one. */
    ghost function Remaining(): multiset<Entry<Key<P>, V>>
      requires Valid()
      reads this, table, table.slots
    {
      if status.ReadyForUse? then multiset{element} + Ahead() else Ahead()
    }

    /** `s_get_next_element`. */
    method GetNextElement(start: nat)
      requires table.Valid() && start <= limit <= table.slots.Length
      modifies this
      ensures limit == old(limit) && Valid() && !status.DeleteCalled?
      ensures Bag(table.slots[..][start..limit]) == Remaining()
    {
      var i := FirstUsed(table.slots, start, limit);
      Settle(i);
    }

    /** Stop at a slot: the first one in use, or the end of the window. */
    method Settle(i: nat)
      requires table.Valid() && i <= limit <= table.slots.Length && (i < limit ==> table.slots[i].Used?)
      modifies this
      ensures limit == old(limit) && Valid() && !status.DeleteCalled?
      ensures Remaining() == Bag(table.slots[..][i..limit])
    {
      if i < limit {
        FirstOfWindow(table.slots[..], i, limit);
        element, slot, status := table.slots[i], i, ReadyForUse;
      } else {
        element, slot, status := Free, limit, Done;
      }
    }

    /** `aws_hash_iter_begin`. */
    constructor Begin(table: HashTable<P, V>)
      requires table.Valid()
      ensures Valid() && !status.DeleteCalled? && this.table == table
      ensures table.Contents() == Remaining()
    {
      this.table := table;
      slot, limit, status, element := 0, table.slots.Length, Done, Free;
      new;
      assert table.slots[..][0..limit] == table.slots[..];
      GetNextElement(0);
    }

    /** `aws_hash_iter_done`. */
    predicate IsDone()
      reads this
    {
      slot == limit
    }

    /** `aws_hash_iter_next`. */
    method Next()
      requires Valid() && !status.Done?
      modifies this
      ensures Valid() && !status.DeleteCalled? && limit == old(limit)
      ensures old(Ahead()) == Remaining()
    {
      GetNextElement(Start());
    }

    /** `aws_hash_iter_delete`. */
    method Delete()
      requires Valid() && status.ReadyForUse?
      modifies this, table`entryCount, table.slots
      ensures Valid() && status.DeleteCalled? && element == old(element)
      ensures table.Contents() == old(table.Contents()) - multiset{element}
      ensures Ahead() == old(Ahead())
    {
      var last := RemoveAt(table, slot, limit);
      Retreat(last);
    }

    /** Cut the window short if it needs it and step back one slot, below slot 0 to `SIZE_MAX`. */
    method Retreat(last: nat)
      requires slot < limit <= SIZE_MAX
      modifies this
      ensures element == old(element) && status == DeleteCalled && Start() == old(slot)
      ensures limit == CutLimit(old(slot), last, old(limit))
    {
      if last < slot || last >= limit {
        limit := limit - 1;
      }
      slot := if slot == 0 then SIZE_MAX else slot - 1;
      status := DeleteCalled;
    }
  }

  // --- foreach -----------------------------------------------------------------------

  /** A callback: it may decide by everything it has been shown so far. */
  type Callback<!P, !V> = (seq<Entry<Key<P>, V>>, Entry<Key<P>, V>) -> Decision

  /** The elements that the callback asked to delete, out of those it was shown. */
  ghost function Deleted<P, V>(cb: Callback<P, V>, visited: seq<Entry<Key<P>, V>>): multiset<Entry<Key<P>, V>>
  {
    if visited == [] then multiset{}
    else
      var n := |visited| - 1;
      Deleted(cb, visited[..n])
      + (if cb(visited[..n], visited[n]).delete then multiset{visited[n]} else multiset{})
  }

  /** The callback asked to go on after each of the first `n` elements. */
  ghost predicate WentOn<P, V>(cb: Callback<P, V>, visited: seq<Entry<Key<P>, V>>, n: nat)
    requires n <= |visited|
  {
    forall i: nat | i < n :: cb(visited[..i], visited[i]).goOn
  }

  lemma WentOnStep<P, V>(cb: Callback<P, V>, visited: seq<Entry<Key<P>, V>>, e: Entry<Key<P>, V>)
    requires WentOn(cb, visited, |visited|)
    ensures WentOn(cb, visited + [e], |visited|)
    ensures WentOn(cb, visited + [e], |visited| + 1) <==> cb(visited, e).goOn
  {
    var v := visited + [e];
    assert v[..|visited|] == visited;
    forall i: nat | i < |visited| ensures v[..i] == visited[..i] && v[i] == visited[i] {
    }
  }

  lemma {:induction false} DeletedIsVisited<P, V>(cb: Callback<P, V>, visited: seq<Entry<Key<P>, V>>)
    ensures Deleted(cb, visited) <= multiset(visited)
  {
    if visited != [] {
      var n := |visited| - 1;
      DeletedIsVisited(cb, visited[..n]);
      assert visited == visited[..n] + [visited[n]];
    }
  }

  lemma VisitOne<P, V>(cb: Callback<P, V>, visited: seq<Entry<Key<P>, V>>, e: Entry<Key<P>, V>)
    ensures Deleted(cb, visited + [e]) == Deleted(cb, visited) + (if cb(visited, e).delete then multiset{e} else multiset{})
  {
    var v := visited + [e];
    assert v[..|v| - 1] == visited;
  }

  /** Where an iteration stands: the entries deleted, those visited, and those still ahead. */
  ghost predicate Standing<P, V>(
    cb: Callback<P, V>, all: multiset<Entry<Key<P>, V>>, visited: seq<Entry<Key<P>, V>>,
    left: multiset<Entry<Key<P>, V>>, ahead: multiset<Entry<Key<P>, V>>)
  {
    all == multiset(visited) + ahead && left == all - Deleted(cb, visited)
  }

  lemma StandingStep<P, V>(
    cb: Callback<P, V>, all: multiset<Entry<Key<P>, V>>, visited: seq<Entry<Key<P>, V>>,
    left: multiset<Entry<Key<P>, V>>, e: Entry<Key<P>, V>, ahead: multiset<Entry<Key<P>, V>>)
    requires Standing(cb, all, visited, left, multiset{e} + ahead)
    ensures Standing(cb, all, visited + [e], if cb(visited, e).delete then left - multiset{e} else left, ahead)
  {
    VisitOne(cb, visited, e);
    DeletedIsVisited(cb, visited);
    assert multiset(visited + [e]) == multiset(visited) + multiset{e};
  }

  /** The rest of a turn: delete the current element if asked, and move on unless told to stop. */
  method Obey<P(==, !new), V>(iter: HashIter<P, V>, d: Decision)
    requires iter.Valid() && iter.status.ReadyForUse?
    modifies iter, iter.table`entryCount, iter.table.slots
    ensures iter.Valid()
    ensures iter.table.Contents() ==
      if d.delete then old(iter.table.Contents()) - multiset{old(iter.element)} else old(iter.table.Contents())
    ensures d.goOn ==> !iter.status.DeleteCalled? && iter.Remaining() == old(iter.Ahead())
  {
    if d.delete {
      iter.Delete();
    }
    if d.goOn {
      iter.Next();
    }
  }

  /** One turn of the loop: show the current element to the callback and obey it. */
  method Turn<P(==, !new), V>(
    iter: HashIter<P, V>, cb: Callback<P, V>, ghost all: multiset<Entry<Key<P>, V>>, visited: seq<Entry<Key<P>, V>>)
    returns (goOn: bool)
    requires Going(iter, cb, all, visited) && iter.status.ReadyForUse?
    modifies iter, iter.table`entryCount, iter.table.slots
    ensures iter.table.Valid()
    ensures goOn ==> Going(iter, cb, all, visited + [old(iter.element)]) && |iter.Remaining()| < old(|iter.Remaining()|)
    ensures !goOn ==> Shown(cb, all, visited + [old(iter.element)], iter.table.Contents())
  {
    var e := iter.element;
    var d := cb(visited, e);
    StandingStep(cb, all, visited, iter.table.Contents(), e, iter.Ahead());
    WentOnStep(cb, visited, e);
    Obey(iter, d);
    return d.goOn;
  }

  /**
   * `aws_hash_table_foreach`. Whatever the callback deletes, no element is shown twice, an
   * iteration that is not stopped shows every element, and exactly the deleted ones are gone.
   */
  method ForEach<P(==, !new), V>(table: HashTable<P, V>, cb: Callback<P, V>) returns (visited: seq<Entry<Key<P>, V>>)
    requires table.Valid()
    modifies table`entryCount, table.slots
    ensures table.Valid()
    ensures multiset(visited) <= old(table.Contents())
    ensures forall i, j | 0 <= i < j < |visited| :: visited[i] != visited[j]
    ensures visited != [] ==> WentOn(cb, visited, |visited| - 1)
    ensures WentOn(cb, visited, |visited|) ==> multiset(visited) == old(table.Contents())
    ensures table.Contents() == old(table.Contents()) - Deleted(cb, visited)
  {
    ghost var all := table.Contents();
    var iter := new HashIter<P, V>.Begin(table);
    Begun(iter, cb, all);
    visited := Walk(iter, cb, all);
    Once(table.hg, all, visited);
  }

  /** The loop of `aws_hash_table_foreach`. */
  method Walk<P(==, !new), V>(iter: HashIter<P, V>, cb: Callback<P, V>, ghost all: multiset<Entry<Key<P>, V>>) returns (visited: seq<Entry<Key<P>, V>>)
    requires Going(iter, cb, all, [])
    modifies iter, iter.table`entryCount, iter.table.slots
    ensures iter.table.Valid() && Shown(cb, all, visited, iter.table.Contents())
  {
    visited := [];
    while !iter.IsDone()
      invariant Going(iter, cb, all, visited)
      decreases |iter.Remaining()|
    {
      var e := iter.element;
      var goOn := Turn(iter, cb, all, visited);
      visited := visited + [e];
      if !goOn {
        return;
      }
    }
    AllShown(iter, cb, all, visited);
  }

  /** An iteration between two turns: no element has been lost, and the callback has not stopped it. */
  ghost predicate Going<P(!new), V>(iter: HashIter<P, V>, cb: Callback<P, V>, all: multiset<Entry<Key<P>, V>>, visited: seq<Entry<Key<P>, V>>)
    reads iter, iter.table, iter.table.slots
  {
    && iter.Valid() && !iter.status.DeleteCalled?
    && Standing(cb, all, visited, iter.table.Contents(), iter.Remaining())
    && WentOn(cb, visited, |visited|)
  }

  /** What is known of the elements shown when an iteration has ended or been stopped. */
  ghost predicate Shown<P(!new), V>(cb: Callback<P, V>, all: multiset<Entry<Key<P>, V>>, visited: seq<Entry<Key<P>, V>>, left: multiset<Entry<Key<P>, V>>)
  {
    && multiset(visited) <= all && left == all - Deleted(cb, visited)
    && (visited != [] ==> WentOn(cb, visited, |visited| - 1))
    && (WentOn(cb, visited, |visited|) ==> multiset(visited) == all)
  }

  lemma Begun<P(!new), V>(iter: HashIter<P, V>, cb: Callback<P, V>, all: multiset<Entry<Key<P>, V>>)
    requires iter.Valid() && !iter.status.DeleteCalled? && iter.table.Contents() == all == iter.Remaining()
    ensures Going(iter, cb, all, [])
  {
  }

  lemma AllShown<P(!new), V>(iter: HashIter<P, V>, cb: Callback<P, V>, all: multiset<Entry<Key<P>, V>>, visited: seq<Entry<Key<P>, V>>)
    requires Going(iter, cb, all, visited) && iter.IsDone()
    ensures Shown(cb, all, visited, iter.table.Contents())
  {
  }

  /** A sequence drawn from a bag without repeats has no repeats. */
  lemma Once<P(!new), V>(hg: Hashing<P>, all: multiset<Entry<Key<P>, V>>, visited: seq<Entry<Key<P>, V>>)
    requires hg.Keyed(all) && multiset(visited) <= all
    ensures forall i, j | 0 <= i < j < |visited| :: visited[i] != visited[j]
  {
    forall i, j | 0 <= i < j < |visited| ensures visited[i] != visited[j] {
      if visited[i] == visited[j] {
        TwoCopies(visited, i, j);
      }
    }
  }
}
