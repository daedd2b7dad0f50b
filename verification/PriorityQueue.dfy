/**
 * The priority queue with backpointers. The container and the backpointer array are moved
 * alike by every operation, so they are one sequence of slots; `position` is the
 * `current_index` field of the callers' nodes.
 */
module PriorityQueues {
  import opened Basics
  import opened HeapOrder

  /** Every slot with a handle is where that handle says. */
  ghost predicate Tracked<T>(s: seq<Slot<T>>, position: map<nat, nat>)
  {
    forall i: nat | i < |s| && s[i].handle.Node? :: s[i].handle.id in position && position[s[i].handle.id] == i
  }

  ghost predicate Live<T>(s: seq<Slot<T>>, h: nat)
  {
    exists i: nat :: i < |s| && s[i].handle == Node(h)
  }

  function Moved(position: map<nat, nat>, h: Handle, i: nat): map<nat, nat>
  {
    match h
    case NoHandle => position
    case Node(id) => position[id := i]
  }

  /** Positions of handles that are not in the queue stay as they are. */
  ghost predicate OthersKept<T>(s: seq<Slot<T>>, before: map<nat, nat>, after: map<nat, nat>)
  {
    && before.Keys <= after.Keys
    && forall h | h in after && !Live(s, h) :: h in before && after[h] == before[h]
  }

  /** No handle becomes known by moving slots about. */
  lemma SameKeys<T>(s: seq<Slot<T>>, p: map<nat, nat>, q: map<nat, nat>)
    requires OthersKept(s, p, q) && forall h | Live(s, h) :: h in p
    ensures q.Keys == p.Keys
  {
  }

  lemma LiveIsKnown<T>(s: seq<Slot<T>>, p: map<nat, nat>)
    requires Tracked(s, p)
    ensures forall h | Live(s, h) :: h in p
  {
  }

  /** A handle that is known and not in the queue says so. */
  ghost predicate Marked<T>(s: seq<Slot<T>>, position: map<nat, nat>)
  {
    forall h | h in position && !Live(s, h) :: position[h] == SIZE_MAX
  }

  lemma MarkedWith<T>(s: seq<Slot<T>>, t: seq<Slot<T>>, x: Slot<T>, p: map<nat, nat>, q: map<nat, nat>)
    requires Marked(s, p) && OthersKept(s + [x], p, q) && multiset(t) == multiset(s) + multiset{x}
    ensures Marked(t, q)
  {
    forall h | h in q && !Live(t, h) ensures q[h] == SIZE_MAX {
      if Live(s + [x], h) {
        SameLive(s + [x], t, h);
      }
      if Live(s, h) {
        SameLive(s, t, h);
      }
    }
  }

  lemma MarkedWithout<T>(s: seq<Slot<T>>, t: seq<Slot<T>>, x: Slot<T>, p: map<nat, nat>, q: map<nat, nat>)
    requires Marked(s, p) && OthersKept(s, p, q) && multiset(t) == multiset(s) - multiset{x}
    requires x.handle.Node? ==> x.handle.id in q && q[x.handle.id] == SIZE_MAX
    ensures Marked(t, q)
  {
    forall h | h in q && !Live(t, h) ensures q[h] == SIZE_MAX {
      if Live(s, h) {
        OnlyThat(s, t, x, h);
      }
    }
  }

  /** What is no longer in the queue is what was taken out. */
  lemma OnlyThat<T>(s: seq<Slot<T>>, t: seq<Slot<T>>, x: Slot<T>, h: nat)
    requires multiset(t) == multiset(s) - multiset{x} && Live(s, h)
    ensures Live(t, h) || x.handle == Node(h)
  {
    var i: nat :| i < |s| && s[i].handle == Node(h);
    if s[i] != x {
      assert s[i] in multiset(t);
      assert s[i] in t;
    }
  }

  /** What is in a part of the slots is in all of them. */
  lemma SameLive<T>(s: seq<Slot<T>>, t: seq<Slot<T>>, h: nat)
    requires multiset(s) <= multiset(t) && Live(s, h)
    ensures Live(t, h)
  {
    var i: nat :| i < |s| && s[i].handle == Node(h);
    assert s[i] in multiset(t);
    assert s[i] in t;
  }

  lemma SwapTracked<T>(s: seq<Slot<T>>, position: map<nat, nat>, a: nat, b: nat)
    requires Tracked(s, position) && a < |s| && b < |s| && a != b
    ensures var p := Moved(Moved(position, s[b].handle, a), s[a].handle, b);
            Tracked(Swapped(s, a, b), p) && OthersKept(s, position, p)
  {
    var t := Swapped(s, a, b);
    var p := Moved(Moved(position, s[b].handle, a), s[a].handle, b);
    forall i: nat | i < |t| && t[i].handle.Node? ensures t[i].handle.id in p && p[t[i].handle.id] == i {
    }
  }

  class PriorityQueue<T(!new)> {
    const after: Order<T>
    /** A queue on caller-provided memory has a fixed capacity and cannot keep backpointers. */
    const fixedCapacity: Option<nat>
    var slots: seq<Slot<T>>
    var hasBackpointers: bool
    var position: map<nat, nat>

    /** Everything but the heap order. */
    ghost predicate Sound()
      reads this
    {
      && Weak(after)
      && |slots| < SIZE_MAX
      && Tracked(slots, position)
      && (fixedCapacity.Some? ==> !hasBackpointers)
      && (!hasBackpointers ==> forall i: nat | i < |slots| :: slots[i].handle.NoHandle?)
    }

    ghost predicate Valid()
      reads this
    {
      Sound() && Ordered(after, slots) && Marked(slots, position)
    }

    constructor (after: Order<T>, fixedCapacity: Option<nat>)
      requires Weak(after)
      ensures Valid() && slots == [] && !hasBackpointers && position == map[]
      ensures this.after == after && this.fixedCapacity == fixedCapacity
    {
      this.after, this.fixedCapacity := after, fixedCapacity;
      slots, hasBackpointers, position := [], false, map[];
    }

    /** A caller marks a node of its own as being in no queue. */
    method ResetNode(h: nat)
      requires Valid() && !Live(slots, h)
      modifies this`position
      ensures Valid() && position == old(position)[h := SIZE_MAX]
    {
      position := position[h := SIZE_MAX];
    }

    /** `s_swap`. */
    method Swap(a: nat, b: nat)
      requires Sound() && a < |slots| && b < |slots| && a != b
      modifies this`slots, this`position
      ensures Sound() && slots == Swapped(old(slots), a, b)
      ensures OthersKept(old(slots), old(position), position)
    {
      SwapTracked(slots, position, a, b);
      position := Moved(Moved(position, slots[b].handle, a), slots[a].handle, b);
      slots := Swapped(slots, a, b);
    }

    /** `s_sift_up`. */
    method SiftUp(index0: nat) returns (moved: bool)
      requires Sound() && ExceptAt(after, slots, index0)
      modifies this`slots, this`position
      ensures Sound() && multiset(slots) == old(multiset(slots)) && |slots| == old(|slots|)
      ensures OthersKept(old(slots), old(position), position)
      ensures moved ==> Ordered(after, slots)
      ensures !moved ==> slots == old(slots) && position == old(position)
      ensures !moved ==> index0 == 0 || Fits(after, slots, index0)
    {
      moved := false;
      var index: nat := index0;
      while index > 0 && after(slots[Parent(index)].item, slots[index].item)
        invariant Sound() && multiset(slots) == old(multiset(slots)) && |slots| == old(|slots|)
        invariant OthersKept(old(slots), old(position), position)
        invariant index < |slots|
        invariant if moved then LowAt(after, slots, index)
                  else index == index0 && slots == old(slots) && position == old(position)
        decreases index
      {
        ghost var s, p := slots, position;
        UpSwap(after, slots, index);
        Swap(index, Parent(index));
        KeptThrough(old(slots), s, old(position), p, position);
        moved, index := true, Parent(index);
      }
      if moved {
        UpDone(after, slots, index);
      }
    }

    lemma KeptThrough(s: seq<Slot<T>>, t: seq<Slot<T>>, p: map<nat, nat>, q: map<nat, nat>, r: map<nat, nat>)
      requires multiset(s) == multiset(t) && OthersKept(s, p, q) && OthersKept(t, q, r)
      ensures OthersKept(s, p, r)
    {
      forall h | h in r && !Live(s, h) ensures h in p && r[h] == p[h] {
        if Live(t, h) {
          SameLive(t, s, h);
        }
      }
    }

    /** The slot among `root` and its children that comes first, preferring `root`, then the left. */
    method PickFirst(root: nat) returns (first: nat)
      requires Weak(after) && 2 * root + 1 < |slots|
      ensures first == root ==> forall c: nat | 0 < c < |slots| && Parent(c) == root :: !after(slots[root].item, slots[c].item)
      ensures first != root ==> FirstChild(after, slots, root, first)
    {
      var left, right := 2 * root + 1, 2 * root + 2;
      first := root;
      if after(slots[first].item, slots[left].item) {
        first := left;
      }
      if right < |slots| {
        if after(slots[first].item, slots[right].item) {
          first := right;
        }
      }
      forall c: nat | 0 < c < |slots| && Parent(c) == root ensures c == left || c == right {
        ParentOfChild(root, c);
      }
      ParentOfChild(root, left);
      ParentOfChild(root, right);
    }

    /** `s_sift_down`. */
    method SiftDown(root0: nat)
      requires Sound() && HighAt(after, slots, root0)
      modifies this`slots, this`position
      ensures Sound() && Ordered(after, slots) && multiset(slots) == old(multiset(slots)) && |slots| == old(|slots|)
      ensures OthersKept(old(slots), old(position), position)
    {
      var root: nat := root0;
      while 2 * root + 1 < |slots|
        invariant Sound() && multiset(slots) == old(multiset(slots)) && |slots| == old(|slots|)
        invariant OthersKept(old(slots), old(position), position)
        invariant HighAt(after, slots, root)
        decreases |slots| - root
      {
        var first := PickFirst(root);
        if first == root {
          break;
        }
        ghost var s, p := slots, position;
        DownSwap(after, slots, root, first);
        Swap(first, root);
        KeptThrough(old(slots), s, old(position), p, position);
        root := first;
      }
      forall c: nat | 0 < c < |slots| && Parent(c) == root ensures !after(slots[root].item, slots[c].item) {
        ParentOfChild(root, c);
      }
      DownDone(after, slots, root);
    }

    /** `s_sift_either`. */
    method SiftEither(index: nat)
      requires Sound() && ExceptAt(after, slots, index)
      modifies this`slots, this`position
      ensures Sound() && Ordered(after, slots) && multiset(slots) == old(multiset(slots)) && |slots| == old(|slots|)
      ensures OthersKept(old(slots), old(position), position)
    {
      var moved := false;
      if index != 0 {
        moved := SiftUp(index);
      }
      if !moved {
        SiftDown(index);
      }
    }

    /** Whether the container can take one more element; only a growing one asks for memory. */
    predicate HasRoom(canGrow: bool)
      reads this
    {
      |slots| + 1 < SIZE_MAX && if fixedCapacity.Some? then |slots| < fixedCapacity.value else canGrow
    }

    /** Whether the handle, if any, can be recorded. */
    predicate CanRecord(handle: Handle, canTrack: bool)
      reads this
    {
      (handle.Node? && !hasBackpointers ==> fixedCapacity.None? && canTrack) && (hasBackpointers ==> canTrack)
    }

    /**
     * `aws_priority_queue_push_ref`. `canGrow` and `canTrack` say whether memory for the
     * container and for the backpointers is to be had.
     */
    method Push(item: T, handle: Handle, canGrow: bool, canTrack: bool) returns (ok: bool)
      requires Valid() && (handle.Node? ==> !Live(slots, handle.id))
      modifies this
      ensures Valid()
      ensures ok <==>
        && old(|slots|) + 1 < SIZE_MAX
        && (if fixedCapacity.Some? then old(|slots|) < fixedCapacity.value else canGrow)
        && (if old(hasBackpointers) then canTrack else handle.Node? ==> fixedCapacity.None? && canTrack)
      ensures ok ==> hasBackpointers == (old(hasBackpointers) || handle.Node?)
      ensures !ok ==> slots == old(slots) && position == old(position) && hasBackpointers == old(hasBackpointers)
      ensures ok ==> multiset(slots) == old(multiset(slots)) + multiset{Slot(item, handle)}
      ensures ok ==> OthersKept(old(slots) + [Slot(item, handle)], old(position), position)
      ensures position.Keys == old(position.Keys) + if ok && handle.Node? then {handle.id} else {}
    {
      ok := HasRoom(canGrow) && CanRecord(handle, canTrack);
      if ok {
        Append(item, handle);
      }
    }

    /** Put an element at the end and let it rise. */
    method Append(item: T, handle: Handle)
      requires Valid() && |slots| + 1 < SIZE_MAX && (handle.Node? ==> fixedCapacity.None? && !Live(slots, handle.id))
      modifies this
      ensures Valid() && hasBackpointers == (old(hasBackpointers) || handle.Node?)
      ensures multiset(slots) == old(multiset(slots)) + multiset{Slot(item, handle)}
      ensures OthersKept(old(slots) + [Slot(item, handle)], old(position), position)
      ensures position.Keys == old(position.Keys) + if handle.Node? then {handle.id} else {}
    {
      if handle.Node? {
        hasBackpointers := true;
      }
      position := Moved(position, handle, |slots|);
      Appended(after, slots, Slot(item, handle));
      slots := slots + [Slot(item, handle)];
      LeafExcept(after, slots);
      ghost var s, p := slots, position;
      var moved := SiftUp(|slots| - 1);
      if !moved {
        UpDone(after, slots, |slots| - 1);
      }
      PushKept(old(slots), s, handle, old(position), p, position);
      MarkedWith(old(slots), slots, Slot(item, handle), old(position), position);
      LiveIsKnown(s, p);
      SameKeys(s, p, position);
    }

    static lemma LeafExcept(after: Order<T>, s: seq<Slot<T>>)
      requires s != [] && LowAt(after, s, |s| - 1)
      ensures ExceptAt(after, s, |s| - 1)
    {
    }

    static lemma PushKept(s: seq<Slot<T>>, t: seq<Slot<T>>, handle: Handle, p: map<nat, nat>, q: map<nat, nat>, r: map<nat, nat>)
      requires |t| == |s| + 1 && t == s + [Slot(t[|s|].item, handle)] && q == Moved(p, handle, |s|) && OthersKept(t, q, r)
      ensures OthersKept(t, p, r)
    {
      assert handle.Node? ==> t[|s|].handle == Node(handle.id);
    }

    /** Bring the element at `index` to the end and drop it; trouble stays at `index` at most. */
    method CutOut(index: nat)
      requires Valid() && index < |slots|
      modifies this
      ensures Sound() && hasBackpointers == old(hasBackpointers) && |slots| == old(|slots|) - 1
      ensures if index < |slots| then ExceptAt(after, slots, index) else Ordered(after, slots)
      ensures multiset(slots) == old(multiset(slots)) - multiset{old(slots[index])}
      ensures var h := old(slots[index].handle); h.Node? ==> h.id in position && position[h.id] == SIZE_MAX && !Live(slots, h.id)
      ensures OthersKept(old(slots), old(position), position)
    {
      ghost var s, p, last := slots, position, |slots| - 1;
      BringToEnd(index);
      ghost var u, q := slots, position;
      PopLast();
      Released(s, u, slots, u[last].handle, p, q, position);
      LastGone(s, u, slots, index);
    }

    /** Swap the element at `index` to the end, unless it is there. */
    method BringToEnd(index: nat)
      requires Valid() && index < |slots|
      modifies this`slots, this`position
      ensures Sound() && OthersKept(old(slots), old(position), position) && |slots| == old(|slots|)
      ensures multiset(slots) == old(multiset(slots)) && slots[|slots| - 1] == old(slots[index])
      ensures var t := slots[..|slots| - 1];
        if index < |t| then ExceptAt(after, t, index) else Ordered(after, t)
    {
      var last := |slots| - 1;
      if index != last {
        Replaced(after, slots, index);
        Swap(index, last);
      } else {
        Shrunk(after, slots);
      }
    }

    static lemma LastGone(s: seq<Slot<T>>, u: seq<Slot<T>>, t: seq<Slot<T>>, index: nat)
      requires index < |s| == |u| && multiset(u) == multiset(s) && u[|u| - 1] == s[index] && t == u[..|u| - 1]
      ensures multiset(t) == multiset(s) - multiset{s[index]}
    {
      assert u == t + [s[index]];
    }

    /** `s_remove_node`: take out the element at `index`; its handle now says `SIZE_MAX`. */
    method RemoveNode(index: nat) returns (item: T)
      requires Valid() && index < |slots|
      modifies this
      ensures Valid() && item == old(slots[index].item) && hasBackpointers == old(hasBackpointers)
      ensures multiset(slots) == old(multiset(slots)) - multiset{old(slots[index])}
      ensures var h := old(slots[index].handle); h.Node? ==> h.id in position && position[h.id] == SIZE_MAX && !Live(slots, h.id)
      ensures OthersKept(old(slots), old(position), position) && position.Keys == old(position.Keys)
    {
      ghost var s, p, h := slots, position, slots[index].handle;
      item := slots[index].item;
      CutOut(index);
      ghost var t, q := slots, position;
      if index < |slots| {
        SiftEither(index);
        StillOut(s, t, slots, h, p, q, position);
      }
      MarkedWithout(s, slots, s[index], p, position);
      LiveIsKnown(s, p);
      SameKeys(s, p, position);
    }

    static lemma StillOut(s: seq<Slot<T>>, t: seq<Slot<T>>, v: seq<Slot<T>>, h: Handle, p: map<nat, nat>, q: map<nat, nat>, r: map<nat, nat>)
      requires multiset(t) <= multiset(s) && multiset(v) == multiset(t)
      requires OthersKept(s, p, q) && OthersKept(t, q, r)
      requires h.Node? ==> h.id in q && q[h.id] == SIZE_MAX && !Live(t, h.id)
      ensures OthersKept(s, p, r)
      ensures h.Node? ==> h.id in r && r[h.id] == SIZE_MAX && !Live(v, h.id)
    {
      if h.Node? && Live(v, h.id) {
        SameLive(v, t, h.id);
      }
      forall x | x in r && !Live(s, x) ensures !Live(t, x) {
        if Live(t, x) {
          SameLive(t, s, x);
        }
      }
    }

    /** Drop the last slot and mark its handle as out of the queue. */
    method PopLast()
      requires Sound() && slots != []
      modifies this
      ensures Sound() && slots == old(slots)[..old(|slots|) - 1] && hasBackpointers == old(hasBackpointers)
      ensures position == Moved(old(position), old(slots)[old(|slots|) - 1].handle, SIZE_MAX)
    {
      position := Moved(position, slots[|slots| - 1].handle, SIZE_MAX);
      slots := slots[..|slots| - 1];
    }

    /** After the swap and the pop the removed handle is out and strangers are untouched. */
    static lemma Released(
      s: seq<Slot<T>>, u: seq<Slot<T>>, t: seq<Slot<T>>, gone: Handle,
      p: map<nat, nat>, q: map<nat, nat>, r: map<nat, nat>)
      requires multiset(s) == multiset(u) && u != [] && t == u[..|u| - 1] && gone == u[|u| - 1].handle
      requires Tracked(u, q) && OthersKept(s, p, q) && r == Moved(q, gone, SIZE_MAX)
      ensures gone.Node? ==> gone.id in r && r[gone.id] == SIZE_MAX && !Live(t, gone.id)
      ensures OthersKept(s, p, r)
    {
      if gone.Node? {
        forall i: nat | i < |t| ensures t[i].handle != Node(gone.id) {
          assert u[i].handle == t[i].handle;
        }
      }
      forall h | h in p && !Live(s, h) ensures !Live(u, h) && !Live(t, h) {
        if Live(u, h) {
          SameLive(u, s, h);
        }
        PrefixLive(u, |t|, h);
      }
    }

    static lemma PrefixLive(u: seq<Slot<T>>, n: nat, h: nat)
      requires n <= |u|
      ensures Live(u[..n], h) ==> Live(u, h)
    {
      if Live(u[..n], h) {
        var i: nat :| i < n && u[..n][i].handle == Node(h);
        assert u[i].handle == Node(h);
      }
    }

    /** `aws_priority_queue_remove`: by handle; one that is not in the queue is refused. */
    method Remove(h: nat) returns (item: Option<T>)
      requires Valid() && h in position
      modifies this
      ensures Valid() && (item.Some? <==> Live(old(slots), h))
      ensures item.None? ==> slots == old(slots) && position == old(position)
      ensures item.Some? ==>
        var slot := Slot(item.value, Node(h));
        && slot in old(slots) && multiset(slots) == old(multiset(slots)) - multiset{slot}
        && h in position && position[h] == SIZE_MAX && !Live(slots, h)
      ensures OthersKept(old(slots), old(position), position) && position.Keys == old(position.Keys)
    {
      if position[h] >= |slots| || !hasBackpointers {
        return None;
      }
      var i := position[h];
      ghost var s := slots;
      assert s[i].handle == Node(h);
      var x := RemoveNode(i);
      return Some(x);
    }

    /** `aws_priority_queue_top`. */
    function Top(): (r: Option<T>)
      reads this
    {
      if slots == [] then None else Some(slots[0].item)
    }

    /** `aws_priority_queue_pop`: an element that no other comes before. */
    method Pop() returns (item: Option<T>)
      requires Valid()
      modifies this
      ensures Valid() && item == old(Top())
      ensures item.None? ==> slots == old(slots) && position == old(position)
      ensures item.Some? ==>
        && multiset(slots) == old(multiset(slots)) - multiset{old(slots[0])}
        && forall x | x in old(slots) :: !after(item.value, x.item)
      ensures OthersKept(old(slots), old(position), position)
    {
      if slots == [] {
        return None;
      }
      var x := PopMarked();
      return Some(x);
    }

    /** A pop from a queue that is not empty; the handle of the element is out of the queue. */
    method PopMarked() returns (item: T)
      requires Valid() && slots != []
      modifies this
      ensures Valid() && item == old(slots[0].item)
      ensures multiset(slots) == old(multiset(slots)) - multiset{old(slots[0])}
      ensures var h := old(slots[0].handle); h.Node? ==> !Live(slots, h.id)
      ensures forall x | x in old(slots) :: !after(item, x.item)
      ensures OthersKept(old(slots), old(position), position) && position.Keys == old(position.Keys)
    {
      forall i: nat | i < |slots| ensures !after(slots[0].item, slots[i].item) {
        RootFirst(after, slots, i);
      }
      item := RemoveNode(0);
    }

    /** Repeated pops give all elements in order; `popped` are the slots they came from. */
    method Drain() returns (items: seq<T>, ghost popped: seq<Slot<T>>)
      requires Valid()
      modifies this
      ensures Valid() && slots == []
      ensures multiset(popped) == old(multiset(slots))
      ensures |items| == |popped| && forall i | 0 <= i < |items| :: items[i] == popped[i].item
      ensures forall i, j | 0 <= i < j < |items| :: !after(items[i], items[j])
    {
      items, popped := [], [];
      while slots != []
        invariant Valid()
        invariant multiset(popped) + multiset(slots) == old(multiset(slots))
        invariant |items| == |popped| && forall i | 0 <= i < |items| :: items[i] == popped[i].item
        invariant forall i, j | 0 <= i < j < |items| :: !after(items[i], items[j])
        invariant forall i | 0 <= i < |items| :: forall x | x in slots :: !after(items[i], x.item)
        decreases |slots|
      {
        ghost var s := slots;
        var x := PopMarked();
        FewerSlots(s, slots, s[0]);
        items, popped := items + [x], popped + [s[0]];
      }
    }

    static lemma FewerSlots(s: seq<Slot<T>>, t: seq<Slot<T>>, x: Slot<T>)
      requires x in s && multiset(t) == multiset(s) - multiset{x}
      ensures |t| == |s| - 1 && forall y | y in t :: y in s
    {
      assert |multiset(s)| == |s| && |multiset(t)| == |t|;
      forall y | y in t ensures y in s {
        assert y in multiset(t);
        assert y in multiset(s);
      }
    }
  }
}
