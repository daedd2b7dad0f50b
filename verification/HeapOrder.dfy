/**
 * Heap order on a sequence and what one swap of sifting does to it.
 */
module HeapOrder {

  /** An element of the heap and the handle that follows it, if any. */
  datatype Slot<T> = Slot(item: T, handle: Handle)

  datatype Handle = NoHandle | Node(id: nat)

  /** `pred(a, b) > 0`: `a` belongs after `b`. Callers give a strict weak order. */
  type Order<!T> = (T, T) -> bool

  ghost predicate Weak<T(!new)>(after: Order<T>)
  {
    && (forall a :: !after(a, a))
    && (forall a, b, c :: after(a, c) ==> after(a, b) || after(b, c))
    && (forall a, b :: after(a, b) ==> !after(b, a))
  }

  /** `PARENT_OF`, as the macro computes it. */
  function Parent(i: nat): (p: nat)
    ensures i > 0 ==> p < i
  {
    if i % 2 == 1 then i / 2 else if i > 1 then (i - 2) / 2 else 0
  }

  lemma ParentOfChild(i: nat, c: nat)
    requires c > 0
    ensures Parent(c) == i <==> c == 2 * i + 1 || c == 2 * i + 2
  {
  }

  /** Slot `i` is not before its parent. */
  ghost predicate Fits<T>(after: Order<T>, s: seq<Slot<T>>, i: nat)
    requires 0 < i < |s|
  {
    !after(s[Parent(i)].item, s[i].item)
  }

  ghost predicate Ordered<T>(after: Order<T>, s: seq<Slot<T>>)
  {
    forall i: nat | 0 < i < |s| :: Fits(after, s, i)
  }

  /** The parent of slot `i` is not after the children of `i`. */
  ghost predicate Bridged<T>(after: Order<T>, s: seq<Slot<T>>, i: nat)
  {
    i > 0 ==> forall c: nat | 0 < c < |s| && Parent(c) == i && i < |s| :: !after(s[Parent(i)].item, s[c].item)
  }

  /** In order but for slot `i`, which may be wrong against its parent and its children. */
  ghost predicate ExceptAt<T>(after: Order<T>, s: seq<Slot<T>>, i: nat)
  {
    i < |s| && Bridged(after, s, i) && forall j: nat | 0 < j < |s| && j != i && Parent(j) != i :: Fits(after, s, j)
  }

  /** In order but for slot `i` against its parent. */
  ghost predicate LowAt<T>(after: Order<T>, s: seq<Slot<T>>, i: nat)
  {
    i < |s| && Bridged(after, s, i) && forall j: nat | 0 < j < |s| && j != i :: Fits(after, s, j)
  }

  /** In order but for slot `i` against its children. */
  ghost predicate HighAt<T>(after: Order<T>, s: seq<Slot<T>>, i: nat)
  {
    i < |s| && Bridged(after, s, i) && forall j: nat | 0 < j < |s| && Parent(j) != i :: Fits(after, s, j)
  }

  function Swapped<T>(s: seq<T>, a: nat, b: nat): (r: seq<T>)
    requires a < |s| && b < |s|
    ensures |r| == |s| && multiset(r) == multiset(s)
  {
    s[a := s[b]][b := s[a]]
  }

  /** Swapping an element with a parent that belongs after it moves the trouble up. */
  lemma UpSwap<T(!new)>(after: Order<T>, s: seq<Slot<T>>, i: nat)
    requires Weak(after) && ExceptAt(after, s, i) && i > 0 && after(s[Parent(i)].item, s[i].item)
    ensures LowAt(after, Swapped(s, i, Parent(i)), Parent(i))
  {
    var p := Parent(i);
    var t := Swapped(s, i, p);
    forall j: nat | 0 < j < |t| && j != p ensures Fits(after, t, j) {
      if j == i {
      } else if Parent(j) == i {
      } else if Parent(j) == p {
        assert Fits(after, s, j);
      } else {
        assert Fits(after, s, j);
      }
    }
    if p > 0 {
      assert Fits(after, s, p);
      forall c: nat | 0 < c < |t| && Parent(c) == p ensures !after(t[Parent(p)].item, t[c].item) {
        if c != i {
          assert Fits(after, s, c);
        }
      }
    }
  }

  lemma UpDone<T>(after: Order<T>, s: seq<Slot<T>>, i: nat)
    requires LowAt(after, s, i) && (i == 0 || !after(s[Parent(i)].item, s[i].item))
    ensures Ordered(after, s)
  {
  }

  /** The child to which an element sinks: the first of its children, if it belongs after it. */
  ghost predicate FirstChild<T>(after: Order<T>, s: seq<Slot<T>>, i: nat, f: nat)
  {
    && 0 < f < |s| && Parent(f) == i && after(s[i].item, s[f].item)
    && forall c: nat | 0 < c < |s| && Parent(c) == i :: !after(s[f].item, s[c].item)
  }

  lemma DownSwap<T(!new)>(after: Order<T>, s: seq<Slot<T>>, i: nat, f: nat)
    requires Weak(after) && HighAt(after, s, i) && FirstChild(after, s, i, f)
    ensures HighAt(after, Swapped(s, f, i), f)
  {
    var t := Swapped(s, f, i);
    forall j: nat | 0 < j < |t| && Parent(j) != f ensures Fits(after, t, j) {
      if j != i && Parent(j) != i {
        assert Fits(after, s, j);
      }
    }
    forall c: nat | 0 < c < |t| && Parent(c) == f ensures !after(t[i].item, t[c].item) {
      assert Fits(after, s, c);
    }
  }

  lemma DownDone<T>(after: Order<T>, s: seq<Slot<T>>, i: nat)
    requires HighAt(after, s, i) && forall c: nat | 0 < c < |s| && Parent(c) == i :: !after(s[i].item, s[c].item)
    ensures Ordered(after, s)
  {
    forall j: nat | 0 < j < |s| ensures Fits(after, s, j) {
    }
  }

  /** In heap order nothing comes before the root. */
  lemma {:induction false} RootFirst<T(!new)>(after: Order<T>, s: seq<Slot<T>>, i: nat)
    requires Weak(after) && Ordered(after, s) && i < |s|
    ensures !after(s[0].item, s[i].item)
  {
    if i > 0 {
      RootFirst(after, s, Parent(i));
      assert Fits(after, s, i);
    }
  }

  /** Appending to a heap leaves trouble at most at the new leaf. */
  lemma Appended<T>(after: Order<T>, s: seq<Slot<T>>, x: Slot<T>)
    requires Ordered(after, s)
    ensures LowAt(after, s + [x], |s|)
  {
    forall j: nat | 0 < j < |s| ensures Fits(after, s + [x], j) {
      assert Fits(after, s, j);
    }
  }

  /** Replacing slot `i` by the last element and dropping the last slot. */
  lemma Replaced<T(!new)>(after: Order<T>, s: seq<Slot<T>>, i: nat)
    requires Weak(after) && Ordered(after, s) && i < |s| - 1
    ensures ExceptAt(after, Swapped(s, i, |s| - 1)[..|s| - 1], i)
  {
    var t := Swapped(s, i, |s| - 1)[..|s| - 1];
    forall j: nat | 0 < j < |t| && j != i && Parent(j) != i ensures Fits(after, t, j) {
      assert Fits(after, s, j);
    }
    if i > 0 {
      assert Fits(after, s, i);
      forall c: nat | 0 < c < |t| && Parent(c) == i ensures !after(t[Parent(i)].item, t[c].item) {
        assert Fits(after, s, c);
      }
    }
  }

  lemma Shrunk<T>(after: Order<T>, s: seq<Slot<T>>)
    requires Ordered(after, s) && s != []
    ensures Ordered(after, s[..|s| - 1])
  {
    var t := s[..|s| - 1];
    forall j: nat | 0 < j < |t| ensures Fits(after, t, j) {
      assert Fits(after, s, j);
    }
  }
}
