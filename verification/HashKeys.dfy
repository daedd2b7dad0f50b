/**
 * Keys, hashing and the plain map that a bag of hash table entries stands for. Keys are
 * taken up to the caller's equality, so the map gives equal keys equal values.
 */
module HashKeys {
  import opened Basics
  import opened RobinHood

  /** A key is a pointer that may be null. */
  datatype Key<P> = Null | Ptr(p: P)

  /** The caller's `hash_fn` and `equals_fn`, with the null handling put around them. */
  datatype Hashing<!P(==, !new)> = Hashing(hashFn: P -> nat, equalsFn: (P, P) -> bool) {

    /** What the table asks of its callers: an equivalence, respected by the hash. */
    ghost predicate Lawful()
    {
      && (forall a :: equalsFn(a, a))
      && (forall a, b :: equalsFn(a, b) ==> equalsFn(b, a) && hashFn(a) == hashFn(b))
      && (forall a, b, c :: equalsFn(a, b) && equalsFn(b, c) ==> equalsFn(a, c))
    }

    function HashFor(k: Key<P>): (h: nat)
      ensures h != 0
    {
      match k
      case Null => 42
      case Ptr(p) => if hashFn(p) == 0 then 1 else hashFn(p)
    }

    predicate Same(a: Key<P>, b: Key<P>)
    {
      a == b || (a.Ptr? && b.Ptr? && equalsFn(a.p, b.p))
    }

    /** Every entry is stored under its hash code and no two entries share a key. */
    ghost predicate Keyed<V>(b: multiset<Entry<Key<P>, V>>)
    {
      && (forall e | e in b :: e.Used? && e.hash == HashFor(e.key) && b[e] == 1)
      && (forall e, f {:trigger Same(e.key, f.key), b[e], b[f]} | e in b && f in b && Same(e.key, f.key) :: e == f)
    }

    ghost predicate Has<V>(b: multiset<Entry<Key<P>, V>>, k: Key<P>)
    {
      exists e :: e in b && e.Used? && Same(k, e.key)
    }

    ghost function Holder<V>(b: multiset<Entry<Key<P>, V>>, k: Key<P>): (e: Entry<Key<P>, V>)
      requires Has(b, k)
      ensures e in b && e.Used? && Same(k, e.key)
    {
      var e :| e in b && e.Used? && Same(k, e.key);
      e
    }

    /** The plain map that the table stands for; equal keys have equal images. */
    ghost function AsMap<V>(b: multiset<Entry<Key<P>, V>>): imap<Key<P>, V>
    {
      imap k | Has(b, k) :: Holder(b, k).value
    }

    /** The plain map with every key equal to `k` set to `v`. */
    ghost function Assign<V>(m: imap<Key<P>, V>, k: Key<P>, v: V): imap<Key<P>, V>
    {
      imap x: Key<P> | x in m || Same(x, k) :: if Same(x, k) then v else m[x]
    }

    /** The plain map without the keys equal to `k`. */
    ghost function Forget<V>(m: imap<Key<P>, V>, k: Key<P>): imap<Key<P>, V>
    {
      imap x | x in m && !Same(x, k) :: m[x]
    }

    lemma SameIsEquivalence(a: Key<P>, b: Key<P>, c: Key<P>)
      requires Lawful()
      ensures Same(a, a)
      ensures Same(a, b) ==> Same(b, a) && HashFor(a) == HashFor(b)
      ensures Same(a, b) && Same(b, c) ==> Same(a, c)
    {
    }

    lemma HolderUnique<V>(b: multiset<Entry<Key<P>, V>>, k: Key<P>, e: Entry<Key<P>, V>)
      requires Lawful() && Keyed(b) && e in b && Same(k, e.key)
      ensures Has(b, k) && Holder(b, k) == e
    {
      var h := Holder(b, k);
      SameIsEquivalence(k, h.key, e.key);
      SameIsEquivalence(h.key, k, e.key);
    }

    /** Two bags that differ by one entry, seen by membership. */
    ghost predicate Extends<V>(b: multiset<Entry<Key<P>, V>>, e: Entry<Key<P>, V>, b': multiset<Entry<Key<P>, V>>)
    {
      && e.Used? && e !in b && e in b'
      && (forall f | f in b' :: f in b || f == e)
      && (forall f | f in b :: f in b')
    }

    lemma ExtendedHas<V>(b: multiset<Entry<Key<P>, V>>, e: Entry<Key<P>, V>, b': multiset<Entry<Key<P>, V>>, k: Key<P>)
      requires Extends(b, e, b')
      ensures Has(b', k) <==> Has(b, k) || Same(k, e.key)
    {
      if Has(b, k) {
        assert Holder(b, k) in b';
      } else if Has(b', k) {
        assert Holder(b', k) == e;
      }
    }

    lemma ExtendedAt<V>(b: multiset<Entry<Key<P>, V>>, e: Entry<Key<P>, V>, b': multiset<Entry<Key<P>, V>>, k: Key<P>)
      requires Lawful() && Keyed(b') && Extends(b, e, b')
      ensures Has(b', k) <==> Has(b, k) || Same(k, e.key)
      ensures Has(b, k) ==> !Same(k, e.key) && Holder(b', k) == Holder(b, k)
      ensures Same(k, e.key) ==> Holder(b', k) == e
    {
      ExtendedHas(b, e, b', k);
      if Same(k, e.key) {
        HolderUnique(b', k, e);
      }
      if Has(b, k) {
        HolderUnique(b', k, Holder(b, k));
      }
    }

    lemma ExtendedPoint<V>(b: multiset<Entry<Key<P>, V>>, e: Entry<Key<P>, V>, b': multiset<Entry<Key<P>, V>>, k: Key<P>)
      requires Lawful() && Keyed(b') && Extends(b, e, b')
      ensures k in AsMap(b') <==> k in AsMap(b) || Same(k, e.key)
      ensures Same(k, e.key) ==> AsMap(b')[k] == e.value && k !in AsMap(b)
      ensures k in AsMap(b) ==> AsMap(b')[k] == AsMap(b)[k]
    {
      ExtendedAt(b, e, b', k);
    }

    lemma AssignedAndForgotten<V>(m: imap<Key<P>, V>, m': imap<Key<P>, V>, k0: Key<P>, v: V)
      requires forall k :: k in m' <==> k in m || Same(k, k0)
      requires forall k | Same(k, k0) :: k !in m && m'[k] == v
      requires forall k | k in m :: k in m' && m'[k] == m[k]
      ensures m' == Assign(m, k0, v) && m == Forget(m', k0)
    {
    }

    /** If `b'` is `b` with `e` added under a fresh key, its map is that of `b` with one assignment. */
    lemma ExtendedMap<V>(b: multiset<Entry<Key<P>, V>>, e: Entry<Key<P>, V>, b': multiset<Entry<Key<P>, V>>)
      requires Lawful() && Keyed(b') && Extends(b, e, b')
      ensures AsMap(b') == Assign(AsMap(b), e.key, e.value)
      ensures AsMap(b) == Forget(AsMap(b'), e.key)
    {
      var m, m' := AsMap(b), AsMap(b');
      forall k: Key<P>
        ensures k in m' <==> k in m || Same(k, e.key)
        ensures Same(k, e.key) ==> k !in m && m'[k] == e.value
        ensures k in m ==> m'[k] == m[k]
      {
        ExtendedPoint(b, e, b', k);
      }
      AssignedAndForgotten(m, m', e.key, e.value);
    }

    lemma AddKeyed<V>(b: multiset<Entry<Key<P>, V>>, e: Entry<Key<P>, V>)
      requires Lawful() && Keyed(b) && e.Used? && e.hash == HashFor(e.key) && !Has(b, e.key)
      ensures Keyed(b + multiset{e}) && Extends(b, e, b + multiset{e})
    {
      SameIsEquivalence(e.key, e.key, e.key);
      assert e !in b;
      forall f | f in b ensures !Same(e.key, f.key) && !Same(f.key, e.key) {
        SameIsEquivalence(f.key, e.key, f.key);
      }
    }

    /** Adding an entry under a fresh key assigns in the map. */
    lemma AddAssigns<V>(b: multiset<Entry<Key<P>, V>>, e: Entry<Key<P>, V>)
      requires Lawful() && Keyed(b) && e.Used? && e.hash == HashFor(e.key) && !Has(b, e.key)
      ensures Keyed(b + multiset{e})
      ensures AsMap(b + multiset{e}) == Assign(AsMap(b), e.key, e.value)
    {
      AddKeyed(b, e);
      ExtendedMap(b, e, b + multiset{e});
    }

    lemma DropKeyed<V>(b: multiset<Entry<Key<P>, V>>, e: Entry<Key<P>, V>)
      requires Keyed(b) && e in b
      ensures Keyed(b - multiset{e})
    {
    }

    /** Taking out an entry forgets its key in the map. */
    lemma DropForgets<V>(b: multiset<Entry<Key<P>, V>>, e: Entry<Key<P>, V>)
      requires Lawful() && Keyed(b) && e in b
      ensures Keyed(b - multiset{e}) && !Has(b - multiset{e}, e.key)
      ensures AsMap(b - multiset{e}) == Forget(AsMap(b), e.key)
    {
      var b' := b - multiset{e};
      assert Extends(b', e, b);
      ExtendedMap(b', e, b);
      assert e.key !in AsMap(b') by { SameIsEquivalence(e.key, e.key, e.key); }
    }

    /** Replacing the entry under an equal key assigns in the map. */
    lemma ReplaceAssigns<V>(b: multiset<Entry<Key<P>, V>>, e: Entry<Key<P>, V>, e': Entry<Key<P>, V>)
      requires Lawful() && Keyed(b) && e in b && e'.Used? && e'.hash == e.hash && Same(e'.key, e.key)
      ensures Keyed(b - multiset{e} + multiset{e'})
      ensures AsMap(b - multiset{e} + multiset{e'}) == Assign(AsMap(b), e'.key, e'.value)
    {
      var c := b - multiset{e};
      DropForgets(b, e);
      SameIsEquivalence(e'.key, e.key, e'.key);
      FreshTwin(c, e.key, e'.key);
      AddAssigns(c, e');
      AssignOver(AsMap(b), e.key, e'.key, e'.value);
    }

    lemma FreshTwin<V>(b: multiset<Entry<Key<P>, V>>, k: Key<P>, k': Key<P>)
      requires Lawful() && Same(k', k) && !Has(b, k)
      ensures !Has(b, k')
    {
      if Has(b, k') {
        var e := Holder(b, k');
        SameIsEquivalence(k', k, e.key);
        SameIsEquivalence(k, k', e.key);
      }
    }

    lemma AssignOver<V>(m: imap<Key<P>, V>, k: Key<P>, k': Key<P>, v: V)
      requires Lawful() && Same(k', k)
      ensures Assign(Forget(m, k), k', v) == Assign(m, k', v)
    {
      forall x ensures Same(x, k) <==> Same(x, k') {
        SameIsEquivalence(x, k', k);
        SameIsEquivalence(x, k, k');
        SameIsEquivalence(k', k, x);
      }
    }

    lemma AssignTwice<V>(m: imap<Key<P>, V>, k: Key<P>, u: V, v: V)
      ensures Assign(Assign(m, k, u), k, v) == Assign(m, k, v)
    {
    }

    lemma ForgetAbsent<V>(b: multiset<Entry<Key<P>, V>>, k: Key<P>)
      requires Lawful() && !Has(b, k)
      ensures Forget(AsMap(b), k) == AsMap(b)
    {
      forall x | x in AsMap(b) ensures !Same(x, k) {
        if Same(x, k) {
          FreshTwin(b, k, x);
        }
      }
    }

    lemma ForgetSame<V>(m: imap<Key<P>, V>, k: Key<P>, k': Key<P>)
      requires Lawful() && Same(k', k)
      ensures Forget(m, k) == Forget(m, k')
    {
      forall x ensures Same(x, k) <==> Same(x, k') {
        SameIsEquivalence(x, k', k);
        SameIsEquivalence(x, k, k');
        SameIsEquivalence(k', k, x);
      }
    }

    lemma ReplaceKeyed<V>(b: multiset<Entry<Key<P>, V>>, e: Entry<Key<P>, V>, e': Entry<Key<P>, V>)
      requires Lawful() && Keyed(b) && e in b && e'.Used? && e'.hash == e.hash && Same(e'.key, e.key)
      ensures Keyed(b - multiset{e} + multiset{e'})
    {
      ReplaceAssigns(b, e, e');
    }

    /** Create an element if the key is new, then write it: the map gets one assignment. */
    lemma CreateThenWrite<V>(b: multiset<Entry<Key<P>, V>>, created: bool, e: Entry<Key<P>, V>, e': Entry<Key<P>, V>)
      requires Lawful() && Keyed(b) && e.Used? && e.hash == HashFor(e.key)
      requires e'.Used? && e'.hash == e.hash && Same(e'.key, e.key)
      requires if created then !Has(b, e.key) && e'.key == e.key else e in b
      ensures var b1 := if created then b + multiset{e} else b;
              AsMap(b1 - multiset{e} + multiset{e'}) == Assign(AsMap(b), e'.key, e'.value)
    {
      if created {
        AddAssigns(b, e);
        ReplaceAssigns(b + multiset{e}, e, e');
        AssignTwice(AsMap(b), e.key, e.value, e'.value);
      } else {
        ReplaceAssigns(b, e, e');
      }
    }

    // --- by the caller's equality --------------------------------------------------------

    /** What a map answers for a key. */
    ghost function Lookup<V>(m: imap<Key<P>, V>, k: Key<P>): Option<V>
    {
      if k in m then Some(m[k]) else None
    }

    /** A put is seen under exactly the pointers that the caller's function calls equal to its own. */
    lemma AssignByEquality<V>(m: imap<Key<P>, V>, p: P, v: V, q: P)
      requires Lawful()
      ensures var m' := Assign(m, Ptr(p), v);
        && Lookup(m', Ptr(q)) == (if equalsFn(q, p) then Some(v) else Lookup(m, Ptr(q)))
        && Lookup(m', Null) == Lookup(m, Null)
    {
    }

    /** The null key is a key of its own. */
    lemma AssignNull<V>(m: imap<Key<P>, V>, v: V, q: P)
      ensures var m' := Assign(m, Null, v); Lookup(m', Null) == Some(v) && Lookup(m', Ptr(q)) == Lookup(m, Ptr(q))
    {
    }

    /** A removal likewise. */
    lemma ForgetByEquality<V>(m: imap<Key<P>, V>, p: P, q: P)
      requires Lawful()
      ensures var m' := Forget(m, Ptr(p));
        && Lookup(m', Ptr(q)) == (if equalsFn(q, p) then None else Lookup(m, Ptr(q)))
        && Lookup(m', Null) == Lookup(m, Null)
    {
    }

    lemma ForgetNull<V>(m: imap<Key<P>, V>, q: P)
      ensures var m' := Forget(m, Null); Lookup(m', Null) == None && Lookup(m', Ptr(q)) == Lookup(m, Ptr(q))
    {
    }

    /** A table finds a pointer exactly when it holds an element whose key the caller calls equal, and answers its value. */
    lemma FoundByEquality<V>(b: multiset<Entry<Key<P>, V>>, q: P, v: V)
      requires Lawful() && Keyed(b)
      ensures Lookup(AsMap(b), Ptr(q)) == Some(v) <==>
        exists e :: e in b && e.Used? && e.key.Ptr? && equalsFn(q, e.key.p) && e.value == v
    {
      if Lookup(AsMap(b), Ptr(q)) == Some(v) {
        var e := Holder(b, Ptr(q));
        assert e in b && e.Used? && e.key.Ptr? && equalsFn(q, e.key.p) && e.value == v;
      }
      if e :| e in b && e.Used? && e.key.Ptr? && equalsFn(q, e.key.p) && e.value == v {
        HolderUnique(b, Ptr(q), e);
      }
    }
  }
}
