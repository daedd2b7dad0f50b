/**
 * Index arithmetic of power-of-two rings: positions in an endless stream against the
 * masked words and slots that stand for them.
 */
module RingIndex {
  import opened Words

  /** The slot of stream position `k` in a ring of `n` slots. */
  function Place(k: nat, n: nat): (r: nat)
    requires n > 0
    ensures r < n
  {
    Reduce(k, n)
  }

  lemma {:induction false} PlacePlus(k: nat, d: nat, n: nat)
    requires d < n
    ensures var r := Place(k, n); Place(k + d, n) == if r + d < n then r + d else r + d - n
    decreases k
  {
    if k >= n {
      PlacePlus(k - n, d, n);
    } else if k + d >= n {
      assert Reduce(k + d - n, n) == k + d - n;
    }
  }

  /** Positions less than a turn apart have different slots. */
  lemma PlacesApart(k: nat, l: nat, n: nat)
    requires k < l < k + n
    ensures Place(k, n) != Place(l, n)
  {
    PlacePlus(k, l - k, n);
  }

  /** `index & smallMask` from an index that counts modulo two turns. */
  lemma {:induction false} PlaceOfIndex(k: nat, n: nat)
    requires n > 0
    ensures Place(Place(k, 2 * n), n) == Place(k, n)
    decreases k
  {
    if k >= 2 * n {
      PlaceOfIndex(k - 2 * n, n);
      assert Reduce(k, n) == Reduce(k - n, n) == Reduce(k - 2 * n, n);
    }
  }

  /** `(w - r) & bigMask` from masked `w` and `r`. */
  lemma Difference(r: nat, w: nat, m: nat)
    requires PowerOfTwo(m) && m <= WORD && r <= w < r + m
    ensures Masked(Place(w, m) - Place(r, m), m) == w - r
  {
    PlacePlus(r, w - r, m);
    MaskedMinus(Place(w, m), Place(r, m), m);
    MaskedSmall(Place(r, m), m);
  }

  /** `(index + count) & bigMask`. */
  lemma Advanced(k: nat, d: nat, m: nat)
    requires PowerOfTwo(m) && m <= WORD && d < m
    ensures Masked(Place(k, m) + d, m) == Place(k + d, m)
  {
    PlacePlus(k, d, m);
    MaskedPlus(Place(k, m), d, m);
    MaskedSmall(Place(k, m), m);
  }

  lemma MaskedPlace(k: nat, n: nat)
    requires PowerOfTwo(n) && n <= WORD
    ensures Masked(k, n) == Place(k, n)
  {
    MaskedIsReduce(k, n);
  }
}
