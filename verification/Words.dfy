/**
 * Integer arithmetic shared by the models: powers of two, Euclidean division facts
 * and `&` with a power-of-two mask on 64-bit words.
 */
module Words {

  const WORD := 0x1_0000_0000_0000_0000

  function Pow2(k: nat): (r: nat)
    ensures r >= 1
  {
    if k == 0 then 1 else 2 * Pow2(k - 1)
  }

  ghost predicate PowerOfTwo(n: nat)
  {
    exists k: nat :: n == Pow2(k)
  }

  /** `x` on a 64-bit word. */
  function Wrap(x: int): (r: nat)
    ensures r < WORD
    decreases if x < 0 then WORD - x else x
  {
    if x < 0 then Wrap(x + WORD) else if x < WORD then x else Wrap(x - WORD)
  }

  /** The remainder of `x` by `size`, by repeated subtraction. */
  function Reduce(x: nat, size: nat): (r: nat)
    requires size > 0
    ensures r < size
  {
    if x < size then x else Reduce(x - size, size)
  }

  /**
   * `x & (size - 1)` for a power-of-two `size`, where `x` is computed on 64-bit words
   * and may have wrapped.
   */
  function Masked(x: int, size: nat): (r: nat)
    requires size > 0
    ensures r < size
  {
    Reduce(Wrap(x), size)
  }

  lemma MulGe(a: int, n: int)
    requires a >= 1 && n > 0
    ensures a * n >= n
  {
    if a > 1 { MulGe(a - 1, n); }
  }

  lemma Distribute(a: int, b: int, n: int)
    ensures (a - b) * n == a * n - b * n
    ensures (a + b) * n == a * n + b * n
  {
  }

  lemma DivMod(x: int, n: int)
    requires n > 0
    ensures x == (x / n) * n + x % n
  {
  }

  lemma ModUnique(x: int, n: int, q: int, r: int)
    requires n > 0 && x == q * n + r && 0 <= r < n
    ensures x % n == r && x / n == q
  {
    DivMod(x, n);
    var p := x / n;
    Distribute(p, q, n);
    Distribute(q, p, n);
    if p > q { MulGe(p - q, n); } else if p < q { MulGe(q - p, n); }
  }

  lemma {:induction false} WrapIsMod(x: int)
    ensures Wrap(x) == x % WORD
    decreases if x < 0 then WORD - x else x
  {
    if x < 0 {
      WrapIsMod(x + WORD);
      assert (x + WORD) % WORD == x % WORD;
    } else if x >= WORD {
      WrapIsMod(x - WORD);
      assert (x - WORD) % WORD == x % WORD;
    }
  }

  lemma {:induction false} ReduceIsMod(x: nat, size: nat)
    requires size > 0
    ensures Reduce(x, size) == x % size
  {
    if x < size {
      ModUnique(x, size, 0, x);
    } else {
      ReduceIsMod(x - size, size);
      DivMod(x - size, size);
      Distribute((x - size) / size, 1, size);
      ModUnique(x, size, (x - size) / size + 1, (x - size) % size);
    }
  }

  lemma {:induction false} Pow2Divides(a: nat, b: nat) returns (k: nat)
    requires Pow2(a) <= Pow2(b)
    ensures Pow2(b) == k * Pow2(a)
  {
    if b == 0 {
      k := 1;
    } else if a == 0 {
      k := Pow2(b);
    } else {
      k := Pow2Divides(a - 1, b - 1);
      var x := Pow2(a - 1);
      assert k * (2 * x) == 2 * (k * x);
    }
  }

  lemma ModMod(x: int, n: nat, k: nat)
    requires n > 0 && k * n > 0
    ensures (x % (k * n)) % n == x % n
  {
    var w := k * n;
    DivMod(x, w);
    var q, r := x / w, x % w;
    DivMod(r, n);
    assert q * w == (q * k) * n;
    Distribute(q * k, r / n, n);
    ModUnique(x, n, q * k + r / n, r % n);
  }

  lemma WordIsPow2()
    ensures WORD == Pow2(64)
  {
    Pow2Sum(4, 4);
    Pow2Sum(8, 8);
    Pow2Sum(16, 16);
    Pow2Sum(32, 32);
  }

  lemma {:induction false} Pow2Sum(a: nat, b: nat)
    ensures Pow2(a + b) == Pow2(a) * Pow2(b)
  {
    if a > 0 {
      Pow2Sum(a - 1, b);
      Doubled(Pow2(a - 1), Pow2(b));
    }
  }

  lemma Doubled(x: nat, y: nat)
    ensures (2 * x) * y == 2 * (x * y)
  {
  }

  /** Wrapping an intermediate result at 64 bits does not change the masked index. */
  lemma MaskedIsMod(x: int, size: nat)
    requires PowerOfTwo(size) && size <= WORD
    ensures Masked(x, size) == x % size
  {
    WordIsPow2();
    var a: nat :| size == Pow2(a);
    var k := Pow2Divides(a, 64);
    ModMod(x, size, k);
    WrapIsMod(x);
    ReduceIsMod(Wrap(x), size);
  }

  lemma ModPlus(x: int, k: nat, n: nat)
    requires k < n
    ensures (x + k) % n == if x % n + k < n then x % n + k else x % n + k - n
  {
    DivMod(x, n);
    var q, r := x / n, x % n;
    Distribute(q, 1, n);
    if r + k < n {
      ModUnique(x + k, n, q, r + k);
    } else {
      ModUnique(x + k, n, q + 1, r + k - n);
    }
  }

  lemma ModMinus(i: nat, x: int, n: nat)
    requires i < n
    ensures (i - x) % n == if x % n <= i then i - x % n else i + n - x % n
  {
    DivMod(x, n);
    var q, r := x / n, x % n;
    Distribute(-q, 1, n);
    Distribute(0, q, n);
    if r <= i {
      ModUnique(i - x, n, -q, i - r);
    } else {
      ModUnique(i - x, n, -q - 1, i + n - r);
    }
  }

  /** The masked index of `x + k`, for `k` up to one turn, from the masked index of `x`. */
  lemma MaskedPlus(x: int, k: nat, size: nat)
    requires PowerOfTwo(size) && size <= WORD && k < size
    ensures var r := Masked(x, size);
            Masked(x + k, size) == if r + k < size then r + k else r + k - size
  {
    MaskedIsMod(x + k, size);
    MaskedIsMod(x, size);
    ModPlus(x, k, size);
  }

  /** The masked difference of a slot index and a word. */
  lemma MaskedMinus(i: nat, x: int, size: nat)
    requires PowerOfTwo(size) && size <= WORD && i < size
    ensures var r := Masked(x, size);
            Masked(i - x, size) == if r <= i then i - r else i + size - r
  {
    MaskedIsMod(i - x, size);
    MaskedIsMod(x, size);
    ModMinus(i, x, size);
  }

  lemma MaskedSmall(i: nat, size: nat)
    requires PowerOfTwo(size) && size <= WORD && i < size
    ensures Masked(i, size) == i
  {
    MaskedIsMod(i, size);
    ModUnique(i, size, 0, i);
  }

  /** Masking a word is taking its remainder. */
  lemma MaskedIsReduce(x: nat, size: nat)
    requires PowerOfTwo(size) && size <= WORD
    ensures Masked(x, size) == Reduce(x, size)
  {
    MaskedIsMod(x, size);
    ReduceIsMod(x, size);
  }

  lemma DoublePower(n: nat)
    requires PowerOfTwo(n)
    ensures PowerOfTwo(2 * n) && n > 0
  {
    var k: nat :| n == Pow2(k);
    assert 2 * n == Pow2(k + 1);
  }
}
