/**
 * Rounding up to a power of two by smearing the top bit to the right, as
 * `aws_round_up_to_power_of_two`, `rawr_Util_NextPowerOf2` and
 * `mn_queue_spsc_setup` all do it.
 */
module Bits {
  import opened Words

  /** Bitwise or of two naturals. */
  function Or(a: nat, b: nat): (r: nat)
    decreases a + b
  {
    if a == 0 && b == 0 then 0
    else 2 * Or(a / 2, b / 2) + (if a % 2 == 1 || b % 2 == 1 then 1 else 0)
  }

  function Shr(x: nat, k: nat): (r: nat)
  {
    if k == 0 then x else Shr(x / 2, k - 1)
  }

  predicate Bit(x: nat, i: nat)
  {
    if i == 0 then x % 2 == 1 else Bit(x / 2, i - 1)
  }

  lemma {:induction false} OrBit(a: nat, b: nat, i: nat)
    ensures Bit(Or(a, b), i) <==> Bit(a, i) || Bit(b, i)
    decreases i
  {
    if i > 0 {
      OrBit(a / 2, b / 2, i - 1);
    }
    if a == 0 && b == 0 {
    } else {
      assert Or(a, b) / 2 == Or(a / 2, b / 2);
    }
  }

  lemma {:induction false} ShrBit(x: nat, k: nat, i: nat)
    ensures Bit(Shr(x, k), i) <==> Bit(x, i + k)
  {
    if k > 0 {
      ShrBit(x / 2, k - 1, i);
    }
  }

  lemma {:induction false} OrBound(a: nat, b: nat, t: nat)
    requires a < Pow2(t) && b < Pow2(t)
    ensures Or(a, b) < Pow2(t)
  {
    if t > 0 {
      OrBound(a / 2, b / 2, t - 1);
    }
  }

  lemma {:induction false} ShrBound(x: nat, k: nat)
    ensures Shr(x, k) <= x
  {
    if k > 0 {
      ShrBound(x / 2, k - 1);
    }
  }

  /** The position of the top set bit. */
  lemma {:induction false} TopBit(x: nat) returns (t: nat)
    requires x > 0
    ensures Pow2(t) <= x < Pow2(t + 1) && Bit(x, t)
  {
    if x == 1 {
      t := 0;
    } else {
      var u := TopBit(x / 2);
      t := u + 1;
    }
  }

  lemma {:induction false} AllOnes(x: nat, t: nat)
    requires x < Pow2(t) && forall i: nat | i < t :: Bit(x, i)
    ensures x == Pow2(t) - 1
  {
    if t > 0 {
      assert Bit(x, 0);
      forall i: nat | i < t - 1 ensures Bit(x / 2, i) {
        assert Bit(x, i + 1);
      }
      AllOnes(x / 2, t - 1);
    }
  }

  /** One smear step: `x |= x >> k`. */
  function Smear(x: nat, k: nat): (r: nat)
  {
    Or(x, Shr(x, k))
  }

  /** The `m` bits from `t` down are set, and nothing above. */
  ghost predicate Ones(x: nat, t: nat, m: nat)
  {
    x < Pow2(t + 1) && forall i: nat | i <= t && i + m > t :: Bit(x, i)
  }

  lemma SmearDoubles(x: nat, t: nat, k: nat)
    requires Ones(x, t, k)
    ensures Ones(Smear(x, k), t, 2 * k)
  {
    ShrBound(x, k);
    OrBound(x, Shr(x, k), t + 1);
    forall i: nat | i <= t && i + 2 * k > t ensures Bit(Smear(x, k), i) {
      OrBit(x, Shr(x, k), i);
      ShrBit(x, k, i);
    }
  }

  function Smear32(v: nat): (r: nat)
  {
    Smear(Smear(Smear(Smear(Smear(v, 1), 2), 4), 8), 16)
  }

  function Smear64(v: nat): (r: nat)
  {
    Smear(Smear32(v), 32)
  }

  /** `val--`, five smears, `++val` on 32-bit words. */
  function NextPowerOf2(val: nat): (r: nat)
    requires val < 0x1_0000_0000
  {
    var v := if val == 0 then 0xFFFF_FFFF else val - 1;
    (Smear32(v) + 1) % 0x1_0000_0000
  }

  /** The 64-bit form, where `n` is not 0; callers guard it. */
  function RoundUp(n: nat): (r: nat)
    requires 1 <= n < WORD
  {
    (Smear64(n - 1) + 1) % WORD
  }

  /** The least power of two that is at least `n`. */
  ghost predicate LeastPowerAbove(r: nat, n: nat)
  {
    PowerOfTwo(r) && n <= r && (r == 1 || r < 2 * n)
  }

  lemma SmearOnes(v: nat, t: nat)
    requires Ones(v, t, 1)
    ensures Ones(Smear32(v), t, 32)
  {
    SmearDoubles(v, t, 1);
    var a := Smear(v, 1);
    SmearDoubles(a, t, 2);
    var b := Smear(a, 2);
    SmearDoubles(b, t, 4);
    var c := Smear(b, 4);
    SmearDoubles(c, t, 8);
    var d := Smear(c, 8);
    SmearDoubles(d, t, 16);
  }

  lemma OnesIsPower(y: nat, t: nat, m: nat)
    requires Ones(y, t, m) && t < m
    ensures y + 1 == Pow2(t + 1)
  {
    AllOnes(y, t + 1);
  }

  lemma {:induction false} Pow2Less(a: nat, b: nat)
    requires Pow2(a) < Pow2(b)
    ensures a < b
  {
    if a > 0 && b > 0 {
      Pow2Less(a - 1, b - 1);
    }
  }

  lemma {:induction false} Pow2Mono(a: nat, b: nat)
    requires a <= b
    ensures Pow2(a) <= Pow2(b)
  {
    if a < b {
      Pow2Mono(a, b - 1);
    }
  }

  /** Powers of two less than a factor of two apart are equal. */
  lemma PowersApart(p: nat, q: nat)
    requires PowerOfTwo(p) && PowerOfTwo(q) && p <= q < 2 * p
    ensures p == q
  {
    var a: nat :| p == Pow2(a);
    var b: nat :| q == Pow2(b);
    if p < q {
      Pow2Less(a, b);
      Pow2Mono(a + 1, b);
    }
  }

  lemma SmearZero(k: nat)
    ensures Smear(0, k) == 0
  {
    ShrBound(0, k);
  }

  lemma Smear32Zero()
    ensures Smear32(0) == 0
  {
    SmearZero(1);
    SmearZero(2);
    SmearZero(4);
    SmearZero(8);
    SmearZero(16);
  }

  /** Smearing the predecessor of `n` gives the predecessor of the least power of two above `n`. */
  lemma SmearCorrect(n: nat, width: nat) returns (t: nat)
    requires 1 < n <= Pow2(width)
    ensures t < width && Pow2(t) < n <= Pow2(t + 1) <= Pow2(width)
    ensures width == 31 ==> Smear32(n - 1) + 1 == Pow2(t + 1)
    ensures width == 63 ==> Smear64(n - 1) + 1 == Pow2(t + 1)
  {
    t := TopBit(n - 1);
    Pow2Less(t, width);
    Pow2Mono(t + 1, width);
    SmearOnes(n - 1, t);
    if width == 31 {
      OnesIsPower(Smear32(n - 1), t, 32);
    } else if width == 63 {
      SmearDoubles(Smear32(n - 1), t, 32);
      OnesIsPower(Smear64(n - 1), t, 64);
    }
  }

  lemma NextPowerOf2Correct(val: nat)
    requires 1 <= val <= 0x8000_0000
    ensures LeastPowerAbove(NextPowerOf2(val), val)
  {
    if val == 1 {
      Smear32Zero();
      assert NextPowerOf2(val) == Pow2(0);
    } else {
      var w: nat := 31;
      HalfWordAt(w);
      var t := SmearCorrect(val, w);
      WithinWord(Smear32(val - 1) + 1, 0x1_0000_0000);
      assert NextPowerOf2(val) == Pow2(t + 1);
    }
  }

  lemma Pow2Succ(k: nat)
    ensures Pow2(k + 1) == 2 * Pow2(k)
  {
  }

  lemma HalfWord()
    ensures Pow2(31) == 0x8000_0000 && Pow2(63) == 0x8000_0000_0000_0000
  {
    HalfWord32();
    WordIsPow2();
    Pow2Succ(63);
  }

  lemma HalfWordAt(w: nat)
    requires w == 31 || w == 63
    ensures Pow2(w) == if w == 31 then 0x8000_0000 else 0x8000_0000_0000_0000
  {
    HalfWord();
  }

  lemma WithinWord(x: nat, m: nat)
    requires x < m
    ensures x % m == x
  {
  }

  lemma HalfWord32()
    ensures Pow2(31) == 0x8000_0000
  {
    Pow2Sum(4, 4);
    Pow2Sum(8, 8);
    Pow2Sum(16, 16);
    Pow2Succ(31);
  }

  lemma RoundUpCorrect(n: nat)
    requires 1 <= n <= 0x8000_0000_0000_0000
    ensures LeastPowerAbove(RoundUp(n), n)
    ensures RoundUp(n) <= 0x8000_0000_0000_0000
  {
    if n == 1 {
      Smear32Zero();
      SmearZero(32);
      assert RoundUp(n) == Pow2(0);
    } else {
      var w: nat := 63;
      HalfWordAt(w);
      var t := SmearCorrect(n, w);
      WithinWord(Smear64(n - 1) + 1, WORD);
      assert RoundUp(n) == Pow2(t + 1);
    }
  }

  /** Bitwise and of two naturals. */
  function And(a: nat, b: nat): (r: nat)
    decreases a + b
  {
    if a == 0 || b == 0 then 0
    else 2 * And(a / 2, b / 2) + (if a % 2 == 1 && b % 2 == 1 then 1 else 0)
  }

  /** The test `((n - 1) & n) == 0` on 64-bit words. */
  predicate InitializeAccepts(n: nat)
    requires n < WORD
  {
    And(if n == 0 then WORD - 1 else n - 1, n) == 0
  }

  lemma {:induction false} AndSelf(n: nat)
    ensures And(n, n) == n
  {
    if n > 0 {
      AndSelf(n / 2);
    }
  }

  /** The test tells the powers of two, and lets 0 through. */
  lemma {:induction false} AcceptsPowers(n: nat)
    requires n < WORD
    ensures InitializeAccepts(n) <==> n == 0 || PowerOfTwo(n)
    decreases n
  {
    if n == 1 {
      assert n == Pow2(0);
    } else if n % 2 == 1 {
      AndSelf(n / 2);
      assert (n - 1) / 2 == n / 2;
      assert n > 1 ==> And(n - 1, n) == 2 * (n / 2);
      forall k: nat | k > 0 ensures n != Pow2(k) {
      }
    } else if n > 0 {
      AcceptsPowers(n / 2);
      assert (n - 1) / 2 == n / 2 - 1;
      assert And(n - 1, n) == 2 * And(n / 2 - 1, n / 2);
      if PowerOfTwo(n / 2) {
        var k: nat :| n / 2 == Pow2(k);
        assert n == Pow2(k + 1);
      }
      if PowerOfTwo(n) {
        var k: nat :| n == Pow2(k);
        assert n / 2 == Pow2(k - 1);
      }
    }
  }
}
