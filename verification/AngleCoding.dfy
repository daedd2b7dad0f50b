/**
 * Coding of the CELT split angle: the resolution `compute_qn`, the triangular model and
 * its integer-square-root decoder (section 4.3.4.3 of RFC 6716).
 */
module AngleCoding {
  import opened Basics
  import opened Words
  import opened Bits

  const BITRES_UNIT := 8
  const EXP2_TABLE: seq<nat> := [16384, 17866, 19483, 21247, 23170, 25267, 27554, 30048]

  /** C division: truncation toward zero. */
  function CDiv(n: int, d: nat): int
    requires d > 0
  {
    if n >= 0 then n / d else -((-n) / d)
  }

  /** `x >> k` for a small literal shift. */
  function Shift(x: nat, k: nat): nat
  {
    if k == 0 then x else Shift(x / 2, k - 1)
  }

  /** The table lookup at the end of `compute_qn`, for `qb` in eighths of a bit. */
  function QnFor(qb: int): (qn: nat)
    requires qb <= 64
  {
    if qb < 4 then 1
    else
      var q := Shift(EXP2_TABLE[qb % 8], 14 - qb / 8);
      (q + 1) / 2 * 2
  }

  lemma {:induction false} ShiftBounds(x: nat, k: nat, m: nat)
    requires Pow2(m) <= x < Pow2(m + 1) && k <= m
    ensures Pow2(m - k) <= Shift(x, k) < Pow2(m - k + 1)
  {
    if k > 0 {
      ShiftBounds(x / 2, k - 1, m - 1);
    }
  }

  lemma {:induction false} ShiftPower(k: nat, m: nat)
    requires k <= m
    ensures Shift(Pow2(m), k) == Pow2(m - k)
  {
    if k > 0 {
      assert Pow2(m) / 2 == Pow2(m - 1);
      ShiftPower(k - 1, m - 1);
    }
  }

  lemma Powers()
    ensures Pow2(14) == 16384 && Pow2(15) == 32768 && Pow2(1) == 2 && Pow2(8) == 256
  {
    assert Pow2(7) == 128;
    Pow2Sum(7, 7);
  }

  /** The resolution is 1 or an even number from 2 to 256. */
  lemma QnIsEven(qb: int)
    requires qb <= 64
    ensures QnFor(qb) == 1 || (QnFor(qb) % 2 == 0 && 2 <= QnFor(qb) <= 256)
  {
    if qb == 64 {
      Powers();
      ShiftPower(6, 14);
    } else if qb >= 4 {
      TableShift(EXP2_TABLE[qb % 8], qb / 8);
    }
  }

  // --- the resolution as a power of two ----------------------------------------------------

  /** `x` to the power of `n`. */
  function Power(x: nat, n: nat): nat
  {
    if n == 0 then 1 else x * Power(x, n - 1)
  }

  lemma {:induction false} PowerMono(a: nat, b: nat, n: nat)
    requires a <= b
    ensures Power(a, n) <= Power(b, n)
  {
    if n > 0 {
      PowerMono(a, b, n - 1);
      MulMono(a, b, Power(a, n - 1));
      MulMono(Power(a, n - 1), Power(b, n - 1), b);
    }
  }

  lemma {:induction false} PowerProduct(a: nat, b: nat, n: nat)
    ensures Power(a * b, n) == Power(a, n) * Power(b, n)
  {
    if n > 0 {
      PowerProduct(a, b, n - 1);
      Regroup(a, b, Power(a, n - 1), Power(b, n - 1));
    }
  }

  lemma Regroup(a: nat, b: nat, c: nat, d: nat)
    ensures (a * b) * (c * d) == (a * c) * (b * d)
  {
  }

  lemma {:induction false} PowerOfPower(m: nat, n: nat)
    ensures Power(Pow2(m), n) == Pow2(n * m)
  {
    if n > 0 {
      PowerOfPower(m, n - 1);
      Distribute(n - 1, 1, m);
      Pow2Sum(m, (n - 1) * m);
    }
  }

  lemma {:induction false} PowerPositive(e: nat, n: nat)
    requires e > 0
    ensures Power(e, n) > 0
  {
    if n > 0 {
      PowerPositive(e, n - 1);
      MulGe(Power(e, n - 1), e);
    }
  }

  /** The table holds the powers of two from 2^14 on in steps of an eighth, rounded down. */
  lemma TableIsExp2(k: nat, n: nat)
    requires k < 8 && n == BITRES_UNIT
    ensures Power(EXP2_TABLE[k], n) <= Pow2(14 * n + k) < Power(EXP2_TABLE[k] + 1, n)
  {
    var w: nat := 112;
    Pow2Of112(w);
    Pow2Sum(w, k);
    SmallPower(k);
    if k < 4 {
      LowTable(k);
    } else {
      HighTable(k);
    }
  }

  lemma LowTable(k: nat)
    requires k < 4
    ensures var y := 0x1_0000_0000_0000_0000_0000_0000_0000 * [1, 2, 4, 8, 16, 32, 64, 128][k];
            Power(EXP2_TABLE[k], 8) <= y < Power(EXP2_TABLE[k] + 1, 8)
  {
    match k
    case 0 => assert Power(16384, 8) <= 0x1_0000_0000_0000_0000_0000_0000_0000 < Power(16385, 8);
    case 1 => assert Power(17866, 8) <= 0x2_0000_0000_0000_0000_0000_0000_0000 < Power(17867, 8);
    case 2 => assert Power(19483, 8) <= 0x4_0000_0000_0000_0000_0000_0000_0000 < Power(19484, 8);
    case 3 => assert Power(21247, 8) <= 0x8_0000_0000_0000_0000_0000_0000_0000 < Power(21248, 8);
  }

  lemma HighTable(k: nat)
    requires 4 <= k < 8
    ensures var y := 0x1_0000_0000_0000_0000_0000_0000_0000 * [1, 2, 4, 8, 16, 32, 64, 128][k];
            Power(EXP2_TABLE[k], 8) <= y < Power(EXP2_TABLE[k] + 1, 8)
  {
    match k
    case 4 => assert Power(23170, 8) <= 0x10_0000_0000_0000_0000_0000_0000_0000 < Power(23171, 8);
    case 5 => assert Power(25267, 8) <= 0x20_0000_0000_0000_0000_0000_0000_0000 < Power(25268, 8);
    case 6 => assert Power(27554, 8) <= 0x40_0000_0000_0000_0000_0000_0000_0000 < Power(27555, 8);
    case 7 => assert Power(30048, 8) <= 0x80_0000_0000_0000_0000_0000_0000_0000 < Power(30049, 8);
  }

  lemma SmallPower(k: nat)
    requires k < 8
    ensures Pow2(k) == [1, 2, 4, 8, 16, 32, 64, 128][k]
  {
  }

  lemma Pow2Of112(w: nat)
    requires w == 112
    ensures Pow2(w) == 0x1_0000_0000_0000_0000_0000_0000_0000
  {
    var a: nat, b: nat, c: nat := 64, 32, 16;
    WordIsPow2();
    Pow2Of16(c);
    Pow2Sum(c, c);
    assert b == c + c;
    Pow2Sum(a, b);
    Pow2Sum(a + b, c);
  }

  lemma Pow2Of16(c: nat)
    requires c == 16
    ensures Pow2(c) == 0x1_0000
  {
    var d: nat := 8;
    Powers();
    assert Pow2(d) == 256;
    Pow2Sum(d, d);
  }

  lemma {:induction false} ShiftIsQuotient(x: nat, k: nat)
    ensures Shift(x, k) * Pow2(k) <= x < (Shift(x, k) + 1) * Pow2(k)
  {
    if k > 0 {
      ShiftIsQuotient(x / 2, k - 1);
      HalfBounds(x, Shift(x, k), Pow2(k - 1));
    }
  }

  lemma HalfBounds(x: nat, q: nat, p: nat)
    requires q * p <= x / 2 < (q + 1) * p
    ensures q * (2 * p) <= x < (q + 1) * (2 * p)
  {
    var a, b := q * p, (q + 1) * p;
    assert q * (2 * p) == 2 * a;
    assert (q + 1) * (2 * p) == 2 * b;
  }

  /** Two to the power of `qb / n` lies between the neighbours of `qn`. */
  ghost predicate Nearest(qn: nat, qb: nat, n: nat)
  {
    1 <= qn && Power(qn - 1, n) <= Pow2(qb) < Power(qn + 1, n)
  }

  /**
   * The resolution for `qb` eighths of a bit is the even number nearest to two to the `qb` eighths:
   * that power lies between its neighbours.
   */
  lemma QnIsPower(qb: int, n: nat)
    requires 4 <= qb <= 64 && n == BITRES_UNIT
    ensures QnFor(qb) % 2 == 0 && Nearest(QnFor(qb), qb, n)
  {
    QnIsEven(qb);
    EvenAbove(Shift(EXP2_TABLE[qb % 8], 14 - qb / 8));
    Scaled(EXP2_TABLE[qb % 8], QnFor(qb), qb, qb % 8, 14 - qb / 8, n);
  }

  lemma Scaled(t: nat, qn: nat, qb: nat, k: nat, m: nat, n: nat)
    requires k < 8 && t == EXP2_TABLE[k] && n == BITRES_UNIT && qb + n * m == 14 * n + k
    requires 1 <= qn && qn - 1 <= Shift(t, m) <= qn
    ensures Nearest(qn, qb, n)
  {
    ShiftIsQuotient(t, m);
    TableIsExp2(k, n);
    PowerOfPower(m, n);
    Pow2Sum(qb, n * m);
    Between(qn, Shift(t, m), Pow2(m), t, Pow2(qb), n);
  }

  lemma EvenAbove(q: nat)
    ensures (q + 1) / 2 * 2 <= q + 1 && q <= (q + 1) / 2 * 2
  {
  }

  /** If `t` is between `q` and `q + 1` units, and `y` units to the `n`-th between `t` and `t + 1` to the `n`-th. */
  lemma Between(qn: nat, q: nat, e: nat, t: nat, y: nat, n: nat)
    requires 1 <= qn && qn - 1 <= q <= qn && e > 0 && q * e <= t < (q + 1) * e
    requires Power(t, n) <= y * Power(e, n) < Power(t + 1, n)
    ensures Power(qn - 1, n) <= y < Power(qn + 1, n)
  {
    Below(qn - 1, q, e, t);
    PowerMono((qn - 1) * e, t, n);
    PowerProduct(qn - 1, e, n);
    PowerPositive(e, n);
    Cancel(Power(qn - 1, n), y, Power(e, n));
    Below(q + 1, qn + 1, e, (qn + 1) * e);
    PowerMono(t + 1, (qn + 1) * e, n);
    PowerProduct(qn + 1, e, n);
    CancelStrict(y, Power(qn + 1, n), Power(e, n));
  }

  lemma Below(a: nat, b: nat, e: nat, t: nat)
    requires a <= b && b * e <= t
    ensures a * e <= t
  {
    Distribute(b, a, e);
    assert (b - a) * e >= 0;
  }

  lemma Cancel(a: nat, b: nat, e: nat)
    requires e > 0 && a * e <= b * e
    ensures a <= b
  {
    if a > b {
      Distribute(a, b, e);
      MulGe(a - b, e);
    }
  }

  lemma MulMono(a: nat, b: nat, e: nat)
    ensures a <= b ==> a * e <= b * e
  {
    if a <= b {
      Below(a, b, e, b * e);
    }
  }

  lemma CancelStrict(a: nat, b: nat, e: nat)
    requires a * e < b * e
    ensures a < b
  {
    MulMono(b, a, e);
  }

  lemma TableShift(x: nat, j: nat)
    requires 16384 <= x < 32768 && j < 8
    ensures 1 <= Shift(x, 14 - j) < 256
  {
    Powers();
    ShiftBounds(x, 14 - j, 14);
    Pow2Mono(0, j);
    Pow2Mono(j + 1, 8);
  }

  // --- integer square root -----------------------------------------------------------

  ghost predicate IsRoot(v: nat, r: nat)
  {
    r * r <= v < (r + 1) * (r + 1)
  }

  /** `EC_ILOG`: the number of bits of a positive word. */
  function Ilog(v: nat): (r: nat)
    ensures v < Pow2(r) && (v > 0 ==> r > 0 && Pow2(r - 1) <= v)
  {
    if v == 0 then 0 else 1 + Ilog(v / 2)
  }

  lemma SquareSum(g: nat, b: nat)
    ensures (g + b) * (g + b) == g * g + (2 * g + b) * b
  {
  }

  lemma RootStart(v: nat, s: nat)
    requires v > 0 && s == (Ilog(v) - 1) / 2
    ensures v < (2 * Pow2(s)) * (2 * Pow2(s))
  {
    Pow2Sum(s + 1, s + 1);
    Pow2Mono(Ilog(v), 2 * s + 2);
  }

  /** `g` squared is what has been taken off `v`, and `v` is below the square of `g + h`. */
  ghost predicate RootFrom(v: nat, rest: nat, g: nat, h: nat)
  {
    rest + g * g == v && v < (g + h) * (g + h)
  }

  /** Adding a digit `b` to the root `g` takes `(2 * g + b) * b` off the rest. */
  lemma RootStep(v: nat, rest: nat, g: nat, b: nat)
    requires RootFrom(v, rest, g, 2 * b)
    ensures var t := (2 * g + b) * b; if t <= rest then RootFrom(v, rest - t, g + b, b) else RootFrom(v, rest, g, b)
  {
    SquareSum(g, b);
    assert g + b + b == g + 2 * b;
  }

  /** `isqrt32`: one binary digit of the root per turn, the highest first. */
  method Isqrt32(v: nat) returns (g: nat)
    requires 0 < v < 0x1_0000_0000
    ensures IsRoot(v, g)
  {
    g := 0;
    var bshift := (Ilog(v) - 1) / 2;
    var b := Pow2(bshift);
    var rest: nat := v;
    RootStart(v, bshift);
    while bshift >= 0
      invariant -1 <= bshift && (bshift >= 0 ==> b == Pow2(bshift))
      invariant RootFrom(v, rest, g, Pow2(bshift + 1))
      decreases bshift
    {
      var t := (2 * g + b) * b;
      RootStep(v, rest, g, b);
      if t <= rest {
        g := g + b;
        rest := rest - t;
      }
      b := b / 2;
      bshift := bshift - 1;
    }
  }

  /** The root is unique, so the decoder below may name it by its property. */
  lemma RootUnique(v: nat, r: nat, r': nat)
    requires IsRoot(v, r) && IsRoot(v, r')
    ensures r == r'
  {
    if r < r' {
      Squares(r + 1, r');
    } else if r' < r {
      Squares(r' + 1, r);
    }
  }

  lemma Squares(a: nat, b: nat)
    requires a <= b
    ensures a * a <= b * b
  {
    assert b * b == a * a + (b - a) * (b + a);
  }

  // --- the triangular model ------------------------------------------------------------

  /** The triangular numbers; the source writes `n * (n + 1) >> 1`. */
  function Tri(n: nat): (r: nat)
  {
    if n == 0 then 0 else Tri(n - 1) + n
  }

  lemma {:induction false} TriExact(n: nat)
    ensures 2 * Tri(n) == n * (n + 1) && Tri(n) == n * (n + 1) / 2
    ensures n > 0 ==> Tri(n) == Tri(n - 1) + n
  {
    if n > 0 {
      TriExact(n - 1);
      assert n * (n + 1) == (n - 1) * n + 2 * n;
    }
  }

  function Total(qn: nat): nat
  {
    (qn / 2 + 1) * (qn / 2 + 1)
  }

  /** The interval of the angle `x`: its start and its width. */
  function Low(qn: nat, x: nat): int
    requires x <= qn
  {
    if x <= qn / 2 then Tri(x) else Total(qn) - Tri(qn + 1 - x)
  }

  function Width(qn: nat, x: nat): nat
    requires x <= qn
  {
    if x <= qn / 2 then x + 1 else qn + 1 - x
  }

  /** The decoder, given the integer square roots it computes. */
  function Decode(qn: nat, fm: nat, root: nat): int
    requires fm < Total(qn)
  {
    if fm < Tri(qn / 2) then (root - 1) / 2 else (2 * (qn + 1) - root) / 2
  }

  /** What the decoder takes the root of. */
  function Radicand(qn: nat, fm: nat): nat
    requires fm < Total(qn)
  {
    if fm < Tri(qn / 2) then 8 * fm + 1 else 8 * (Total(qn) - fm - 1) + 1
  }

  /** Both forms of the interval agree in the middle, so the second serves from there on. */
  lemma MiddleAgrees(h: nat)
    ensures (h + 1) * (h + 1) == Tri(h) + Tri(h + 1)
  {
    TriExact(h);
    TriExact(h + 1);
    assert h * (h + 1) + (h + 1) * (h + 2) == 2 * ((h + 1) * (h + 1));
  }

  /** The intervals of 0, 1, ..., qn follow one another and fill [0, Total). */
  lemma IntervalsPartition(qn: nat, x: nat)
    requires qn % 2 == 0 && x <= qn
    ensures Low(qn, 0) == 0
    ensures x < qn ==> Low(qn, x + 1) == Low(qn, x) + Width(qn, x)
    ensures Low(qn, qn) + Width(qn, qn) == Total(qn)
    ensures 0 <= Low(qn, x) && Low(qn, x) + Width(qn, x) <= Total(qn)
  {
    var h := qn / 2;
    MiddleAgrees(h);
    TriExact(1);
    TriExact(x);
    TriExact(x + 1);
    TriExact(qn + 1 - x);
    if x > h {
      TriMono(qn + 1 - x, h + 1);
    } else {
      TriMono(x, h);
      TriExact(h + 1);
    }
  }

  lemma {:induction false} TriMono(a: nat, b: nat)
    requires a <= b
    ensures Tri(a) <= Tri(b)
  {
    if a < b {
      TriExact(b);
      TriMono(a, b - 1);
    }
  }

  /** If `u` lies between two triangular numbers, the root of 8u + 1 tells which. */
  lemma RootOfTri(n: nat, u: nat, r: nat)
    requires Tri(n) <= u < Tri(n + 1) && IsRoot(8 * u + 1, r)
    ensures r == 2 * n + 1 || r == 2 * n + 2
  {
    TriExact(n);
    TriExact(n + 1);
    var a := 2 * n + 1;
    assert a * a == 4 * (n * (n + 1)) + 1;
    assert (a + 2) * (a + 2) == 4 * ((n + 1) * (n + 2)) + 1;
    if r < a {
      Squares(r + 1, a);
    } else if r >= a + 2 {
      Squares(a + 2, r);
    }
  }

  lemma DecodesBelow(qn: nat, x: nat, fm: nat, root: nat)
    requires qn % 2 == 0 && x < qn / 2 && Tri(x) <= fm < Tri(x + 1) && fm < Total(qn)
    requires IsRoot(Radicand(qn, fm), root)
    ensures Decode(qn, fm, root) == x
  {
    TriMono(x + 1, qn / 2);
    RootOfTri(x, fm, root);
  }

  lemma DecodesAbove(qn: nat, x: nat, fm: nat, root: nat)
    requires qn % 2 == 0 && qn / 2 <= x <= qn && fm < Total(qn)
    requires var j := qn + 1 - x; Tri(j - 1) <= Total(qn) - fm - 1 < Tri(j)
    requires IsRoot(Radicand(qn, fm), root)
    ensures Decode(qn, fm, root) == x
  {
    var h, j := qn / 2, qn + 1 - x;
    MiddleAgrees(h);
    TriMono(j, h + 1);
    assert fm >= Tri(h);
    RootOfTri(j - 1, Total(qn) - fm - 1, root);
  }

  /** Every point of the interval of `x` decodes to `x`. */
  lemma TriangularDecodes(qn: nat, x: nat, fm: nat, root: nat)
    requires qn % 2 == 0 && x <= qn && Low(qn, x) <= fm < Low(qn, x) + Width(qn, x)
    ensures fm < Total(qn)
    ensures IsRoot(Radicand(qn, fm), root) ==> Decode(qn, fm, root) == x
  {
    IntervalsPartition(qn, x);
    var h := qn / 2;
    if IsRoot(Radicand(qn, fm), root) {
      if x < h {
        DecodesBelow(qn, x, fm, root);
      } else {
        MiddleAgrees(h);
        DecodesAbove(qn, x, fm, root);
      }
    }
  }

  /** Every point below the total lies in the interval of some angle. */
  lemma {:induction false} Locate(qn: nat, fm: nat, top: nat) returns (x: nat)
    requires qn % 2 == 0 && top <= qn && fm < Low(qn, top) + Width(qn, top)
    ensures x <= top && Low(qn, x) <= fm < Low(qn, x) + Width(qn, x)
  {
    x := top;
    if fm < Low(qn, top) {
      IntervalsPartition(qn, 0);
      IntervalsPartition(qn, top - 1);
      x := Locate(qn, fm, top - 1);
    }
  }

  /** The triangular branch of the decoder in `compute_theta`. */
  method DecodeTriangular(qn: nat, fm: nat) returns (itheta: int, fl: int, fs: nat)
    requires qn % 2 == 0 && 2 <= qn <= 256 && fm < Total(qn)
    ensures 0 <= itheta <= qn && fl == Low(qn, itheta) && fs == Width(qn, itheta)
    ensures fl <= fm < fl + fs
  {
    var ft := (qn / 2 + 1) * (qn / 2 + 1);
    assert ft <= 129 * 129 by { Squares(qn / 2 + 1, 129); }
    IntervalsPartition(qn, qn);
    ghost var x := Locate(qn, fm, qn);
    var root := Isqrt32(Radicand(qn, fm));
    TriangularDecodes(qn, x, fm, root);
    TriExact(qn / 2);
    if fm < qn / 2 * (qn / 2 + 1) / 2 {
      itheta := (root - 1) / 2;
      fl, fs := LowInterval(qn, itheta, fm);
    } else {
      itheta := (2 * (qn + 1) - root) / 2;
      fl, fs := HighInterval(qn, itheta, fm, ft);
    }
  }

  /** The interval of an angle in the first half, as the decoder recomputes it. */
  method LowInterval(qn: nat, itheta: nat, ghost fm: nat) returns (fl: int, fs: nat)
    requires qn % 2 == 0 && itheta <= qn && Low(qn, itheta) <= fm < Tri(qn / 2)
    ensures fl == Low(qn, itheta) && fs == Width(qn, itheta)
  {
    BelowMiddle(qn, itheta, fm);
    TriExact(itheta);
    return itheta * (itheta + 1) / 2, itheta + 1;
  }

  /** And in the second half. */
  method HighInterval(qn: nat, itheta: nat, ghost fm: nat, ft: nat) returns (fl: int, fs: nat)
    requires qn % 2 == 0 && itheta <= qn && Tri(qn / 2) <= fm < Low(qn, itheta) + Width(qn, itheta) && ft == Total(qn)
    ensures fl == Low(qn, itheta) && fs == Width(qn, itheta)
  {
    AboveMiddle(qn, itheta, fm);
    TriExact(qn + 1 - itheta);
    return ft - (qn + 1 - itheta) * (qn + 2 - itheta) / 2, qn + 1 - itheta;
  }

  lemma BelowMiddle(qn: nat, x: nat, fm: nat)
    requires qn % 2 == 0 && x <= qn && Low(qn, x) <= fm < Tri(qn / 2)
    ensures x <= qn / 2
  {
    var h := qn / 2;
    if x > h {
      MiddleAgrees(h);
      TriExact(h + 1);
      TriMono(qn + 1 - x, h);
    }
  }

  /** From the middle on, the second form of the interval is the right one. */
  lemma AboveMiddle(qn: nat, x: nat, fm: nat)
    requires qn % 2 == 0 && x <= qn && Tri(qn / 2) <= fm < Low(qn, x) + Width(qn, x)
    ensures Low(qn, x) == Total(qn) - Tri(qn + 1 - x) && Width(qn, x) == qn + 1 - x
  {
    var h := qn / 2;
    MiddleAgrees(h);
    if x < h {
      TriExact(x + 1);
      TriMono(x + 1, h);
    }
  }
}
