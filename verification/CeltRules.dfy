/**
 * The arithmetic of the codec behind the split coding: resolution, rounding, bit split
 * and pulse clipping, as rules for SplitCoding.
 */
module CeltRules {
  import opened Basics
  import opened Words
  import opened AngleCoding
  import opened SplitCoding

  /** Per band: `logN`, `cache[cache[0]]`, `bits2pulses`, `pulses2bits`, the log-tangent split, `ec_tell_frac`. */
  datatype Tables = Tables(
    logN: int,
    cacheMax: int -> int,
    bitsToPulses: (int, int) -> nat,
    pulsesToBits: (int, nat) -> int,
    delta: (nat, nat) -> int,
    tell: seq<Symbol> -> int)

  /** The bits that `compute_qn` grants the angle, in eighths, before the cap of 64. */
  function AngleBits(t: Tables, n: nat, b: int, lm: int): int
    requires n > 0
  {
    var pulseCap := t.logN + lm * 8;
    var n2 := 2 * n - 1;
    Min(b - pulseCap - 32, CDiv(b + n2 * (pulseCap / 2 - 4), n2))
  }

  /** `compute_qn` as `compute_theta` calls it for a mono split; a half of size 0 never arises. */
  function Resolution(t: Tables, n: nat, b: int, lm: int): nat
  {
    if n == 0 then 1 else QnFor(Min(64, AngleBits(t, n, b, lm)))
  }

  /** The encoder's choice: round to the nearest step, then avoid noise on one side if asked. */
  function Quantize(t: Tables, avoidSplitNoise: bool, raw: nat, qn: nat, n: nat, b: int): nat
  {
    var x := (raw * qn + 8192) / 16384;
    if avoidSplitNoise && 0 < x < qn then
      var d := t.delta(n, x * 16384 / qn);
      if d > b then qn else if d < -b then 0 else x
    else x
  }

  function Unquantize(x: nat, qn: nat): nat
  {
    if qn == 0 then 0 else x * 16384 / qn
  }

  /** How far the bits lean to the second half, in eighths. Levels go up to 3, so the shifts are by 1 to 6 places. */
  function Lean(t: Tables, n: nat, blocks: nat, lm: int, itheta: nat): int
  {
    var d := if itheta == 0 then -16384 else if itheta == 16384 then 16384 else t.delta(n, itheta);
    if blocks > 1 && itheta % 16384 != 0 && lm <= 4 then
      if itheta > 8192 then d - d / Pow2(4 - lm) else Min(0, d + (n * 8) / Pow2(5 - lm))
    else d
  }

  function Share(b: int, delta: int): int
  {
    Max(0, Min(b, CDiv(b - delta, 2)))
  }

  /** The first half's bits. */
  function MidBits(t: Tables, n: nat, blocks: nat, lm: int, itheta: nat, b: int): int
  {
    Share(b, Lean(t, n, blocks, lm, itheta))
  }

  /**
   * The bits are divided between the halves, more of them to the second the more they lean to it,
   * and the halves differ by the lean, up to rounding, as long as neither is left without.
   */
  lemma ShareDivides(b: int, delta: int, delta': int)
    requires b >= 0
    ensures var first := Share(b, delta);
      && 0 <= first && 0 <= b - first
      && (delta <= delta' ==> Share(b, delta') <= first)
      && (0 < first < b ==> -1 <= (b - first) - first - delta <= 1)
      && (delta <= -b ==> first == b) && (delta >= b ==> first == 0)
  {
  }

  /** With all the energy in one half, that half gets all the bits. */
  lemma ExtremeAngles(t: Tables, n: nat, blocks: nat, lm: int, b: int)
    requires 0 <= b <= 16384
    ensures MidBits(t, n, blocks, lm, 0, b) == b && MidBits(t, n, blocks, lm, 16384, b) == 0
  {
  }

  /** For a time split the lean is lessened, towards the first half or towards none; otherwise it is that of the angle. */
  lemma LeanLessened(t: Tables, n: nat, blocks: nat, lm: int, itheta: nat)
    requires 0 < itheta < 16384 && -1 <= lm <= 3
    ensures var d, lean := t.delta(n, itheta), Lean(t, n, blocks, lm, itheta);
      && (blocks <= 1 ==> lean == d)
      && (blocks > 1 && itheta > 8192 && d >= 0 ==> 0 <= lean <= d)
      && (blocks > 1 && itheta <= 8192 && d <= 0 ==> d <= lean <= 0)
  {
    var d := t.delta(n, itheta);
    if d >= 0 {
      Fraction(d, Pow2(4 - lm));
    }
    Fraction(n * 8, Pow2(5 - lm));
  }

  /** By how much: the fraction `2^(lm - 4)` of a lean to the second half; to the first, `n / 2^(5 - lm)` bits, but not past none. */
  lemma LessenedBy(t: Tables, n: nat, blocks: nat, lm: int, itheta: nat)
    requires 0 < itheta < 16384 && -1 <= lm <= 3 && blocks > 1
    ensures var less := Lean(t, n, blocks, lm, itheta) - t.delta(n, itheta);
      if itheta > 8192 then 0 <= t.delta(n, itheta) + less * Pow2(4 - lm) < Pow2(4 - lm)
      else Lean(t, n, blocks, lm, itheta) <= 0 && (Lean(t, n, blocks, lm, itheta) < 0 ==> 0 <= n * 8 - less * Pow2(5 - lm) < Pow2(5 - lm))
  {
    DivMod(t.delta(n, itheta), Pow2(4 - lm));
    DivMod(n * 8, Pow2(5 - lm));
  }

  lemma Fraction(x: nat, m: nat)
    requires m >= 1
    ensures 0 <= x / m <= x
  {
    DivMod(x, m);
    var q := x / m;
    if q > 0 {
      MulGe(m, q);
    }
  }

  /** The loop that lowers the pulse count until the budget holds. */
  function Clip(t: Tables, lm: int, q: nat, remaining: int): (r: (nat, int))
    ensures r.0 <= q && r.1 == remaining - t.pulsesToBits(lm, r.0)
    ensures r.0 == 0 || r.1 >= 0
    ensures forall k: nat | r.0 < k <= q :: remaining - t.pulsesToBits(lm, k) < 0
    decreases q
  {
    var left := remaining - t.pulsesToBits(lm, q);
    if left < 0 && q > 0 then Clip(t, lm, q - 1, remaining) else (q, left)
  }

  /** That loop as the source runs it, undoing and redoing the charge. */
  method ClipLoop(t: Tables, lm: int, q0: nat, remaining: int) returns (q: nat, left: int)
    ensures (q, left) == Clip(t, lm, q0, remaining)
  {
    q := q0;
    var bits := t.pulsesToBits(lm, q);
    left := remaining - bits;
    while left < 0 && q > 0
      invariant bits == t.pulsesToBits(lm, q) && left == remaining - bits
      invariant Clip(t, lm, q0, remaining) == Clip(t, lm, q, remaining)
      decreases q
    {
      left := left + bits;
      q := q - 1;
      bits := t.pulsesToBits(lm, q);
      left := left - bits;
    }
  }

  /** The band is split if it needs 1.5 more bits than its largest codebook can use. */
  predicate SplitsOn(t: Tables, n: nat, b: int, lm: int)
  {
    b > t.cacheMax(lm) + 12 && n > 2
  }

  function Celt(t: Tables): Rules
  {
    Rules(
      (n: nat, b: int, lm: int) => SplitsOn(t, n, b, lm),
      (n: nat, b: int, lm: int) => Resolution(t, n, b, lm),
      (x: nat, qn: nat) => Unquantize(x, qn),
      (n: nat, blocks: nat, lm: int, itheta: nat, b: int) => MidBits(t, n, blocks, lm, itheta, b),
      (lm, b, remaining) => Clip(t, lm, t.bitsToPulses(lm, b), remaining),
      t.tell)
  }

  /** The encoder of the codec, for an angle measurement `theta` in 0..16384. */
  function CeltSource(
    t: Tables, theta: (seq<real>, seq<real>) -> nat, vector: (seq<real>, nat, nat) -> seq<int>, avoidSplitNoise: bool): Source
  {
    Source(theta, (raw: nat, qn: nat, n: nat, b: int) => Quantize(t, avoidSplitNoise, Clamp(raw, 16384), qn, n, b), vector)
  }

  /**
   * A partition that is not split gets as many pulses as the table gives for its bits, or the most
   * that the band can still pay for, and is charged for them.
   */
  lemma LeafPulses(t: Tables, ctx: Ctx, x: seq<real>, n: nat, b: int, blocks: nat, lm: int)
    requires lm == -1 || (lm >= 0 && !SplitsOn(t, n, b, lm))
    ensures var (tree, after) := Partition(Celt(t), ctx, x, n, b, blocks, lm);
      && tree.Leaf? && tree.q <= t.bitsToPulses(lm, b)
      && after.remaining == ctx.remaining - t.pulsesToBits(lm, tree.q) && (tree.q == 0 || after.remaining >= 0)
      && forall k: nat | tree.q < k <= t.bitsToPulses(lm, b) :: t.pulsesToBits(lm, k) > ctx.remaining
  {
    var r := Celt(t);
    assert r.pulses(lm, b, ctx.remaining) == Clip(t, lm, t.bitsToPulses(lm, b), ctx.remaining);
    assert r.splits(n, b, lm) == SplitsOn(t, n, b, lm);
    var (q, left) := Clip(t, lm, t.bitsToPulses(lm, b), ctx.remaining);
    assert Partition(r, ctx, x, n, b, blocks, lm) == (Leaf(n, b, blocks, lm, q), Ctx(if q != 0 then CodePulses(ctx.coder, x, n, q) else ctx.coder, left));
  }

  /** The step that is coded is nearest to the angle. */
  lemma NearestStep(t: Tables, raw: nat, qn: nat, n: nat, b: int)
    ensures var q := Quantize(t, false, raw, qn, n, b); -16384 <= 2 * (16384 * q - raw * qn) <= 16384
  {
    var x := raw * qn + 8192;
    assert 16384 * (x / 16384) <= x < 16384 * (x / 16384) + 16384;
  }

  /** When noise is to be avoided, an inner step becomes an extreme one exactly if the lean there exceeds the bits. */
  lemma AvoidsNoise(t: Tables, raw: nat, qn: nat, n: nat, b: int)
    requires qn > 0 && b >= 0
    ensures var x, q := Quantize(t, false, raw, qn, n, b), Quantize(t, true, raw, qn, n, b);
      if x == 0 || x >= qn then q == x
      else
        var d := t.delta(n, Unquantize(x, qn));
        && (q == qn <==> d > b) && (q == 0 <==> d < -b) && (q == x <==> -b <= d <= b)
  {
  }

  /** A step stands for its share of the quarter turn, rounded down; the first and the last are exact. */
  lemma StepAngle(q: nat, qn: nat)
    requires 0 < qn && q <= qn
    ensures var angle := Unquantize(q, qn);
      && 0 <= q * 16384 - angle * qn < qn && angle <= 16384
      && (q == 0 ==> angle == 0) && (q == qn ==> angle == 16384)
  {
    DivMod(q * 16384, qn);
    var angle := q * 16384 / qn;
    if angle > 16384 {
      MulGe(angle - 16384, qn);
      Distribute(angle, 16384, qn);
    }
    if q == qn {
      ModUnique(q * 16384, qn, 16384, 0);
    }
  }

  /** So the decoded angle is within half a step and one unit of the one measured. */
  lemma AngleError(t: Tables, raw: nat, qn: nat, n: nat, b: int)
    requires 0 < qn && raw <= 16384
    ensures var angle := Unquantize(Quantize(t, false, raw, qn, n, b), qn);
      -8192 - qn < angle * qn - raw * qn <= 8192
  {
    var q := Quantize(t, false, raw, qn, n, b);
    NearestStep(t, raw, qn, n, b);
    RoundFits(raw, qn);
    StepAngle(q, qn);
  }

  lemma RoundFits(raw: nat, qn: nat)
    requires raw <= 16384
    ensures (raw * qn + 8192) / 16384 <= qn
  {
    assert raw * qn <= 16384 * qn by {
      assert (16384 - raw) * qn >= 0;
      Distribute(16384, raw, qn);
    }
  }

  lemma CeltLawful(t: Tables, theta: (seq<real>, seq<real>) -> nat, vector: (seq<real>, nat, nat) -> seq<int>, avoid: bool)
    ensures Celt(t).Lawful() && CeltSource(t, theta, vector, avoid).Lawful()
  {
    forall n: nat, b: int, lm: int
      ensures var qn := Celt(t).resolution(n, b, lm); qn == 1 || (qn > 0 && qn % 2 == 0)
    {
      if n > 0 {
        QnIsEven(Min(64, AngleBits(t, n, b, lm)));
      }
    }
    forall raw: nat, qn: nat, n: nat, b: int ensures CeltSource(t, theta, vector, avoid).quantize(raw, qn, n, b) <= qn {
      RoundFits(Clamp(raw, 16384), qn);
    }
  }

  /** In a band of width `w`, a split at a level up to `top` gets at least half a bit for its angle. */
  ghost predicate EnoughForAngles(t: Tables, w: nat, top: nat)
  {
    forall b: int, lm: nat | lm <= top && SplitsOn(t, SizeAt(w, lm), b, lm) :: AngleBits(t, SizeAt(w, lm) / 2, b, lm - 1) >= 4
  }

  /** In the codec, the angle is always coded exactly when the tables leave half a bit for it. */
  lemma CodedIffEnough(t: Tables, w: nat, top: nat)
    ensures Celt(t).AngleAlwaysCoded(w, top) <==> EnoughForAngles(t, w, top)
  {
    var r := Celt(t);
    forall b: int, lm: nat | SplitsOn(t, SizeAt(w, lm), b, lm)
      ensures r.splits(SizeAt(w, lm), b, lm)
      ensures r.resolution(SizeAt(w, lm) / 2, b, lm - 1) != 1 <==> AngleBits(t, SizeAt(w, lm) / 2, b, lm - 1) >= 4
    {
      OneOnlyBelow(Min(64, AngleBits(t, SizeAt(w, lm) / 2, b, lm - 1)));
    }
    forall b: int, lm: nat | r.splits(SizeAt(w, lm), b, lm) ensures SplitsOn(t, SizeAt(w, lm), b, lm) {
    }
  }

  lemma OneOnlyBelow(qb: int)
    requires qb <= 64
    ensures QnFor(qb) == 1 <==> qb < 4
  {
  }

  // --- a condition on the tables alone -------------------------------------------------

  /** The bits from which on a split of a partition of size `n` codes its angle. */
  function BitsNeeded(logN: int, n: nat, lm: int): int
  {
    var pulseCap := logN + (lm - 1) * 8;
    var n2 := n / 2 * 2 - 1;
    Max(pulseCap + 36, 4 * n2 - n2 * (pulseCap / 2 - 4))
  }

  lemma AtLeastFour(c: int, d: nat)
    requires d > 0
    ensures CDiv(c, d) >= 4 <==> c >= 4 * d
  {
    if c >= 0 {
      DivMod(c, d);
      var q := c / d;
      if q >= 4 {
        Distribute(q, 4, d);
        assert (q - 4) * d >= 0;
      } else {
        Distribute(4, q, d);
        MulGe(4 - q, d);
      }
    }
  }

  lemma EnoughFrom(t: Tables, n: nat, b: int, lm: int)
    requires n > 2
    ensures AngleBits(t, n / 2, b, lm - 1) >= 4 <==> b >= BitsNeeded(t.logN, n, lm)
  {
    var n2 := n / 2 * 2 - 1;
    var offset := (t.logN + (lm - 1) * 8) / 2 - 4;
    AtLeastFour(b + n2 * offset, n2);
  }

  /** Every size that is split at all is split only with the bits that its angle needs. */
  ghost predicate TablesSuffice(t: Tables, w: nat, top: nat)
  {
    forall lm: nat | lm <= top && SizeAt(w, lm) > 2 :: t.cacheMax(lm) + 13 >= BitsNeeded(t.logN, SizeAt(w, lm), lm)
  }

  /** Whether there is always enough can be read off the tables. */
  lemma EnoughIffTablesSuffice(t: Tables, w: nat, top: nat)
    ensures EnoughForAngles(t, w, top) <==> TablesSuffice(t, w, top)
  {
    forall b: int, lm: nat | SplitsOn(t, SizeAt(w, lm), b, lm)
      ensures AngleBits(t, SizeAt(w, lm) / 2, b, lm - 1) >= 4 <==> b >= BitsNeeded(t.logN, SizeAt(w, lm), lm)
    {
      EnoughFrom(t, SizeAt(w, lm), b, lm);
    }
    if EnoughForAngles(t, w, top) {
      forall lm: nat | lm <= top && SizeAt(w, lm) > 2
        ensures t.cacheMax(lm) + 13 >= BitsNeeded(t.logN, SizeAt(w, lm), lm)
      {
        assert SplitsOn(t, SizeAt(w, lm), t.cacheMax(lm) + 13, lm);
      }
    }
  }

  /** The codec's decoder retraces its encoder on every partition of such a band, exactly for such tables. */
  lemma CeltRetraces(t: Tables, w: nat, top: nat, theta: (seq<real>, seq<real>) -> nat, vector: (seq<real>, nat, nat) -> seq<int>, avoid: bool)
    requires forall lm: nat | lm <= top :: Audible(CeltSource(t, theta, vector, avoid), SizeAt(w, lm) / 2)
    ensures var r, src := Celt(t), CeltSource(t, theta, vector, avoid);
      TablesSuffice(t, w, top) <==>
      forall log, remaining, x, b, blocks: nat, lm: nat | lm <= top :: Retraces(r, src, log, remaining, x, SizeAt(w, lm), b, blocks, lm)
  {
    CeltLawful(t, theta, vector, avoid);
    CodedIffEnough(t, w, top);
    EnoughIffTablesSuffice(t, w, top);
    RetracesExactlyWhenCoded(Celt(t), w, top, CeltSource(t, theta, vector, avoid));
  }

  /**
   * The hypothesis is needed: with a one-byte cache that ends in 0, which no shipped table has,
   * a partition of size 4 is split at 13 eighths of a bit, and the decoder takes the wrong turn.
   */
  lemma StarvedDiverges(t: Tables, src: Source, x: seq<real>, blocks: nat)
    requires Celt(t).Lawful() && t.logN == 8 && t.cacheMax(0) == 0 && Turned(src, x, 2)
    ensures !Retraces(Celt(t), src, [], 0, x, SizeAt(4, 0), 13, blocks, 0)
  {
    assert AngleBits(t, 2, 13, -1) == -19;
    assert Celt(t).resolution(2, 13, -1) == 1;
    assert SplitsOn(t, 4, 13, 0);
    UncodedDiverges(Celt(t), src, 0, x, 4, 13, blocks, 0);
  }

  /** Tables and a source for which that happens. */
  lemma SomeTableDiverges() returns (t: Tables, src: Source)
    ensures t.logN == 8 && 0 <= t.cacheMax(0) < 256
    ensures !Retraces(Celt(t), src, [], 0, [], SizeAt(4, 0), 13, 1, 0)
  {
    t := Tables(8, _ => 0, (_, _) => 0, (_, _) => 0, (_, _) => 0, _ => 0);
    src := CeltSource(t, (_, _) => 8192, (_, _, _) => [], false);
    CeltLawful(t, (_, _) => 8192, (_, _, _) => [], false);
    StarvedDiverges(t, src, [], 1);
  }
}
