/**
 * CELT split coding (section 4.3.4.4 of RFC 6716): one recursive routine both encodes a
 * band and decodes it. The entropy coder is a log of symbols whose usage figure depends
 * only on the symbols so far (section 4.1.6 of RFC 6716). The routine is stated over the
 * arithmetic rules it follows; CeltRules.dfy gives those of the codec.
 */
module SplitCoding {
  import opened Basics
  import opened AngleCoding

  /** What the range coder carries: an interval, a uniform integer or a pulse vector. */
  datatype Symbol = Interval(low: int, width: nat, total: nat) | Uniform(value: nat, count: nat) | Pulses(vector: seq<int>)

  /** The size of a partition of a band of width `w` at a level: one more level doubles it. */
  function SizeAt(w: nat, lm: nat): nat
  {
    if lm == 0 then w else 2 * SizeAt(w, lm - 1)
  }

  /** A level up to `top` and a size that a band of width `w` has there; at level -1 nothing is split. */
  ghost predicate Sized(w: nat, top: nat, n: nat, lm: int)
  {
    -1 <= lm <= top && (lm >= 0 ==> n == SizeAt(w, lm))
  }

  /** The decisions that encoder and decoder must take alike, for one band. */
  datatype Rules = Rules(
    /** Whether a partition of this size is split, given its bits and level. */
    splits: (nat, int, int) -> bool,
    /** The resolution of the angle: half size, bits, lower level. */
    resolution: (nat, int, int) -> nat,
    /** The angle in 0..16384 that a coded step stands for. */
    unquantize: (nat, nat) -> nat,
    /** The bits of the first half: half size, blocks, lower level, angle, bits. */
    midBits: (nat, nat, int, nat, int) -> int,
    /** The pulse count that the budget allows, and what is left of the budget: level, bits, remaining. */
    pulses: (int, int, int) -> (nat, int),
    /** `ec_tell_frac`. */
    tell: seq<Symbol> -> int)
  {
    /** A resolution of 1 codes nothing; any other is even. */
    ghost predicate Lawful()
    {
      forall n: nat, b: int, lm: int ::
        var qn := resolution(n, b, lm); qn == 1 || (qn > 0 && qn % 2 == 0)
    }

    /** In a band of this width, a split at a level up to `top` always codes its angle. */
    ghost predicate AngleAlwaysCoded(w: nat, top: nat)
    {
      forall b: int, lm: nat | lm <= top && splits(SizeAt(w, lm), b, lm) :: resolution(SizeAt(w, lm) / 2, b, lm - 1) != 1
    }
  }

  /** The encoder's side: `stereo_itheta`, its rounding to a step, and `alg_quant`. */
  datatype Source = Source(
    theta: (seq<real>, seq<real>) -> nat,
    quantize: (nat, nat, nat, int) -> nat,
    vector: (seq<real>, nat, nat) -> seq<int>)
  {
    /** The chosen step is within the resolution. */
    ghost predicate Lawful()
    {
      forall raw: nat, qn: nat, n: nat, b: int :: quantize(raw, qn, n, b) <= qn
    }
  }

  /**
   * The entropy coder in either mode. The decoder sees the symbols at `stream[pos..]`; of an
   * interval it learns only some point `point(pos)` inside it.
   */
  datatype Coder =
    | Encoder(src: Source, log: seq<Symbol>)
    | Decoder(stream: seq<Symbol>, point: nat -> nat, pos: nat)
  {
    function SoFar(): seq<Symbol>
    {
      match this
      case Encoder(_, log) => log
      case Decoder(stream, _, pos) => if pos <= |stream| then stream[..pos] else stream
    }
  }

  /** The part of `band_ctx` that the routine changes. */
  datatype Ctx = Ctx(coder: Coder, remaining: int)

  /** The visited nodes, with everything that decides about bits. */
  datatype Tree =
    | Leaf(n: nat, b: int, blocks: nat, lm: int, q: nat)
    | Split(n: nat, b: int, blocks: nat, lm: int, itheta: nat, midFirst: bool, first: Tree, second: Tree)

  // --- the angle -----------------------------------------------------------------------

  /** The symbol for an angle step: uniform over time splits, triangular otherwise. */
  function AngleSymbol(qn: nat, x: nat, blocks: nat): Symbol
    requires x <= qn
  {
    if blocks > 1 then Uniform(x, qn + 1) else Interval(Low(qn, x), Width(qn, x), Total(qn))
  }

  /** The integer square root. */
  ghost function Root(v: nat): (r: nat)
    ensures IsRoot(v, r)
  {
    if v == 0 then 0
    else
      var r := Root(v - 1);
      if (r + 1) * (r + 1) <= v then r + 1 else r
  }

  /** The decoder's reading of a point, by the square root formula of `compute_theta`. */
  ghost function ReadTriangular(qn: nat, fm: nat): (x: nat)
    ensures x <= qn
  {
    if fm >= Total(qn) then 0
    else
      var x := Decode(qn, fm, Root(Radicand(qn, fm)));
      if 0 <= x <= qn then x else 0
  }

  /** What `AngleCoding.DecodeTriangular` answers is this reading, whatever root it computes. */
  lemma ReadAsDecoded(qn: nat, fm: nat, root: nat)
    requires qn % 2 == 0 && fm < Total(qn) && IsRoot(Radicand(qn, fm), root)
    ensures ReadTriangular(qn, fm) == Decode(qn, fm, root)
  {
    RootUnique(Radicand(qn, fm), root, Root(Radicand(qn, fm)));
    IntervalsPartition(qn, qn);
    var x := Locate(qn, fm, qn);
    TriangularDecodes(qn, x, fm, root);
  }

  /** The decoder's reading of the next symbol. */
  ghost function ReadAngle(stream: seq<Symbol>, point: nat -> nat, pos: nat, qn: nat, blocks: nat): (x: nat)
    ensures x <= qn
  {
    if pos >= |stream| then 0
    else if blocks > 1 then
      if stream[pos].Uniform? && stream[pos].value <= qn then stream[pos].value else 0
    else ReadTriangular(qn, point(pos))
  }

  /**
   * `compute_theta` for a mono split: the coder afterwards and the angle in 0..16384. At
   * resolution 1 nothing is coded: the encoder keeps its own measurement, the decoder has 0.
   */
  ghost function ComputeTheta(r: Rules, coder: Coder, x: seq<real>, y: seq<real>, n: nat, b: int, blocks: nat, lm: int): (Coder, nat)
  {
    var qn := r.resolution(n, b, lm);
    match coder
    case Encoder(src, log) =>
      var raw := src.theta(x, y);
      if qn == 1 then (coder, raw)
      else
        var q := Clamp(src.quantize(raw, qn, n, b), qn);
        (Encoder(src, log + [AngleSymbol(qn, q, blocks)]), r.unquantize(q, qn))
    case Decoder(stream, point, pos) =>
      if qn == 1 then (coder, 0)
      else (Decoder(stream, point, pos + 1), r.unquantize(ReadAngle(stream, point, pos, qn, blocks), qn))
  }

  function Clamp(x: nat, top: nat): (r: nat)
    ensures r <= top && (x <= top ==> r == x)
  {
    if x <= top then x else top
  }

  // --- the partition -------------------------------------------------------------------

  /** `alg_quant` or `alg_unquant`: one pulse vector symbol. */
  function CodePulses(coder: Coder, x: seq<real>, n: nat, q: nat): Coder
  {
    match coder
    case Encoder(src, log) => Encoder(src, log + [Pulses(src.vector(x, n, q))])
    case Decoder(stream, point, pos) => Decoder(stream, point, pos + 1)
  }

  function LowHalf(x: seq<real>, n: nat): seq<real>
  {
    if n <= |x| then x[..n] else x
  }

  function HighHalf(x: seq<real>, n: nat): seq<real>
  {
    if n <= |x| then x[n..] else []
  }

  /** The second half's bits after the first gave some back. */
  function Rebalanced(bits: int, given: int, before: int, after: int, blocked: bool): int
  {
    var rebalance := given - (before - after);
    if rebalance > 24 && !blocked then bits + rebalance - 24 else bits
  }

  /** What is settled before the halves are coded: the coder, the angle and the bits of each half. */
  datatype Head = Head(coder: Coder, itheta: nat, mbits: int, sbits: int, remaining: int)

  ghost function SplitHead(r: Rules, ctx: Ctx, x: seq<real>, n: nat, b: int, blocks: nat, lm: int): Head
  {
    var n' := n / 2;
    var (coder, itheta) := ComputeTheta(r, ctx.coder, LowHalf(x, n'), HighHalf(x, n'), n', b, blocks, lm - 1);
    var qalloc := r.tell(coder.SoFar()) - r.tell(ctx.coder.SoFar());
    var mbits := r.midBits(n', blocks, lm - 1, itheta, b - qalloc);
    Head(coder, itheta, mbits, b - qalloc - mbits, ctx.remaining - qalloc)
  }

  /** `quant_partition`: the tree it visits and the context it leaves. */
  ghost function Partition(r: Rules, ctx: Ctx, x: seq<real>, n: nat, b: int, blocks: nat, lm: int): (Tree, Ctx)
    requires lm >= -1
    decreases lm + 1
  {
    if lm != -1 && r.splits(n, b, lm) then
      var h := SplitHead(r, ctx, x, n, b, blocks, lm);
      var n', blocks' := n / 2, (blocks + 1) / 2;
      if h.mbits >= h.sbits then
        var (first, c1) := Partition(r, Ctx(h.coder, h.remaining), LowHalf(x, n'), n', h.mbits, blocks', lm - 1);
        var s := Rebalanced(h.sbits, h.mbits, h.remaining, c1.remaining, h.itheta == 0);
        var (second, c2) := Partition(r, c1, HighHalf(x, n'), n', s, blocks', lm - 1);
        (Split(n, b, blocks, lm, h.itheta, true, first, second), c2)
      else
        var (first, c1) := Partition(r, Ctx(h.coder, h.remaining), HighHalf(x, n'), n', h.sbits, blocks', lm - 1);
        var m := Rebalanced(h.mbits, h.sbits, h.remaining, c1.remaining, h.itheta == 16384);
        var (second, c2) := Partition(r, c1, LowHalf(x, n'), n', m, blocks', lm - 1);
        (Split(n, b, blocks, lm, h.itheta, false, first, second), c2)
    else
      var (q, left) := r.pulses(lm, b, ctx.remaining);
      (Leaf(n, b, blocks, lm, q), Ctx(if q != 0 then CodePulses(ctx.coder, x, n, q) else ctx.coder, left))
  }

  // --- what a partition is made of -----------------------------------------------------

  /** The two halves of a band make it up. */
  lemma HalvesOf(x: seq<real>, n: nat)
    requires |x| == 2 * n
    ensures |LowHalf(x, n)| == |HighHalf(x, n)| == n && LowHalf(x, n) + HighHalf(x, n) == x
  {
  }

  /** The second half keeps its bits, and gets what the first left over beyond three bits, unless it is empty. */
  lemma RebalanceKeeps(bits: int, given: int, before: int, after: int, blocked: bool)
    ensures var r, used := Rebalanced(bits, given, before, after, blocked), before - after;
      && (blocked || given - used <= 24 ==> r == bits)
      && (!blocked && given - used > 24 ==> r > bits && r + used + 24 == bits + given)
  {
  }

  /**
   * A split halves the size, lowers the level, and divides the bits that the angle left over; the
   * half with more bits goes first. The encoder's angle is the coded one of the low half against the high.
   */
  lemma SplitShape(r: Rules, ctx: Ctx, x: seq<real>, n: nat, b: int, blocks: nat, lm: int)
    requires lm >= 0 && r.splits(n, b, lm)
    ensures var tree, h := Partition(r, ctx, x, n, b, blocks, lm).0, SplitHead(r, ctx, x, n, b, blocks, lm);
      && tree.Split? && tree.n == n && tree.b == b && tree.blocks == blocks && tree.lm == lm && tree.itheta == h.itheta
      && tree.first.n == tree.second.n == n / 2 && tree.first.lm == tree.second.lm == lm - 1
      && tree.first.blocks == tree.second.blocks == (blocks + 1) / 2
      && h.mbits + h.sbits + (r.tell(h.coder.SoFar()) - r.tell(ctx.coder.SoFar())) == b
      && (tree.midFirst <==> h.mbits >= h.sbits)
      && tree.first.b == (if tree.midFirst then h.mbits else h.sbits)
      && tree.second.b >= (if tree.midFirst then h.sbits else h.mbits)
      && (ctx.coder.Encoder? && r.resolution(n / 2, b, lm - 1) != 1 ==>
            var src, qn := ctx.coder.src, r.resolution(n / 2, b, lm - 1);
            tree.itheta == r.unquantize(Clamp(src.quantize(src.theta(LowHalf(x, n / 2), HighHalf(x, n / 2)), qn, n / 2, b), qn), qn))
  {
    PartitionRoot(r, ctx, x, n, b, blocks, lm);
  }

  /**
   * Before the halves the encoder writes the angle's step and nothing else: uniformly among all
   * steps for a time split, by the triangular distribution otherwise. What it cost is charged.
   */
  lemma AngleWritten(r: Rules, ctx: Ctx, x: seq<real>, n: nat, b: int, blocks: nat, lm: int)
    requires r.Lawful() && ctx.coder.Encoder? && ctx.coder.src.Lawful() && r.resolution(n / 2, b, lm - 1) != 1
    ensures var h, src, qn := SplitHead(r, ctx, x, n, b, blocks, lm), ctx.coder.src, r.resolution(n / 2, b, lm - 1);
      var q := src.quantize(src.theta(LowHalf(x, n / 2), HighHalf(x, n / 2)), qn, n / 2, b);
      && q <= qn && h.itheta == r.unquantize(q, qn)
      && h.coder == Encoder(src, ctx.coder.log + [if blocks > 1 then Uniform(q, qn + 1) else Interval(Low(qn, q), Width(qn, q), Total(qn))])
      && h.remaining == ctx.remaining - (r.tell(h.coder.log) - r.tell(ctx.coder.log))
  {
  }

  /** The root of the tree is the partition asked for. */
  lemma PartitionRoot(r: Rules, ctx: Ctx, x: seq<real>, n: nat, b: int, blocks: nat, lm: int)
    requires lm >= -1
    ensures var tree := Partition(r, ctx, x, n, b, blocks, lm).0; tree.n == n && tree.b == b && tree.blocks == blocks && tree.lm == lm
    decreases lm + 1
  {
  }

  /** The pulse vectors among symbols. */
  ghost function VectorsOf(log: seq<Symbol>): seq<seq<int>>
  {
    if log == [] then []
    else
      var last := log[|log| - 1];
      VectorsOf(log[..|log| - 1]) + if last.Pulses? then [last.vector] else []
  }

  /** The vectors of a tree over a band, in coding order: each leaf's is that of its own samples. */
  ghost function VectorsIn(src: Source, tree: Tree, x: seq<real>): seq<seq<int>>
  {
    match tree
    case Leaf(n, _, _, _, q) => if q != 0 then [src.vector(x, n, q)] else []
    case Split(n, _, _, _, _, midFirst, first, second) =>
      if midFirst then VectorsIn(src, first, LowHalf(x, n / 2)) + VectorsIn(src, second, HighHalf(x, n / 2))
      else VectorsIn(src, first, HighHalf(x, n / 2)) + VectorsIn(src, second, LowHalf(x, n / 2))
  }

  lemma VectorsPush(log: seq<Symbol>, s: Symbol)
    ensures VectorsOf(log + [s]) == VectorsOf(log) + if s.Pulses? then [s.vector] else []
  {
    assert (log + [s])[..|log|] == log;
  }

  /**
   * A split is its two halves, one after the other, the one with more bits first. What goes second
   * gets what the first left of its own beyond three bits, unless the angle says that all energy is
   * in the first: the high half at angle 0, the low one at 16384.
   */
  lemma TwoHalves(r: Rules, ctx: Ctx, x: seq<real>, n: nat, b: int, blocks: nat, lm: int)
    returns (xa: seq<real>, xb: seq<real>, b1: int, b2: int)
    requires lm >= 0 && r.splits(n, b, lm)
    ensures var h := SplitHead(r, ctx, x, n, b, blocks, lm);
      var p1 := Partition(r, Ctx(h.coder, h.remaining), xa, n / 2, b1, (blocks + 1) / 2, lm - 1);
      var p2 := Partition(r, p1.1, xb, n / 2, b2, (blocks + 1) / 2, lm - 1);
      && Partition(r, ctx, x, n, b, blocks, lm) == (Split(n, b, blocks, lm, h.itheta, h.mbits >= h.sbits, p1.0, p2.0), p2.1)
      && (xa, xb) == (if h.mbits >= h.sbits then (LowHalf(x, n / 2), HighHalf(x, n / 2)) else (HighHalf(x, n / 2), LowHalf(x, n / 2)))
      && b1 == Max(h.mbits, h.sbits)
      && (h.itheta == (if h.mbits >= h.sbits then 0 else 16384) ==> b2 == Min(h.mbits, h.sbits))
      && (h.itheta != (if h.mbits >= h.sbits then 0 else 16384) ==>
            b2 == Min(h.mbits, h.sbits) + Max(0, b1 - (h.remaining - p1.1.remaining) - 24))
  {
    var h := SplitHead(r, ctx, x, n, b, blocks, lm);
    var n', blocks' := n / 2, (blocks + 1) / 2;
    if h.mbits >= h.sbits {
      xa, xb, b1 := LowHalf(x, n'), HighHalf(x, n'), h.mbits;
      var c1 := Partition(r, Ctx(h.coder, h.remaining), xa, n', b1, blocks', lm - 1).1;
      b2 := Rebalanced(h.sbits, h.mbits, h.remaining, c1.remaining, h.itheta == 0);
    } else {
      xa, xb, b1 := HighHalf(x, n'), LowHalf(x, n'), h.sbits;
      var c1 := Partition(r, Ctx(h.coder, h.remaining), xa, n', b1, blocks', lm - 1).1;
      b2 := Rebalanced(h.mbits, h.sbits, h.remaining, c1.remaining, h.itheta == 16384);
    }
  }

  /** Between two contexts of the encoder the vectors of a tree over a band have been written. */
  ghost predicate Wrote(c: Ctx, tree: Tree, x: seq<real>, c': Ctx)
  {
    && c.coder.Encoder? && c'.coder.Encoder? && c'.coder.src == c.coder.src
    && VectorsOf(c'.coder.log) == VectorsOf(c.coder.log) + VectorsIn(c.coder.src, tree, x)
  }

  lemma WroteBoth(c: Ctx, c0: Ctx, c1: Ctx, c2: Ctx, tree: Tree, x: seq<real>, xa: seq<real>, xb: seq<real>)
    requires tree.Split? && Wrote(c0, tree.first, xa, c1) && Wrote(c1, tree.second, xb, c2)
    requires c.coder.Encoder? && c0.coder.src == c.coder.src && VectorsOf(c0.coder.log) == VectorsOf(c.coder.log)
    requires (xa, xb) == if tree.midFirst then (LowHalf(x, tree.n / 2), HighHalf(x, tree.n / 2)) else (HighHalf(x, tree.n / 2), LowHalf(x, tree.n / 2))
    ensures Wrote(c, tree, x, c2)
  {
  }

  /** The encoder writes the pulse vector of every leaf's own samples, in the order of the tree. */
  lemma {:induction false} PulsesInPlace(r: Rules, ctx: Ctx, x: seq<real>, n: nat, b: int, blocks: nat, lm: int)
    requires lm >= -1 && r.Lawful() && ctx.coder.Encoder?
    ensures var (tree, ctx') := Partition(r, ctx, x, n, b, blocks, lm); Wrote(ctx, tree, x, ctx')
    decreases lm + 1
  {
    if lm != -1 && r.splits(n, b, lm) {
      var h := SplitHead(r, ctx, x, n, b, blocks, lm);
      HeadWritesNoPulses(r, ctx, x, n, b, blocks, lm);
      var xa, xb, b1, b2 := TwoHalves(r, ctx, x, n, b, blocks, lm);
      var c0 := Ctx(h.coder, h.remaining);
      var c1 := Partition(r, c0, xa, n / 2, b1, (blocks + 1) / 2, lm - 1).1;
      PulsesInPlace(r, c0, xa, n / 2, b1, (blocks + 1) / 2, lm - 1);
      PulsesInPlace(r, c1, xb, n / 2, b2, (blocks + 1) / 2, lm - 1);
      var (tree, c2) := Partition(r, ctx, x, n, b, blocks, lm);
      WroteBoth(ctx, c0, c1, c2, tree, x, xa, xb);
    } else {
      var q := r.pulses(lm, b, ctx.remaining).0;
      VectorsPush(ctx.coder.log, Pulses(ctx.coder.src.vector(x, n, q)));
    }
  }

  lemma HeadWritesNoPulses(r: Rules, ctx: Ctx, x: seq<real>, n: nat, b: int, blocks: nat, lm: int)
    requires ctx.coder.Encoder?
    ensures var coder := SplitHead(r, ctx, x, n, b, blocks, lm).coder;
      coder.Encoder? && coder.src == ctx.coder.src && VectorsOf(coder.log) == VectorsOf(ctx.coder.log)
  {
    var src, qn := ctx.coder.src, r.resolution(n / 2, b, lm - 1);
    if qn != 1 {
      var q := Clamp(src.quantize(src.theta(LowHalf(x, n / 2), HighHalf(x, n / 2)), qn, n / 2, b), qn);
      VectorsPush(ctx.coder.log, AngleSymbol(qn, q, blocks));
    }
  }

  // --- the decoder retraces the encoder ------------------------------------------------

  /** The points that the decoder is shown lie in the intervals that were coded. */
  ghost predicate Faithful(stream: seq<Symbol>, point: nat -> nat)
  {
    forall i: nat | i < |stream| && stream[i].Interval? ::
      stream[i].low <= point(i) < stream[i].low + stream[i].width
  }

  /** One encoder and one decoder at the same place: the decoder has read what was written. */
  ghost predicate InStep(enc: Ctx, dec: Ctx)
  {
    && enc.remaining == dec.remaining
    && enc.coder.Encoder? && dec.coder.Decoder?
    && dec.coder.pos == |enc.coder.log| && enc.coder.log <= dec.coder.stream
  }

  /** An interval that a point can lie in. */
  predicate Proper(s: Symbol)
  {
    s.Interval? ==> s.low >= 0 && s.width > 0
  }

  /** The encoder only appends proper symbols, and the decoder only moves. */
  ghost predicate Extends(c: Coder, c': Coder)
  {
    match c
    case Encoder(src, log) =>
      && c'.Encoder? && c'.src == src && log <= c'.log
      && forall i: nat | |log| <= i < |c'.log| :: Proper(c'.log[i])
    case Decoder(stream, point, _) => c'.Decoder? && c'.stream == stream && c'.point == point
  }

  lemma HeadExtends(r: Rules, ctx: Ctx, x: seq<real>, n: nat, b: int, blocks: nat, lm: int)
    requires r.Lawful()
    ensures Extends(ctx.coder, SplitHead(r, ctx, x, n, b, blocks, lm).coder)
  {
    var qn := r.resolution(n / 2, b, lm - 1);
    if ctx.coder.Encoder? && qn != 1 {
      var src := ctx.coder.src;
      var q := Clamp(src.quantize(src.theta(LowHalf(x, n / 2), HighHalf(x, n / 2)), qn, n / 2, b), qn);
      IntervalsPartition(qn, q);
    }
  }

  lemma {:induction false} PartitionExtends(r: Rules, ctx: Ctx, x: seq<real>, n: nat, b: int, blocks: nat, lm: int)
    requires lm >= -1 && r.Lawful()
    ensures Extends(ctx.coder, Partition(r, ctx, x, n, b, blocks, lm).1.coder)
    decreases lm + 1
  {
    if lm != -1 && r.splits(n, b, lm) {
      var h := SplitHead(r, ctx, x, n, b, blocks, lm);
      HeadExtends(r, ctx, x, n, b, blocks, lm);
      var n', blocks' := n / 2, (blocks + 1) / 2;
      var midFirst := h.mbits >= h.sbits;
      var bits1 := if midFirst then h.mbits else h.sbits;
      var bits2 := if midFirst then h.sbits else h.mbits;
      var (xa, xb) := if midFirst then (LowHalf(x, n'), HighHalf(x, n')) else (HighHalf(x, n'), LowHalf(x, n'));
      var c0 := Ctx(h.coder, h.remaining);
      var c1 := Partition(r, c0, xa, n', bits1, blocks', lm - 1).1;
      var s := Rebalanced(bits2, bits1, h.remaining, c1.remaining, h.itheta == if midFirst then 0 else 16384);
      PartitionExtends(r, c0, xa, n', bits1, blocks', lm - 1);
      PartitionExtends(r, c1, xb, n', s, blocks', lm - 1);
      var c2 := Partition(r, c1, xb, n', s, blocks', lm - 1).1;
      ExtendsTransitive(ctx.coder, c0.coder, c1.coder);
      ExtendsTransitive(ctx.coder, c1.coder, c2.coder);
      assert Partition(r, ctx, x, n, b, blocks, lm).1 == c2;
    }
  }

  lemma ExtendsTransitive(a: Coder, b: Coder, c: Coder)
    requires Extends(a, b) && Extends(b, c)
    ensures Extends(a, c)
  {
    if a.Encoder? {
      forall i: nat | |a.log| <= i < |c.log| ensures Proper(c.log[i]) {
        if i < |b.log| {
          assert c.log[i] == b.log[i];
        }
      }
    }
  }

  /** The decoder reads back the step that was coded. */
  lemma AngleReadBack(stream: seq<Symbol>, point: nat -> nat, pos: nat, qn: nat, q: nat, blocks: nat)
    requires qn % 2 == 0 && q <= qn && pos < |stream| && Faithful(stream, point)
    requires stream[pos] == AngleSymbol(qn, q, blocks)
    ensures ReadAngle(stream, point, pos, qn, blocks) == q
  {
    if blocks <= 1 {
      IntervalsPartition(qn, q);
      TriangularDecodes(qn, q, point(pos), Root(Radicand(qn, point(pos))));
    }
  }

  /** The angle comes out alike on both sides. */
  lemma ThetaInStep(r: Rules, enc: Coder, dec: Coder, x: seq<real>, y: seq<real>, x': seq<real>, y': seq<real>, n: nat, b: int, blocks: nat, lm: int)
    requires r.Lawful() && r.resolution(n, b, lm) != 1
    requires enc.Encoder? && dec.Decoder? && dec.pos == |enc.log| && enc.log <= dec.stream
    requires enc.src.Lawful() && Faithful(dec.stream, dec.point)
    requires ComputeTheta(r, enc, x, y, n, b, blocks, lm).0.SoFar() <= dec.stream
    ensures var (e, itheta) := ComputeTheta(r, enc, x, y, n, b, blocks, lm);
            var (d, itheta') := ComputeTheta(r, dec, x', y', n, b, blocks, lm);
            && itheta == itheta'
            && e.Encoder? && e.src == enc.src && |e.log| == |enc.log| + 1
            && d == Decoder(dec.stream, dec.point, dec.pos + 1)
            && d.SoFar() == e.SoFar() && dec.SoFar() == enc.SoFar()
  {
    var qn := r.resolution(n, b, lm);
    var q := enc.src.quantize(enc.src.theta(x, y), qn, n, b);
    var sym := AngleSymbol(qn, q, blocks);
    var log' := enc.log + [sym];
    assert log'[dec.pos] == sym;
    AngleReadBack(dec.stream, dec.point, dec.pos, qn, q, blocks);
  }

  /** The head of a split comes out alike on both sides. */
  lemma HeadInStep(r: Rules, w: nat, top: nat, enc: Ctx, dec: Ctx, x: seq<real>, y: seq<real>, n: nat, b: int, blocks: nat, lm: int)
    requires Sized(w, top, n, lm) && lm >= 0 && r.Lawful() && r.AngleAlwaysCoded(w, top) && r.splits(n, b, lm)
    requires InStep(enc, dec) && enc.coder.src.Lawful() && Faithful(dec.coder.stream, dec.coder.point)
    requires SplitHead(r, enc, x, n, b, blocks, lm).coder.SoFar() <= dec.coder.stream
    ensures var e, d := SplitHead(r, enc, x, n, b, blocks, lm), SplitHead(r, dec, y, n, b, blocks, lm);
            && InStep(Ctx(e.coder, e.remaining), Ctx(d.coder, d.remaining))
            && e.itheta == d.itheta && e.mbits == d.mbits && e.sbits == d.sbits
            && e.coder.src == enc.coder.src && Extends(dec.coder, d.coder)
  {
    var n' := n / 2;
    ThetaInStep(r, enc.coder, dec.coder, LowHalf(x, n'), HighHalf(x, n'), LowHalf(y, n'), HighHalf(y, n'), n', b, blocks, lm - 1);
  }

  /**
   * The main result: run on any stream that begins with the symbols the encoder wrote, the
   * decoder visits the same tree, with the same sizes, bits, levels, angles and pulse counts,
   * ends at the same place and with the same remaining bits.
   */
  lemma {:induction false} DecoderRetraces(r: Rules, w: nat, top: nat, enc: Ctx, dec: Ctx, x: seq<real>, y: seq<real>, n: nat, b: int, blocks: nat, lm: int)
    requires Sized(w, top, n, lm) && r.Lawful() && r.AngleAlwaysCoded(w, top)
    requires InStep(enc, dec) && enc.coder.src.Lawful() && Faithful(dec.coder.stream, dec.coder.point)
    requires Partition(r, enc, x, n, b, blocks, lm).1.coder.SoFar() <= dec.coder.stream
    ensures var (tree, enc') := Partition(r, enc, x, n, b, blocks, lm);
            var (tree', dec') := Partition(r, dec, y, n, b, blocks, lm);
            tree' == tree && InStep(enc', dec')
    decreases lm + 1, 1
  {
    PartitionExtends(r, enc, x, n, b, blocks, lm);
    if lm != -1 && r.splits(n, b, lm) {
      RetraceSplit(r, w, top, enc, dec, x, y, n, b, blocks, lm);
    } else {
      var (q, left) := r.pulses(lm, b, enc.remaining);
      if q != 0 {
        var log' := enc.coder.log + [Pulses(enc.coder.src.vector(x, n, q))];
        assert log' <= dec.coder.stream;
      }
    }
  }

  /** Both halves, in the order that the bits decide. */
  lemma {:induction false} RetraceSplit(r: Rules, w: nat, top: nat, enc: Ctx, dec: Ctx, x: seq<real>, y: seq<real>, n: nat, b: int, blocks: nat, lm: int)
    requires Sized(w, top, n, lm) && lm >= 0 && r.Lawful() && r.AngleAlwaysCoded(w, top) && r.splits(n, b, lm)
    requires InStep(enc, dec) && enc.coder.src.Lawful() && Faithful(dec.coder.stream, dec.coder.point)
    requires Partition(r, enc, x, n, b, blocks, lm).1.coder.SoFar() <= dec.coder.stream
    ensures var (tree, enc') := Partition(r, enc, x, n, b, blocks, lm);
            var (tree', dec') := Partition(r, dec, y, n, b, blocks, lm);
            tree' == tree && InStep(enc', dec')
    decreases lm + 1, 0
  {
    var e, d := SplitHead(r, enc, x, n, b, blocks, lm), SplitHead(r, dec, y, n, b, blocks, lm);
    var n', blocks' := n / 2, (blocks + 1) / 2;
    var midFirst := e.mbits >= e.sbits;
    var bits1 := if midFirst then e.mbits else e.sbits;
    var bits2 := if midFirst then e.sbits else e.mbits;
    var (xa, xb) := if midFirst then (LowHalf(x, n'), HighHalf(x, n')) else (HighHalf(x, n'), LowHalf(x, n'));
    var (ya, yb) := if midFirst then (LowHalf(y, n'), HighHalf(y, n')) else (HighHalf(y, n'), LowHalf(y, n'));
    var e0, d0 := Ctx(e.coder, e.remaining), Ctx(d.coder, d.remaining);
    var blocked := e.itheta == if midFirst then 0 else 16384;
    HalvesExtend(r, e0, xa, xb, n', bits1, bits2, blocks', lm - 1, blocked);
    HeadInStep(r, w, top, enc, dec, x, y, n, b, blocks, lm);
    RetraceHalves(r, w, top, e0, d0, xa, xb, ya, yb, n', bits1, bits2, blocks', lm - 1, blocked);
  }

  /** Two halves one after the other, the second with the bits that the first left over. */
  ghost function Halves(r: Rules, ctx: Ctx, xa: seq<real>, xb: seq<real>, n: nat, bits1: int, bits2: int, blocks: nat, lm: int, blocked: bool): (Tree, Tree, Ctx)
    requires lm >= -1
  {
    var (first, c1) := Partition(r, ctx, xa, n, bits1, blocks, lm);
    var (second, c2) := Partition(r, c1, xb, n, Rebalanced(bits2, bits1, ctx.remaining, c1.remaining, blocked), blocks, lm);
    (first, second, c2)
  }

  lemma HalvesExtend(r: Rules, ctx: Ctx, xa: seq<real>, xb: seq<real>, n: nat, bits1: int, bits2: int, blocks: nat, lm: int, blocked: bool)
    requires lm >= -1 && r.Lawful()
    ensures Extends(ctx.coder, Halves(r, ctx, xa, xb, n, bits1, bits2, blocks, lm, blocked).2.coder)
  {
    var c1 := Partition(r, ctx, xa, n, bits1, blocks, lm).1;
    var s := Rebalanced(bits2, bits1, ctx.remaining, c1.remaining, blocked);
    PartitionExtends(r, ctx, xa, n, bits1, blocks, lm);
    PartitionExtends(r, c1, xb, n, s, blocks, lm);
    ExtendsTransitive(ctx.coder, c1.coder, Partition(r, c1, xb, n, s, blocks, lm).1.coder);
  }

  lemma {:induction false} RetraceHalves(
    r: Rules, w: nat, top: nat, enc: Ctx, dec: Ctx, xa: seq<real>, xb: seq<real>, ya: seq<real>, yb: seq<real>,
    n: nat, bits1: int, bits2: int, blocks: nat, lm: int, blocked: bool)
    requires Sized(w, top, n, lm) && r.Lawful() && r.AngleAlwaysCoded(w, top)
    requires InStep(enc, dec) && enc.coder.src.Lawful() && Faithful(dec.coder.stream, dec.coder.point)
    requires Halves(r, enc, xa, xb, n, bits1, bits2, blocks, lm, blocked).2.coder.SoFar() <= dec.coder.stream
    ensures var (first, second, enc') := Halves(r, enc, xa, xb, n, bits1, bits2, blocks, lm, blocked);
            var (first', second', dec') := Halves(r, dec, ya, yb, n, bits1, bits2, blocks, lm, blocked);
            first' == first && second' == second && InStep(enc', dec')
    decreases lm + 1, 2
  {
    var e1 := Partition(r, enc, xa, n, bits1, blocks, lm).1;
    var s := Rebalanced(bits2, bits1, enc.remaining, e1.remaining, blocked);
    PartitionExtends(r, enc, xa, n, bits1, blocks, lm);
    PartitionExtends(r, e1, xb, n, s, blocks, lm);
    DecoderRetraces(r, w, top, enc, dec, xa, ya, n, bits1, blocks, lm);
    var d1 := Partition(r, dec, ya, n, bits1, blocks, lm).1;
    PartitionExtends(r, dec, ya, n, bits1, blocks, lm);
    DecoderRetraces(r, w, top, e1, d1, xb, yb, n, s, blocks, lm);
  }

  // --- exactly when --------------------------------------------------------------------

  /** Decoding what was just encoded, from the same point, gives the tree, the place and the budget back. */
  ghost predicate Retraces(r: Rules, src: Source, log: seq<Symbol>, remaining: int, x: seq<real>, n: nat, b: int, blocks: nat, lm: int)
    requires lm >= -1
  {
    var (tree, enc) := Partition(r, Ctx(Encoder(src, log), remaining), x, n, b, blocks, lm);
    var stream := enc.coder.SoFar();
    forall point | Faithful(stream, point) ::
      Partition(r, Ctx(Decoder(stream, point, |log|), remaining), [], n, b, blocks, lm)
      == (tree, Ctx(Decoder(stream, point, |stream|), enc.remaining))
  }

  lemma CodedRetraces(r: Rules, w: nat, top: nat, src: Source, log: seq<Symbol>, remaining: int, x: seq<real>, n: nat, b: int, blocks: nat, lm: int)
    requires Sized(w, top, n, lm) && r.Lawful() && src.Lawful() && r.AngleAlwaysCoded(w, top)
    ensures Retraces(r, src, log, remaining, x, n, b, blocks, lm)
  {
    var ctx := Ctx(Encoder(src, log), remaining);
    var (tree, enc) := Partition(r, ctx, x, n, b, blocks, lm);
    PartitionExtends(r, ctx, x, n, b, blocks, lm);
    var stream := enc.coder.log;
    forall point | Faithful(stream, point)
      ensures Partition(r, Ctx(Decoder(stream, point, |log|), remaining), [], n, b, blocks, lm)
              == (tree, Ctx(Decoder(stream, point, |stream|), enc.remaining))
    {
      var dec := Ctx(Decoder(stream, point, |log|), remaining);
      DecoderRetraces(r, w, top, ctx, dec, x, [], n, b, blocks, lm);
      PartitionExtends(r, dec, [], n, b, blocks, lm);
    }
  }

  /** A split at resolution 1 of a band whose angle is not 0 is lost on the decoder. */
  lemma UncodedDiverges(r: Rules, src: Source, remaining: int, x: seq<real>, n: nat, b: int, blocks: nat, lm: int)
    requires lm >= 0 && r.Lawful() && r.splits(n, b, lm) && r.resolution(n / 2, b, lm - 1) == 1
    requires Turned(src, x, n / 2)
    ensures !Retraces(r, src, [], remaining, x, n, b, blocks, lm)
  {
    var log: seq<Symbol> := [];
    var ctx := Ctx(Encoder(src, log), remaining);
    var (tree, enc) := Partition(r, ctx, x, n, b, blocks, lm);
    PartitionExtends(r, ctx, x, n, b, blocks, lm);
    var stream := enc.coder.SoFar();
    var point := (i: nat) => if i < |stream| && stream[i].Interval? && stream[i].low >= 0 then stream[i].low else 0;
    assert Faithful(stream, point);
    var (tree', _) := Partition(r, Ctx(Decoder(stream, point, |log|), remaining), [], n, b, blocks, lm);
    assert tree.itheta != 0 && tree'.itheta == 0;
  }

  /** Some band of this half size has an angle other than 0. */
  ghost predicate Audible(src: Source, n: nat)
  {
    exists x :: Turned(src, x, n)
  }

  predicate Turned(src: Source, x: seq<real>, n: nat)
  {
    src.theta(LowHalf(x, n), HighHalf(x, n)) != 0
  }

  /**
   * The exact condition, per width of a band: for a source that can produce a non-zero angle
   * at its sizes, the decoder retraces every encoding if and only if every split codes its angle.
   */
  lemma RetracesExactlyWhenCoded(r: Rules, w: nat, top: nat, src: Source)
    requires r.Lawful() && src.Lawful()
    requires forall lm: nat | lm <= top :: Audible(src, SizeAt(w, lm) / 2)
    ensures r.AngleAlwaysCoded(w, top) <==>
      forall log, remaining, x, b, blocks: nat, lm: nat | lm <= top :: Retraces(r, src, log, remaining, x, SizeAt(w, lm), b, blocks, lm)
  {
    if r.AngleAlwaysCoded(w, top) {
      forall log, remaining, x, b, blocks: nat, lm: nat | lm <= top
        ensures Retraces(r, src, log, remaining, x, SizeAt(w, lm), b, blocks, lm)
      {
        CodedRetraces(r, w, top, src, log, remaining, x, SizeAt(w, lm), b, blocks, lm);
      }
    } else {
      var b: int, lm: nat :| lm <= top && r.splits(SizeAt(w, lm), b, lm) && r.resolution(SizeAt(w, lm) / 2, b, lm - 1) == 1;
      assert Audible(src, SizeAt(w, lm) / 2);
      var x :| Turned(src, x, SizeAt(w, lm) / 2);
      UncodedDiverges(r, src, 0, x, SizeAt(w, lm), b, 1, lm);
      assert !Retraces(r, src, [], 0, x, SizeAt(w, lm), b, 1, lm);
    }
  }
}
