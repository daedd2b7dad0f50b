/**
 * The interleaving of CELT: rearranging a band between time order and block order in
 * place, plainly or through the "ordery" permutation, and undoing it.
 */
module Hadamard {
  import opened Words

  /** `a * n + j`, the index of column `j` in row `a`. */
  function At(a: nat, n: nat, j: nat): (r: nat)
  {
    if a == 0 then j else n + At(a - 1, n, j)
  }

  lemma {:induction false} AtIsProduct(a: nat, n: nat, j: nat)
    ensures At(a, n, j) == a * n + j
  {
    if a > 0 {
      AtIsProduct(a - 1, n, j);
      assert a * n == (a - 1) * n + n;
    }
  }

  lemma {:induction false} AtBelow(a: nat, rows: nat, n: nat, j: nat)
    requires a < rows && j < n
    ensures At(a, n, j) < At(rows, n, 0)
  {
    if a > 0 {
      AtBelow(a - 1, rows - 1, n, j);
    }
  }

  lemma AtBound(a: nat, rows: nat, n: nat, j: nat)
    requires a < rows && j < n
    ensures At(a, n, j) < rows * n
  {
    AtBelow(a, rows, n, j);
    AtIsProduct(rows, n, 0);
  }

  lemma {:induction false} AtInjective(a: nat, j: nat, a': nat, j': nat, n: nat)
    requires j < n && j' < n && At(a, n, j) == At(a', n, j')
    ensures a == a' && j == j'
  {
    if a > 0 && a' > 0 {
      AtInjective(a - 1, j, a' - 1, j', n);
    }
  }

  lemma {:induction false} AtSurjective(k: nat, rows: nat, n: nat) returns (a: nat, j: nat)
    requires k < rows * n
    ensures a < rows && j < n && At(a, n, j) == k
  {
    if k < n {
      a, j := 0, k;
    } else {
      assert (rows - 1) * n == rows * n - n;
      a, j := AtSurjective(k - n, rows - 1, n);
      a := a + 1;
    }
  }

  // --- the permutation of blocks -------------------------------------------------------

  /** A permutation of 0..stride, witnessed by its inverse. */
  ghost predicate Permutes(order: seq<nat>, inverse: seq<nat>, stride: nat)
  {
    && |order| == |inverse| == stride
    && (forall i: nat | i < stride :: order[i] < stride && inverse[order[i]] == i)
    && (forall a: nat | a < stride :: inverse[a] < stride && order[inverse[a]] == a)
  }

  function Plain(stride: nat): seq<nat>
  {
    seq(stride, i => i)
  }

  /** The line of `ordery_table` for this stride. */
  function Ordery(stride: nat): seq<nat>
    requires stride in {2, 4, 8, 16}
  {
    match stride
    case 2 => [1, 0]
    case 4 => [3, 0, 2, 1]
    case 8 => [7, 0, 4, 3, 6, 1, 5, 2]
    case 16 => [15, 0, 8, 7, 12, 3, 11, 4, 14, 1, 9, 6, 13, 2, 10, 5]
  }

  /** Where each row of the permuted order comes from. */
  function OrderyInverse(stride: nat): seq<nat>
    requires stride in {2, 4, 8, 16}
  {
    match stride
    case 2 => [1, 0]
    case 4 => [1, 3, 2, 0]
    case 8 => [1, 5, 7, 3, 2, 6, 4, 0]
    case 16 => [1, 9, 13, 5, 7, 15, 11, 3, 2, 10, 14, 6, 4, 12, 8, 0]
  }

  function Order(stride: nat, hadamard: bool): seq<nat>
    requires hadamard ==> stride in {2, 4, 8, 16}
  {
    if hadamard then Ordery(stride) else Plain(stride)
  }

  /** Both sequences undo each other at every index. */
  ghost predicate UndoesAt(order: seq<nat>, inverse: seq<nat>, stride: nat, i: nat)
  {
    && |order| == |inverse| == stride && i < stride
    && order[i] < stride && inverse[order[i]] == i && inverse[i] < stride && order[inverse[i]] == i
  }

  lemma Ordery2(i: nat)
    requires i < 2
    ensures UndoesAt(Ordery(2), OrderyInverse(2), 2, i)
  {
    match i {
      case 0 =>
      case 1 =>
      case _ =>
    }
  }

  lemma Ordery4(i: nat)
    requires i < 4
    ensures UndoesAt(Ordery(4), OrderyInverse(4), 4, i)
  {
    match i {
      case 0 =>
      case 1 =>
      case 2 =>
      case 3 =>
      case _ =>
    }
  }

  lemma Ordery8(i: nat)
    requires i < 8
    ensures UndoesAt(Ordery(8), OrderyInverse(8), 8, i)
  {
    match i {
      case 0 =>
      case 1 =>
      case 2 =>
      case 3 =>
      case 4 =>
      case 5 =>
      case 6 =>
      case 7 =>
      case _ =>
    }
  }

  lemma Ordery16(i: nat)
    requires i < 16
    ensures UndoesAt(Ordery(16), OrderyInverse(16), 16, i)
  {
    match i {
      case 0 =>
      case 1 =>
      case 2 =>
      case 3 =>
      case 4 =>
      case 5 =>
      case 6 =>
      case 7 =>
      case 8 =>
      case 9 =>
      case 10 =>
      case 11 =>
      case 12 =>
      case 13 =>
      case 14 =>
      case 15 =>
      case _ =>
    }
  }

  /** Whether `i` and `j` have an odd number of bits in common: the sign of the natural Hadamard matrix there. */
  function Negative(i: nat, j: nat): bool
  {
    if i == 0 || j == 0 then false else Negative(i / 2, j / 2) != (i % 2 == 1 && j % 2 == 1)
  }

  /** How often the sign changes along the first `n` entries of row `i`. */
  function SignChanges(n: nat, i: nat): nat
  {
    if n <= 1 then 0 else SignChanges(n - 1, i) + if Negative(i, n - 2) != Negative(i, n - 1) then 1 else 0
  }

  lemma Rows2(i: nat)
    requires i < 2
    ensures Ordery(2)[i] + SignChanges(2, i) == 1
  {
    match i
    case 0 => assert SignChanges(2, 0) == 0;
    case 1 => assert SignChanges(2, 1) == 1;
  }

  lemma Rows4(i: nat)
    requires i < 4
    ensures Ordery(4)[i] + SignChanges(4, i) == 3
  {
    match i
    case 0 => assert SignChanges(4, 0) == 0;
    case 1 => assert SignChanges(4, 1) == 3;
    case 2 => assert SignChanges(4, 2) == 1;
    case 3 => assert SignChanges(4, 3) == 2;
  }

  lemma Rows8Low(i: nat)
    requires i < 4
    ensures Ordery(8)[i] + SignChanges(8, i) == 7
  {
    match i
    case 0 => assert SignChanges(8, 0) == 0;
    case 1 => assert SignChanges(8, 1) == 7;
    case 2 => assert SignChanges(8, 2) == 3;
    case 3 => assert SignChanges(8, 3) == 4;
  }

  lemma Rows8High(i: nat)
    requires 4 <= i < 8
    ensures Ordery(8)[i] + SignChanges(8, i) == 7
  {
    match i
    case 4 => assert SignChanges(8, 4) == 1;
    case 5 => assert SignChanges(8, 5) == 6;
    case 6 => assert SignChanges(8, 6) == 2;
    case 7 => assert SignChanges(8, 7) == 5;
  }

  lemma Rows8(i: nat)
    requires i < 8
    ensures Ordery(8)[i] + SignChanges(8, i) == 7
  {
    if i < 4 {
      Rows8Low(i);
    } else {
      Rows8High(i);
    }
  }

  /** The four quarters of the matrix of twice the size: the last one has the opposite signs. */
  lemma {:induction false} Quarters(k: nat, i: nat, j: nat)
    requires i < Pow2(k) && j < Pow2(k)
    ensures Negative(i, j + Pow2(k)) == Negative(i + Pow2(k), j) == Negative(i, j)
    ensures Negative(i + Pow2(k), j + Pow2(k)) == !Negative(i, j)
  {
    if k > 0 {
      Quarters(k - 1, i / 2, j / 2);
      assert (i + Pow2(k)) / 2 == i / 2 + Pow2(k - 1) && (j + Pow2(k)) / 2 == j / 2 + Pow2(k - 1);
    }
  }

  /** Along the upper half of a row the sign changes as along the lower half. */
  lemma {:induction false} ChangesAcross(k: nat, i: nat, m: nat)
    requires i < Pow2(k) && 1 <= m <= Pow2(k)
    ensures SignChanges(m, i + Pow2(k)) == SignChanges(m, i)
    ensures SignChanges(Pow2(k) + m, i) == SignChanges(Pow2(k), i) + (if Negative(i, Pow2(k) - 1) then 1 else 0) + SignChanges(m, i)
    ensures SignChanges(Pow2(k) + m, i + Pow2(k))
         == SignChanges(Pow2(k), i + Pow2(k)) + (if Negative(i, Pow2(k) - 1) then 0 else 1) + SignChanges(m, i)
  {
    Quarters(k, i, m - 1);
    if m == 1 {
      Quarters(k, i, Pow2(k) - 1);
    } else {
      Quarters(k, i, m - 2);
      ChangesAcross(k, i, m - 1);
    }
  }

  /** Twice the size: twice the changes, and one more in the middle for one of the two rows. */
  lemma ChangesDouble(k: nat, i: nat)
    requires i < Pow2(k)
    ensures SignChanges(2 * Pow2(k), i) == 2 * SignChanges(Pow2(k), i) + if Negative(i, Pow2(k) - 1) then 1 else 0
    ensures SignChanges(2 * Pow2(k), i + Pow2(k)) == 2 * SignChanges(Pow2(k), i) + if Negative(i, Pow2(k) - 1) then 0 else 1
  {
    ChangesAcross(k, i, Pow2(k));
  }

  /** The last line of the table from the one before it. */
  lemma Rows16(i: nat)
    requires i < 8
    ensures Ordery(16)[i] + SignChanges(16, i) == 15 && Ordery(16)[i + 8] + SignChanges(16, i + 8) == 15
  {
    var k: nat := 3;
    assert Pow2(k) == 8;
    ChangesDouble(k, i);
    Rows8(i);
    LinesRelate(i);
  }

  lemma LinesRelate(i: nat)
    requires i < 8
    ensures Ordery(16)[i] == 2 * Ordery(8)[i] + (if Negative(i, 7) then 0 else 1)
    ensures Ordery(16)[i + 8] == 2 * Ordery(8)[i] + (if Negative(i, 7) then 1 else 0)
  {
    match i
    case 0 => assert !Negative(0, 7);
    case 1 => assert Negative(1, 7);
    case 2 => assert Negative(2, 7);
    case 3 => assert !Negative(3, 7);
    case 4 => assert Negative(4, 7);
    case 5 => assert !Negative(5, 7);
    case 6 => assert !Negative(6, 7);
    case 7 => assert Negative(7, 7);
  }

  /**
   * The table orders the rows of the natural Hadamard matrix by how often their sign changes, the
   * row that never changes last.
   */
  lemma OrderyBySignChanges(stride: nat, i: nat)
    requires stride in {2, 4, 8, 16} && i < stride
    ensures Ordery(stride)[i] == stride - 1 - SignChanges(stride, i)
  {
    if stride == 2 {
      Rows2(i);
    } else if stride == 4 {
      Rows4(i);
    } else if stride == 8 {
      Rows8(i);
    } else {
      Rows16(if i < 8 then i else i - 8);
    }
  }

  lemma OrderPermutes(stride: nat, hadamard: bool) returns (inverse: seq<nat>)
    requires hadamard ==> stride in {2, 4, 8, 16}
    ensures Permutes(Order(stride, hadamard), inverse, stride)
  {
    inverse := if hadamard then OrderyInverse(stride) else Plain(stride);
    var order := Order(stride, hadamard);
    if hadamard {
      forall i: nat | i < stride ensures UndoesAt(order, inverse, stride, i) {
        if stride == 2 {
          Ordery2(i);
        } else if stride == 4 {
          Ordery4(i);
        } else if stride == 8 {
          Ordery8(i);
        } else {
          Ordery16(i);
        }
      }
      UndoneIsPermutation(order, inverse, stride);
    }
  }

  lemma UndoneIsPermutation(order: seq<nat>, inverse: seq<nat>, stride: nat)
    requires |order| == |inverse| == stride && forall i: nat | i < stride :: UndoesAt(order, inverse, stride, i)
    ensures Permutes(order, inverse, stride)
  {
    forall i: nat | i < stride ensures order[i] < stride && inverse[order[i]] == i && inverse[i] < stride && order[inverse[i]] == i {
      assert UndoesAt(order, inverse, stride, i);
    }
  }

  // --- what the two routines compute ---------------------------------------------------

  /** `y` is `x` with sample `j` of block `i` moved from place `j * stride + i` to row `order[i]`. */
  ghost predicate Deinterleaved<T>(x: seq<T>, y: seq<T>, n0: nat, stride: nat, order: seq<nat>)
  {
    && |x| == |y| && |order| == stride
    && forall i: nat, j: nat {:trigger At(order[i], n0, j)} {:trigger At(j, stride, i)} | i < stride && j < n0 ::
         At(order[i], n0, j) < |y| && At(j, stride, i) < |x| && y[At(order[i], n0, j)] == x[At(j, stride, i)]
  }

  /** Interleaving is the same relation read backwards. */
  ghost predicate Interleaved<T>(y: seq<T>, z: seq<T>, n0: nat, stride: nat, order: seq<nat>)
  {
    Deinterleaved(z, y, n0, stride, order)
  }

  /** The relation is one to one: what is interleaved back is the original. */
  lemma InterleaveUndoes<T>(x: seq<T>, y: seq<T>, z: seq<T>, n0: nat, stride: nat, order: seq<nat>)
    requires |x| == n0 * stride && Deinterleaved(x, y, n0, stride, order) && Interleaved(y, z, n0, stride, order)
    ensures z == x
  {
    forall k: nat | k < |x| ensures z[k] == x[k] {
      var j, i := AtSurjective(k, n0, stride);
      assert y[At(order[i], n0, j)] == x[At(j, stride, i)];
    }
  }

  /** And the other way round, because the permutation reaches every row. */
  lemma DeinterleaveUndoes<T>(y: seq<T>, z: seq<T>, y': seq<T>, n0: nat, stride: nat, order: seq<nat>, inverse: seq<nat>)
    requires |y| == n0 * stride && Permutes(order, inverse, stride)
    requires Interleaved(y, z, n0, stride, order) && Deinterleaved(z, y', n0, stride, order)
    ensures y' == y
  {
    assert stride * n0 == n0 * stride;
    forall k: nat | k < |y| ensures y'[k] == y[k] {
      var a, j := AtSurjective(k, stride, n0);
      var i := inverse[a];
      assert y'[At(order[i], n0, j)] == z[At(j, stride, i)];
    }
  }

  // --- the loops -----------------------------------------------------------------------

  /** Blocks before `i`, and the first `m` samples of block `i`, are in place. */
  ghost predicate Done<T>(x: seq<T>, y: seq<T>, n0: nat, stride: nat, order: seq<nat>, i: nat, m: nat)
    requires |order| == stride
  {
    forall p: nat, j: nat {:trigger At(order[p], n0, j)} {:trigger At(j, stride, p)}
      | p < stride && j < n0 && (p < i || (p == i && j < m)) ::
      At(order[p], n0, j) < |y| && At(j, stride, p) < |x| && y[At(order[p], n0, j)] == x[At(j, stride, p)]
  }

  /** Writing a row that is not done yet keeps the done ones. */
  lemma WriteRow<T>(x: seq<T>, y: seq<T>, n0: nat, stride: nat, order: seq<nat>, inverse: seq<nat>, i: nat, m: nat)
    requires Permutes(order, inverse, stride) && i < stride && m < n0 && |x| == |y| == n0 * stride
    requires Done(x, y, n0, stride, order, i, m)
    ensures At(order[i], n0, m) < |y| && At(m, stride, i) < |x|
    ensures Done(x, y[At(order[i], n0, m) := x[At(m, stride, i)]], n0, stride, order, i, m + 1)
  {
    assert stride * n0 == n0 * stride;
    AtBound(order[i], stride, n0, m);
    AtBound(m, n0, stride, i);
    forall p: nat, j: nat | p < stride && j < n0 && At(order[p], n0, j) == At(order[i], n0, m)
      ensures p == i && j == m
    {
      AtInjective(order[p], j, order[i], m, n0);
      assert inverse[order[p]] == inverse[order[i]];
    }
  }

  /** Writing a column place likewise. */
  lemma WritePlace<T>(x: seq<T>, y: seq<T>, n0: nat, stride: nat, order: seq<nat>, inverse: seq<nat>, i: nat, m: nat)
    requires Permutes(order, inverse, stride) && i < stride && m < n0 && |x| == |y| == n0 * stride
    requires Done(x, y, n0, stride, order, i, m)
    ensures At(order[i], n0, m) < |y| && At(m, stride, i) < |x|
    ensures Done(x[At(m, stride, i) := y[At(order[i], n0, m)]], y, n0, stride, order, i, m + 1)
  {
    assert stride * n0 == n0 * stride;
    AtBound(order[i], stride, n0, m);
    AtBound(m, n0, stride, i);
    forall p: nat, j: nat | p < stride && j < n0 && At(j, stride, p) == At(m, stride, i)
      ensures p == i && j == m
    {
      AtInjective(j, p, m, i, stride);
    }
  }

  method Place(a: nat, n: nat, j: nat) returns (r: nat)
    ensures r == At(a, n, j)
  {
    r := a * n + j;
    AtIsProduct(a, n, j);
  }

  /** The loop nest of `deinterleave_hadamard`, into a scratch copy. */
  method Gather<T>(x: seq<T>, n0: nat, stride: nat, order: seq<nat>, ghost inverse: seq<nat>) returns (tmp: seq<T>)
    requires |x| == n0 * stride && Permutes(order, inverse, stride)
    ensures Deinterleaved(x, tmp, n0, stride, order)
  {
    tmp := x;
    for i := 0 to stride
      invariant |tmp| == |x| && Done(x, tmp, n0, stride, order, i, 0)
    {
      for j := 0 to n0
        invariant |tmp| == |x| && Done(x, tmp, n0, stride, order, i, j)
      {
        var to := Place(order[i], n0, j);
        var from := Place(j, stride, i);
        WriteRow(x, tmp, n0, stride, order, inverse, i, j);
        tmp := tmp[to := x[from]];
      }
    }
  }

  /** The loop nest of `interleave_hadamard`. */
  method Scatter<T>(x: seq<T>, n0: nat, stride: nat, order: seq<nat>, ghost inverse: seq<nat>) returns (tmp: seq<T>)
    requires |x| == n0 * stride && Permutes(order, inverse, stride)
    ensures Interleaved(x, tmp, n0, stride, order)
  {
    tmp := x;
    for i := 0 to stride
      invariant |tmp| == |x| && Done(tmp, x, n0, stride, order, i, 0)
    {
      for j := 0 to n0
        invariant |tmp| == |x| && Done(tmp, x, n0, stride, order, i, j)
      {
        var from := Place(order[i], n0, j);
        var to := Place(j, stride, i);
        WritePlace(tmp, x, n0, stride, order, inverse, i, j);
        tmp := tmp[to := x[from]];
      }
    }
  }

  /** `deinterleave_hadamard`. */
  method DeinterleaveHadamard<T>(x: array<T>, n0: nat, stride: nat, hadamard: bool)
    requires stride > 0 && x.Length == n0 * stride && (hadamard ==> stride in {2, 4, 8, 16})
    modifies x
    ensures Deinterleaved(old(x[..]), x[..], n0, stride, Order(stride, hadamard))
  {
    ghost var inverse := OrderPermutes(stride, hadamard);
    var tmp := Gather(x[..], n0, stride, Order(stride, hadamard), inverse);
    CopyBack(x, tmp);
  }

  /** `interleave_hadamard`. */
  method InterleaveHadamard<T>(x: array<T>, n0: nat, stride: nat, hadamard: bool)
    requires stride > 0 && x.Length == n0 * stride && (hadamard ==> stride in {2, 4, 8, 16})
    modifies x
    ensures Interleaved(old(x[..]), x[..], n0, stride, Order(stride, hadamard))
  {
    ghost var inverse := OrderPermutes(stride, hadamard);
    var tmp := Scatter(x[..], n0, stride, Order(stride, hadamard), inverse);
    CopyBack(x, tmp);
  }

  /** `OPUS_COPY`. */
  method CopyBack<T>(x: array<T>, s: seq<T>)
    requires |s| == x.Length
    modifies x
    ensures x[..] == s
  {
    for i := 0 to x.Length
      invariant x[..i] == s[..i]
    {
      x[i] := s[i];
    }
  }

  /** Deinterleaving and interleaving a band leaves it as it was. */
  method ThereAndBack<T>(x: array<T>, n0: nat, stride: nat, hadamard: bool)
    requires stride > 0 && x.Length == n0 * stride && (hadamard ==> stride in {2, 4, 8, 16})
    modifies x
    ensures x[..] == old(x[..])
  {
    ghost var x0 := x[..];
    DeinterleaveHadamard(x, n0, stride, hadamard);
    ghost var y := x[..];
    InterleaveHadamard(x, n0, stride, hadamard);
    InterleaveUndoes(x0, y, x[..], n0, stride, Order(stride, hadamard));
  }
}
