/**
 * The ConcatV2 and ConcatOffset kernels (ge/host_kernels/concat_v2_kernel.cc,
 * ge/host_kernels/concat_offset_kernel.cc).
 */
module Concat {
  import opened Wrappers
  import opened Powers
  import opened IntGuards
  import opened Shape
  import opened Blocks

  // ----- the flat form

  /** Elements that input `k` contributes to each row. */
  function Gap<T>(inputs: seq<seq<T>>, loop: nat, k: nat): nat
    requires k < |inputs| && loop > 0
  {
    QuotientNat(|inputs[k]|, loop);
    |inputs[k]| / loop
  }

  lemma QuotientNat(x: nat, d: nat)
    requires d > 0
    ensures 0 <= x / d && x / d * d <= x
  {
    var q := x / d;
    assert x == d * q + x % d;
    if q < 0 { MulMonotone(q, -1, d); }
  }

  /** Elements of one row that come before input `k`. */
  function Before<T>(inputs: seq<seq<T>>, loop: nat, k: nat): nat
    requires k <= |inputs| && loop > 0
  {
    if k == 0 then 0 else Before(inputs, loop, k - 1) + Gap(inputs, loop, k - 1)
  }

  /** Piece `i` of input `k`. */
  function Piece<T>(inputs: seq<seq<T>>, loop: nat, k: nat, i: nat): seq<T>
    requires k < |inputs| && i < loop
  {
    PieceBounds(|inputs[k]|, loop, i);
    Block(inputs[k], i, Gap(inputs, loop, k))
  }

  lemma PieceBounds(len: nat, loop: nat, i: nat)
    requires i < loop
    ensures 0 <= len / loop && (i + 1) * (len / loop) <= len
  {
    QuotientNat(len, loop);
    MulMonotone(i + 1, loop, len / loop);
  }

  /** The first `k` pieces of row `i`. */
  function Row<T>(inputs: seq<seq<T>>, loop: nat, i: nat, k: nat): seq<T>
    requires i < loop && k <= |inputs|
  {
    if k == 0 then [] else Row(inputs, loop, i, k - 1) + Piece(inputs, loop, k - 1, i)
  }

  /** The first `i` rows. */
  function Rows<T>(inputs: seq<seq<T>>, loop: nat, i: nat): seq<T>
    requires i <= loop
  {
    if i == 0 then [] else Rows(inputs, loop, i - 1) + Row(inputs, loop, i - 1, |inputs|)
  }

  datatype Tensor<+T> = Tensor(shape: seq<nat>, data: seq<T>)

  /** A tensor with data has at least the elements that its shape promises. */
  predicate Backed<T>(t: Tensor<T>) {
    t.data == [] || Product(t.shape) <= |t.data|
  }

  predicate AllBacked<T>(inputs: seq<Tensor<T>>) {
    forall k :: 0 <= k < |inputs| ==> Backed(inputs[k])
  }

  /** The elements the shapes count; a tensor without data has none, whatever its shape. */
  function Buffers<T>(inputs: seq<Tensor<T>>): (r: seq<seq<T>>)
    requires AllBacked(inputs)
    ensures |r| == |inputs|
    ensures forall k :: 0 <= k < |inputs| ==>
              r[k] == if inputs[k].data == [] then [] else inputs[k].data[..Product(inputs[k].shape)]
  {
    seq(|inputs|, k requires 0 <= k < |inputs| =>
      if inputs[k].data == [] then [] else inputs[k].data[..Product(inputs[k].shape)])
  }

  /** The nested loops push the elements one by one; inputs without data are skipped. */
  method GetOutputData<T>(loop: nat, inputs: seq<Tensor<T>>) returns (y: seq<T>)
    requires AllBacked(inputs)
    ensures y == Rows(Buffers(inputs), loop, loop)
  {
    hide Gap, Piece, Product, Rows, Row;
    ghost var buffers := Buffers(inputs);
    y := [];
    RowStep(buffers, loop, 0);
    for i := 0 to loop
      invariant y == Rows(buffers, loop, i)
    {
      RowStep(buffers, loop, i);
      for k := 0 to |inputs|
        invariant y == Rows(buffers, loop, i) + Row(buffers, loop, i, k)
      {
        PieceStep(buffers, loop, i, k);
        if |inputs[k].data| == 0 {
          EmptyPiece(buffers, loop, k, i);
          continue;
        }
        PieceIs(buffers, loop, k, i);
        GapOfShape(inputs, loop, k);
        var piece := CopyPiece(inputs[k].data, i, Product(inputs[k].shape) / loop);
        y := y + piece;
      }
    }
  }

  /** The innermost loop. */
  method CopyPiece<T>(data: seq<T>, i: nat, gap: nat) returns (piece: seq<T>)
    requires 0 <= i * gap && i * gap + gap <= |data|
    ensures piece == data[i * gap..i * gap + gap]
  {
    piece := [];
    for j := 0 to gap
      invariant piece == data[i * gap..i * gap + j]
    {
      piece := piece + [data[j + i * gap]];
    }
  }

  lemma GapOfShape<T>(inputs: seq<Tensor<T>>, loop: nat, k: nat)
    requires AllBacked(inputs) && k < |inputs| && loop > 0 && inputs[k].data != []
    ensures Gap(Buffers(inputs), loop, k) == Product(inputs[k].shape) / loop
  {
    hide Product;
  }

  lemma RowStep<T>(inputs: seq<seq<T>>, loop: nat, i: nat)
    ensures Rows(inputs, loop, 0) == []
    ensures i < loop ==> Row(inputs, loop, i, 0) == []
    ensures i < loop ==> Rows(inputs, loop, i + 1) == Rows(inputs, loop, i) + Row(inputs, loop, i, |inputs|)
  {}

  lemma PieceStep<T>(inputs: seq<seq<T>>, loop: nat, i: nat, k: nat)
    requires i < loop && k < |inputs|
    ensures Row(inputs, loop, i, k + 1) == Row(inputs, loop, i, k) + Piece(inputs, loop, k, i)
  {}

  lemma PieceIs<T>(inputs: seq<seq<T>>, loop: nat, k: nat, i: nat)
    requires k < |inputs| && i < loop
    ensures var g := Gap(inputs, loop, k);
            && 0 <= i * g && i * g + g <= |inputs[k]|
            && Piece(inputs, loop, k, i) == inputs[k][i * g..i * g + g]
  {
    PieceBounds(|inputs[k]|, loop, i);
    BlockStart(i, Gap(inputs, loop, k));
  }

  lemma EmptyPiece<T>(inputs: seq<seq<T>>, loop: nat, k: nat, i: nat)
    requires k < |inputs| && i < loop && |inputs[k]| == 0
    ensures Piece(inputs, loop, k, i) == []
  {
    PieceBounds(0, loop, i);
  }

  lemma {:induction false} RowLength<T>(inputs: seq<seq<T>>, loop: nat, i: nat, k: nat)
    requires i < loop && k <= |inputs|
    ensures |Row(inputs, loop, i, k)| == Before(inputs, loop, k)
  {
    if k > 0 {
      RowLength(inputs, loop, i, k - 1);
      PieceLength(inputs, loop, k - 1, i);
    }
  }

  lemma PieceLength<T>(inputs: seq<seq<T>>, loop: nat, k: nat, i: nat)
    requires k < |inputs| && i < loop
    ensures |Piece(inputs, loop, k, i)| == Gap(inputs, loop, k)
  {
    PieceBounds(|inputs[k]|, loop, i);
    BlockStart(i, Gap(inputs, loop, k));
  }

  lemma {:induction false} RowsLength<T>(inputs: seq<seq<T>>, loop: nat, i: nat)
    requires i <= loop && loop > 0
    ensures |Rows(inputs, loop, i)| == i * Before(inputs, loop, |inputs|)
  {
    if i > 0 {
      RowsLength(inputs, loop, i - 1);
      RowLength(inputs, loop, i - 1, |inputs|);
      BlockStart(i - 1, Before(inputs, loop, |inputs|));
    }
  }

  /** The pieces before the last one stay where they are. */
  lemma {:induction false} InRow<T>(inputs: seq<seq<T>>, loop: nat, i: nat, n: nat, k: nat)
    requires i < loop && k < n <= |inputs|
    ensures var b, g := Before(inputs, loop, k), Gap(inputs, loop, k);
            b + g <= |Row(inputs, loop, i, n)| && Row(inputs, loop, i, n)[b..b + g] == Piece(inputs, loop, k, i)
  {
    hide Gap, Piece;
    RowLength(inputs, loop, i, n - 1);
    PieceLength(inputs, loop, n - 1, i);
    if k < n - 1 {
      InRow(inputs, loop, i, n - 1, k);
    }
  }

  lemma {:induction false} InRows<T>(inputs: seq<seq<T>>, loop: nat, n: nat, i: nat)
    requires i < n <= loop
    ensures var g := Before(inputs, loop, |inputs|);
            && 0 <= i * g && i * g + g <= |Rows(inputs, loop, n)|
            && Rows(inputs, loop, n)[i * g..i * g + g] == Row(inputs, loop, i, |inputs|)
  {
    hide Before, Row;
    RowsLength(inputs, loop, n - 1);
    RowLength(inputs, loop, n - 1, |inputs|);
    if i < n - 1 {
      InRows(inputs, loop, n - 1, i);
    }
  }

  /** Element `j` of piece `i` of input `k` stands at `i * G + S_k + j`. */
  lemma Placement<T>(inputs: seq<seq<T>>, loop: nat, i: nat, k: nat, j: nat)
    requires i < loop && k < |inputs| && j < Gap(inputs, loop, k)
    ensures var p := i * Before(inputs, loop, |inputs|) + Before(inputs, loop, k) + j;
            && 0 <= p < |Rows(inputs, loop, loop)| && 0 <= i * Gap(inputs, loop, k) + j < |inputs[k]|
            && Rows(inputs, loop, loop)[p] == inputs[k][i * Gap(inputs, loop, k) + j]
  {
    hide Before, Row, Rows, Gap;
    var g, b, all := Gap(inputs, loop, k), Before(inputs, loop, k), Before(inputs, loop, |inputs|);
    var y := Rows(inputs, loop, loop);
    InRows(inputs, loop, loop, i);
    InRow(inputs, loop, i, |inputs|, k);
    RowLength(inputs, loop, i, |inputs|);
    PieceAt(inputs, loop, k, i, j);
    var row := Row(inputs, loop, i, |inputs|);
    assert row[b + j] == row[b..b + g][j];
    assert y[i * all + (b + j)] == y[i * all..i * all + all][b + j];
  }

  lemma PieceAt<T>(inputs: seq<seq<T>>, loop: nat, k: nat, i: nat, j: nat)
    requires k < |inputs| && i < loop && j < Gap(inputs, loop, k)
    ensures |Piece(inputs, loop, k, i)| == Gap(inputs, loop, k)
    ensures 0 <= i * Gap(inputs, loop, k) + j < |inputs[k]|
    ensures Piece(inputs, loop, k, i)[j] == inputs[k][i * Gap(inputs, loop, k) + j]
  {
    PieceLength(inputs, loop, k, i);
    PieceBounds(|inputs[k]|, loop, i);
    BlockStart(i, Gap(inputs, loop, k));
  }

  /** Nothing is lost: when every input splits evenly into rows, the output has all their elements. */
  lemma LengthConserved<T>(inputs: seq<seq<T>>, loop: nat)
    requires loop > 0
    requires forall i :: 0 <= i < |inputs| ==> |inputs[i]| % loop == 0
    ensures |Rows(inputs, loop, loop)| == TotalLength(inputs, |inputs|)
  {
    hide Rows, Before, TotalLength;
    RowsLength(inputs, loop, loop);
    BeforeTotal(inputs, loop, |inputs|);
  }

  lemma {:induction false} BeforeTotal<T>(inputs: seq<seq<T>>, loop: nat, k: nat)
    requires loop > 0 && k <= |inputs|
    requires forall i :: 0 <= i < |inputs| ==> |inputs[i]| % loop == 0
    ensures loop * Before(inputs, loop, k) == TotalLength(inputs, k)
  {
    hide Gap;
    if k > 0 {
      BeforeTotal(inputs, loop, k - 1);
      EvenGap(inputs, loop, k - 1);
      SumTimes(loop, Before(inputs, loop, k - 1), Gap(inputs, loop, k - 1));
    }
  }

  lemma EvenGap<T>(inputs: seq<seq<T>>, loop: nat, k: nat)
    requires loop > 0 && k < |inputs| && |inputs[k]| % loop == 0
    ensures loop * Gap(inputs, loop, k) == |inputs[k]|
  {}

  lemma SumTimes(n: nat, a: nat, b: nat)
    ensures n * (a + b) == n * a + n * b
  {}

  function TotalLength<T>(inputs: seq<seq<T>>, k: nat): nat
    requires k <= |inputs|
  {
    if k == 0 then 0 else TotalLength(inputs, k - 1) + |inputs[k - 1]|
  }

  /** The first input that has data. */
  predicate FirstFull<T>(inputs: seq<Tensor<T>>, f: int) {
    0 <= f < |inputs| && |inputs[f].data| > 0 && forall k :: 0 <= k < f ==> |inputs[k].data| == 0
  }

  function FromEnd(axis: int, rank: nat): int {
    if axis < 0 then axis + rank else axis
  }

  /** What the kernel folds: two or more inputs, an axis in range, inputs without data only at rank 1. */
  predicate Folds<T>(inputs: seq<Tensor<T>>, axisIn: int, f: int) {
    && |inputs| >= 2 && FirstFull(inputs, f)
    && 0 <= FromEnd(axisIn, |inputs[f].shape|) < |inputs[f].shape|
    && (|inputs[f].shape| <= 1 || forall k :: 0 <= k < |inputs| ==> |inputs[k].data| > 0)
  }

  /** An axis counted from the end means the same axis counted from the front, for the same inputs. */
  lemma BothSpellings<T>(inputs: seq<Tensor<T>>, axis: nat, f: int)
    requires FirstFull(inputs, f) && axis < |inputs[f].shape|
    ensures FromEnd(axis, |inputs[f].shape|) == axis == FromEnd(axis - |inputs[f].shape|, |inputs[f].shape|)
    ensures Folds(inputs, axis - |inputs[f].shape|, f) <==> Folds(inputs, axis, f)
    ensures Folds(inputs, axis, f)
       <==> |inputs| >= 2 && (|inputs[f].shape| == 1 || forall k :: 0 <= k < |inputs| ==> |inputs[k].data| > 0)
  {}

  /** Every axis outside the rank, counted from either end, is turned down. */
  lemma AxisRange<T>(inputs: seq<Tensor<T>>, axisIn: int, f: int)
    requires Folds(inputs, axisIn, f)
    ensures -|inputs[f].shape| <= axisIn < |inputs[f].shape|
  {}

  /** The validation: finds the first input with data and the axis counted from the front. */
  method ConcatV2PreCompute<T>(inputs: seq<Tensor<T>>, axisIn: int) returns (ok: bool, axis: int, f: int)
    ensures ok <==> Folds(inputs, axisIn, f)
    ensures !ok ==> forall g :: !Folds(inputs, axisIn, g)
    ensures ok ==> axis == FromEnd(axisIn, |inputs[f].shape|)
  {
    f, axis := -1, -1;
    if |inputs| < 2 {
      return false, axis, f;
    }
    var anyEmpty := false;
    for i := 0 to |inputs|
      invariant anyEmpty <==> exists k :: 0 <= k < i && |inputs[k].data| == 0
      invariant if f == -1 then forall k :: 0 <= k < i ==> |inputs[k].data| == 0 else f < i && FirstFull(inputs, f)
    {
      if |inputs[i].data| == 0 {
        anyEmpty := true;
        continue;
      }
      if f == -1 {
        f := i;
      }
    }
    if f == -1 {
      return false, axis, f;
    }
    var rank := |inputs[f].shape|;
    axis := if axisIn < 0 then axisIn + rank else axisIn;
    ok := !(axis < 0 || axis >= rank || (anyEmpty && rank > 1));
  }

  /**
   * The kernel: validation, the number of rows from the shape of the first input with data, then the
   * copy loops over all inputs.
   */
  method ConcatV2<T>(inputs: seq<Tensor<T>>, axisIn: int) returns (r: Option<seq<T>>, f: int)
    requires AllBacked(inputs)
    ensures r.Some? <==> Folds(inputs, axisIn, f)
    ensures r.None? ==> forall g :: !Folds(inputs, axisIn, g)
    ensures r.Some? ==> var loop := Product(inputs[f].shape[..FromEnd(axisIn, |inputs[f].shape|)]);
                        r.value == Rows(Buffers(inputs), loop, loop)
  {
    hide Product, Folds;
    var ok, axis;
    ok, axis, f := ConcatV2PreCompute(inputs, axisIn);
    if !ok {
      return None, f;
    }
    FoldsAxis(inputs, axisIn, f);
    var dims := inputs[f].shape;
    var loop := 1;
    assert dims[..0] == [];
    ProductOfNone();
    for i := 0 to axis
      invariant loop == Product(dims[..i])
    {
      ProductPrefix(dims, i);
      loop := loop * dims[i];
    }
    var y := GetOutputData(loop, inputs);
    r := Some(y);
  }

  lemma FoldsAxis<T>(inputs: seq<Tensor<T>>, axisIn: int, f: int)
    requires Folds(inputs, axisIn, f)
    ensures FirstFull(inputs, f) && 0 <= FromEnd(axisIn, |inputs[f].shape|) < |inputs[f].shape|
  {}

  // ----- the multi-dimensional meaning

  function SumTo(sizes: seq<nat>, k: nat): nat
    requires k <= |sizes|
  {
    if k == 0 then 0 else SumTo(sizes, k - 1) + sizes[k - 1]
  }

  lemma {:induction false} SumMonotone(sizes: seq<nat>, k: nat, n: nat)
    requires k < n <= |sizes|
    ensures SumTo(sizes, k) + sizes[k] <= SumTo(sizes, n)
  {
    if k < n - 1 {
      SumMonotone(sizes, k, n - 1);
    }
  }

  /** Inputs that agree with `base` off the axis and have the given sizes on it. */
  predicate Agree<T>(base: seq<nat>, axis: nat, sizes: seq<nat>, inputs: seq<seq<T>>) {
    && axis < |base| && |sizes| == |inputs|
    && forall k :: 0 <= k < |inputs| ==> |inputs[k]| == Product(base[axis := sizes[k]])
  }

  lemma SizedProduct(base: seq<nat>, axis: nat, size: nat)
    requires axis < |base|
    ensures Product(base[axis := size]) == Product(base[..axis]) * (size * Product(base[axis + 1..]))
  {
    var dims := base[axis := size];
    assert dims[..axis] == base[..axis] && dims[axis + 1..] == base[axis + 1..];
    ProductSplit(dims, axis);
    ProductSuffix(dims, axis);
  }

  lemma GapIs<T>(base: seq<nat>, axis: nat, sizes: seq<nat>, inputs: seq<seq<T>>, k: nat)
    requires Agree(base, axis, sizes, inputs) && k < |inputs| && Product(base[..axis]) > 0
    ensures Gap(inputs, Product(base[..axis]), k) == sizes[k] * Product(base[axis + 1..])
  {
    hide Product;
    SizedProduct(base, axis, sizes[k]);
    var loop, g := Product(base[..axis]), sizes[k] * Product(base[axis + 1..]);
    DivModUnique(loop * g, loop, g, 0);
  }

  lemma {:induction false} BeforeIs<T>(base: seq<nat>, axis: nat, sizes: seq<nat>, inputs: seq<seq<T>>, k: nat)
    requires Agree(base, axis, sizes, inputs) && k <= |inputs| && Product(base[..axis]) > 0
    ensures Before(inputs, Product(base[..axis]), k) == SumTo(sizes, k) * Product(base[axis + 1..])
  {
    hide Product, Gap;
    if k > 0 {
      BeforeIs(base, axis, sizes, inputs, k - 1);
      GapIs(base, axis, sizes, inputs, k - 1);
      var (s, z, p) := (SumTo(sizes, k - 1), sizes[k - 1], Product(base[axis + 1..]));
      assert (s + z) * p == s * p + z * p;
    }
  }

  /** Where an element of input `k` goes: its coordinate on the axis moves by the sizes before it. */
  function Moved(index: seq<nat>, axis: nat, delta: nat): seq<nat>
    requires axis < |index|
  {
    index[axis := index[axis] + delta]
  }

  /** ConcatV2 on inputs that agree off the axis places every element of every input. */
  lemma ConcatPlaces<T>(base: seq<nat>, axis: nat, sizes: seq<nat>, inputs: seq<seq<T>>, k: nat, index: seq<nat>)
    requires Agree(base, axis, sizes, inputs) && k < |inputs| && InShape(index, base[axis := sizes[k]])
    ensures var y := Rows(inputs, Product(base[..axis]), Product(base[..axis]));
            var out := base[axis := SumTo(sizes, |sizes|)];
            var to := Moved(index, axis, SumTo(sizes, k));
            && InShape(to, out) && |y| == Product(out)
            && Flat(to, out) < |y| && Flat(index, base[axis := sizes[k]]) < |inputs[k]|
            && y[Flat(to, out)] == inputs[k][Flat(index, base[axis := sizes[k]])]
  {
    hide Product, Flat, Rows, Before, Gap, InShape;
    var total, delta := SumTo(sizes, |sizes|), SumTo(sizes, k);
    var loop, inner := Product(base[..axis]), Product(base[axis + 1..]);
    SumMonotone(sizes, k, |sizes|);
    MovedInShape(base, axis, sizes[k], total, delta, index);
    FlatBelow(index, base[axis := sizes[k]]);
    FlatBelow(Moved(index, axis, delta), base[axis := total]);
    FlatOfMoved(base, axis, sizes[k], total, delta, index);
    BeforeIs(base, axis, sizes, inputs, k);
    BeforeIs(base, axis, sizes, inputs, |inputs|);
    GapIs(base, axis, sizes, inputs, k);
    RowsLength(inputs, loop, loop);
    SizedProduct(base, axis, total);
    var h, j := Flat(index[..axis], base[..axis]), index[axis] * inner + Flat(index[axis + 1..], base[axis + 1..]);
    Placement(inputs, loop, h, k, j);
  }

  /** The sizes of the inputs before `k`, added up. */
  lemma SumToExact(sizes: seq<nat>, k: nat)
    requires k < |sizes|
    ensures SumTo(sizes, 0) == 0 && SumTo(sizes, k + 1) == SumTo(sizes, k) + sizes[k]
  {}

  /**
   * The kernel on tensors whose shapes agree off the axis is concatenation along the axis, whether it is
   * counted from the front or from the end.
   */
  lemma KernelPlaces<T>(inputs: seq<Tensor<T>>, axisIn: int, axis: nat, f: int, base: seq<nat>, sizes: seq<nat>, k: nat, index: seq<nat>)
    requires axis < |base| && (axisIn == axis || axisIn == axis - |base|)
    requires Folds(inputs, axisIn, f) && |sizes| == |inputs| && k < |inputs|
    requires forall i :: 0 <= i < |inputs| ==> inputs[i].shape == base[axis := sizes[i]]
    requires forall i :: 0 <= i < |inputs| ==> |inputs[i].data| == Product(inputs[i].shape)
    requires InShape(index, inputs[k].shape)
    ensures FromEnd(axisIn, |inputs[f].shape|) == axis
    ensures var loop := Product(inputs[f].shape[..axis]);
            var y := Rows(Buffers(inputs), loop, loop);
            var out, to := base[axis := SumTo(sizes, |sizes|)], index[axis := index[axis] + SumTo(sizes, k)];
            && InShape(to, out) && |y| == Product(out)
            && Flat(to, out) < |y| && Flat(index, inputs[k].shape) < |inputs[k].data|
            && y[Flat(to, out)] == inputs[k].data[Flat(index, inputs[k].shape)]
  {
    hide Product, Flat, Rows, Folds, InShape, SumTo, Agree, Buffers;
    FoldsAxis(inputs, axisIn, f);
    assert inputs[f].shape[..axis] == base[..axis];
    TensorsAgree(inputs, axis, base, sizes);
    ConcatPlaces(base, axis, sizes, Buffers(inputs), k, index);
    SameRank(index, inputs[k].shape);
  }

  lemma TensorsAgree<T>(inputs: seq<Tensor<T>>, axis: nat, base: seq<nat>, sizes: seq<nat>)
    requires axis < |base| && |sizes| == |inputs|
    requires forall i :: 0 <= i < |inputs| ==> inputs[i].shape == base[axis := sizes[i]]
    requires forall i :: 0 <= i < |inputs| ==> |inputs[i].data| == Product(inputs[i].shape)
    ensures AllBacked(inputs) && Agree(base, axis, sizes, Buffers(inputs))
    ensures forall i :: 0 <= i < |inputs| ==> Buffers(inputs)[i] == inputs[i].data
  {
    hide Product;
  }

  lemma MovedInShape(base: seq<nat>, axis: nat, size: nat, total: nat, delta: nat, index: seq<nat>)
    requires axis < |base| && delta + size <= total && InShape(index, base[axis := size])
    ensures |index| == |base| && index[axis] < size && InShape(Moved(index, axis, delta), base[axis := total])
  {
    var dims, out, to := base[axis := size], base[axis := total], Moved(index, axis, delta);
    assert index[axis] < dims[axis];
    forall i | 0 <= i < |base| ensures to[i] < out[i] {
      assert index[i] < dims[i];
    }
  }

  /** Both positions in terms of the row and the place in the row. */
  lemma FlatOfMoved(base: seq<nat>, axis: nat, size: nat, total: nat, delta: nat, index: seq<nat>)
    requires axis < |base| && InShape(index, base[axis := size])
    ensures |index| == |base| && index[axis] < size
    ensures var h, inner := Flat(index[..axis], base[..axis]), Product(base[axis + 1..]);
            var j := index[axis] * inner + Flat(index[axis + 1..], base[axis + 1..]);
            && h < Product(base[..axis]) && j < size * inner
            && Flat(index, base[axis := size]) == h * (size * inner) + j
            && Flat(Moved(index, axis, delta), base[axis := total]) == h * (total * inner) + delta * inner + j
  {
    hide Product, Flat;
    var dims, out, to := base[axis := size], base[axis := total], Moved(index, axis, delta);
    assert index[axis] < dims[axis];
    LeadingPart(index, dims, axis);
    assert dims[..axis] == base[..axis] && out[..axis] == base[..axis];
    assert dims[axis + 1..] == base[axis + 1..] && out[axis + 1..] == base[axis + 1..];
    assert to[..axis] == index[..axis] && to[axis + 1..] == index[axis + 1..];
    FlatAtAxis(index, dims, axis);
    FlatAtAxis(to, out, axis);
    FlatOffsets(Flat(index[..axis], base[..axis]), size, total, delta, index[axis],
                Product(base[axis + 1..]), Flat(index[axis + 1..], base[axis + 1..]));
  }

  lemma LeadingPart(index: seq<nat>, dims: seq<nat>, axis: nat)
    requires axis < |dims| && InShape(index, dims)
    ensures Flat(index[..axis], dims[..axis]) < Product(dims[..axis])
    ensures Flat(index[axis + 1..], dims[axis + 1..]) < Product(dims[axis + 1..])
  {
    FlatBelow(index[..axis], dims[..axis]);
    FlatBelow(index[axis + 1..], dims[axis + 1..]);
  }

  lemma FlatOffsets(h: nat, size: nat, total: nat, delta: nat, c: nat, p: nat, t: nat)
    requires c < size && t < p
    ensures (h * size + c) * p + t == h * (size * p) + (c * p + t)
    ensures (h * total + (c + delta)) * p + t == h * (total * p) + delta * p + (c * p + t)
    ensures c * p + t < size * p
  {
    assert (h * size + c) * p == h * (size * p) + c * p;
    assert (h * total + (c + delta)) * p == h * (total * p) + c * p + delta * p;
    MulMonotone(c + 1, size, p);
    assert (c + 1) * p == c * p + p;
  }

  // ----- ConcatOffset

  /** The zero vector with `offset` at the axis. */
  function OffsetVector(rank: nat, axis: nat, offset: int): seq<int> {
    seq(rank, d => if d == axis then offset else 0)
  }

  datatype OffsetResult = NotChanged | Outside | Offsets(vectors: seq<seq<int>>)

  /**
   * One offset vector per input shape; the running offset is an int32 and wraps around. A negative axis
   * passes the check and indexes outside the buffer, which ends the model with `Outside`.
   */
  method ConcatOffset(axis: int, shapes: seq<seq<int>>) returns (r: OffsetResult)
    requires |shapes| > 0 && forall k :: 0 <= k < |shapes| ==> |shapes[k]| == |shapes[0]|
    requires 0 <= axis < |shapes[0]| ==> forall k :: 0 <= k < |shapes| ==> 0 <= shapes[k][axis] <= MAX_INT32
    ensures r == NotChanged <==> axis >= |shapes[0]|
    ensures r == Outside <==> axis < 0
    ensures r.Offsets? ==> |r.vectors| == |shapes|
    ensures r.Offsets? ==> forall k :: 0 <= k < |shapes| ==>
              r.vectors[k] == OffsetVector(|shapes[0]|, axis, Wrap(SumTo(AxisSizes(shapes, axis), k), 32))
  {
    hide Wrap, OffsetVector, AxisSizes;
    if axis >= |shapes[0]| {
      return NotChanged;
    }
    if axis < 0 {
      return Outside;
    }
    var offset := 0;
    var buf := seq(|shapes[0]|, _ => 0);
    var vectors: seq<seq<int>> := [];
    ghost var sizes := AxisSizes(shapes, axis);
    WrapZero();
    for i := 0 to |shapes|
      invariant offset == Wrap(SumTo(sizes, i), 32) && |vectors| == i && |buf| == |shapes[0]|
      invariant forall d :: 0 <= d < |buf| && d != axis ==> buf[d] == 0
      invariant forall k :: 0 <= k < i ==> vectors[k] == OffsetVector(|buf|, axis, Wrap(SumTo(sizes, k), 32))
    {
      buf := buf[axis := offset];
      BufferIsVector(buf, axis, offset);
      vectors := vectors + [buf];
      WrapAdd(SumTo(sizes, i), sizes[i]);
      WrapRange(SumTo(sizes, i));
      var dim := shapes[i][axis];
      assert dim <= MAX_INT64 - offset;  // the int64 guard cannot fire
      offset := Wrap(offset + dim, 32);
    }
    r := Offsets(vectors);
  }

  lemma BufferIsVector(buf: seq<int>, axis: nat, offset: int)
    requires axis < |buf| && buf[axis] == offset && forall d :: 0 <= d < |buf| && d != axis ==> buf[d] == 0
    ensures buf == OffsetVector(|buf|, axis, offset)
  {}

  function AxisSizes(shapes: seq<seq<int>>, axis: nat): (r: seq<nat>)
    requires forall k :: 0 <= k < |shapes| ==> axis < |shapes[k]| && 0 <= shapes[k][axis]
    ensures |r| == |shapes| && forall k :: 0 <= k < |shapes| ==> r[k] == shapes[k][axis]
  {
    seq(|shapes|, k requires 0 <= k < |shapes| => shapes[k][axis])
  }

  lemma WrapZero()
    ensures Wrap(0, 32) == 0
  {
    assert Pow2(32) > 0;
  }

  lemma WrapRange(x: int)
    ensures -0x8000_0000 <= Wrap(x, 32) <= 0x7FFF_FFFF
  {
    WrapFits(x, 32);
    PowersOfTwo();
  }

  /** Wrapping at every step is wrapping once at the end. */
  lemma WrapAdd(x: int, y: int)
    ensures Wrap(Wrap(x, 32) + y, 32) == Wrap(x + y, 32)
  {
    hide Pow2;
    var k := WrapShift(x, 32);
    SameRemainder(x + y, -k, Pow2(32));
    assert Wrap(x, 32) + y == x + y - -k * Pow2(32);
  }

  /** ConcatOffset and ConcatV2 agree: adding the k-th offset vector to an index of input `k` gives
    * its index in the concatenation, as long as the offsets fit int32. */
  lemma OffsetsLocate<T>(base: seq<nat>, axis: nat, shapes: seq<seq<int>>, inputs: seq<seq<T>>, k: nat, index: seq<nat>)
    requires |shapes| == |inputs| && k < |inputs| && axis < |base|
    requires forall i :: 0 <= i < |shapes| ==> |shapes[i]| == |base| && 0 <= shapes[i][axis]
    requires Agree(base, axis, AxisSizes(shapes, axis), inputs)
    requires FitsInt32(SumTo(AxisSizes(shapes, axis), k))
    requires InShape(index, base[axis := AxisSizes(shapes, axis)[k]])
    ensures var sizes := AxisSizes(shapes, axis);
            var offset := OffsetVector(|base|, axis, Wrap(SumTo(sizes, k), 32));
            var out := base[axis := SumTo(sizes, |sizes|)];
            var y := Rows(inputs, Product(base[..axis]), Product(base[..axis]));
            && (forall d :: 0 <= d < |base| ==> 0 <= index[d] + offset[d])
            && (var to := Sum(index, offset);
                && InShape(to, out) && Flat(to, out) < |y| && Flat(index, base[axis := sizes[k]]) < |inputs[k]|
                && y[Flat(to, out)] == inputs[k][Flat(index, base[axis := sizes[k]])])
  {
    hide Wrap, Product, Flat, Rows, SumTo, InShape;
    var sizes := AxisSizes(shapes, axis);
    FitsWraps(SumTo(sizes, k));
    ConcatPlaces(base, axis, sizes, inputs, k, index);
    assert |index| == |base| by { SameRank(index, base[axis := sizes[k]]); }
    assert Sum(index, OffsetVector(|base|, axis, SumTo(sizes, k))) == Moved(index, axis, SumTo(sizes, k));
  }

  lemma SameRank(index: seq<nat>, dims: seq<nat>)
    requires InShape(index, dims)
    ensures |index| == |dims|
  {}

  lemma FitsWraps(x: int)
    requires FitsInt32(x)
    ensures Wrap(x, 32) == x
  {
    PowersOfTwo();
    WrapFits(x, 32);
  }

  function Sum(index: seq<nat>, offset: seq<int>): (r: seq<nat>)
    requires |index| == |offset| && forall d :: 0 <= d < |index| ==> 0 <= index[d] + offset[d]
    ensures |r| == |index| && forall d :: 0 <= d < |index| ==> r[d] == index[d] + offset[d]
  {
    seq(|index|, d requires 0 <= d < |index| => index[d] + offset[d])
  }
}
