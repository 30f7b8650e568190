/** The GatherV2 kernel with rank-1 indices (ge/host_kernels/gather_v2_kernel.cc). */
module GatherV2 {
  import opened Powers
  import opened IntGuards
  import opened Shape
  import opened Blocks

  datatype Status = Success | NotChanged | ParamInvalid | MemallocFailed

  // ----- what gathering means on the flat buffer

  /** Along one axis: `head` rows of `from` blocks become `head` rows of `|picks|` blocks. */
  datatype Plan = Plan(head: nat, from: nat, inner: nat, picks: seq<nat>)

  predicate ValidPlan(g: Plan) {
    forall i :: 0 <= i < |g.picks| ==> g.picks[i] < g.from
  }

  /** The input block that output block `b` is a copy of. */
  function SourceBlock(g: Plan, b: nat): nat
    requires |g.picks| > 0
  {
    RowOf(b, |g.picks|);
    b / |g.picks| * g.from + g.picks[b % |g.picks|]
  }

  lemma RowOf(b: nat, n: nat)
    requires n > 0
    ensures 0 <= b / n && 0 <= b % n < n && b == b / n * n + b % n
  {
    var q := b / n;
    assert b == n * q + b % n;
    if q < 0 { MulMonotone(q, -1, n); }
  }

  lemma SourceInRange(g: Plan, b: nat)
    requires ValidPlan(g) && |g.picks| > 0 && b < g.head * |g.picks|
    ensures 0 <= SourceBlock(g, b) < g.head * g.from
  {
    var n := |g.picks|;
    RowOf(b, n);
    var h := b / n;
    if h >= g.head { MulMonotone(g.head, h, n); }
    MulMonotone(h + 1, g.head, g.from);
    assert (h + 1) * g.from == h * g.from + g.from;
  }

  /** The first `k` output blocks hold what they should. */
  ghost predicate BlocksDone<T>(g: Plan, x: seq<T>, y: seq<T>, k: nat)
    requires ValidPlan(g) && |g.picks| > 0 && k <= g.head * |g.picks|
    requires |x| == g.head * g.from * g.inner && |y| == g.head * |g.picks| * g.inner
  {
    forall b: nat :: b < k ==> BlockDone(g, x, y, b)
  }

  ghost predicate BlockDone<T>(g: Plan, x: seq<T>, y: seq<T>, b: nat)
    requires ValidPlan(g) && |g.picks| > 0 && b < g.head * |g.picks|
    requires |x| == g.head * g.from * g.inner && |y| == g.head * |g.picks| * g.inner
  {
    SourceInRange(g, b);
    BlockEnd(SourceBlock(g, b), g.head * g.from, g.inner);
    BlockEnd(b, g.head * |g.picks|, g.inner);
    Block(y, b, g.inner) == Block(x, SourceBlock(g, b), g.inner)
  }

  // ----- shapes

  function OutDims(dims: seq<nat>, axis: nat, n: nat): seq<nat>
    requires axis < |dims|
  {
    dims[..axis] + [n] + dims[axis + 1..]
  }

  function PlanOf(dims: seq<nat>, axis: nat, picks: seq<nat>): Plan
    requires axis < |dims|
  {
    Plan(Product(dims[..axis]), dims[axis], Product(dims[axis + 1..]), picks)
  }

  predicate IsStride(stride: seq<nat>, dims: seq<nat>) {
    |stride| == |dims| && forall k :: 0 <= k < |dims| ==> stride[k] == Product(dims[k + 1..])
  }

  lemma PlanSizes(dims: seq<nat>, axis: nat, picks: seq<nat>)
    requires axis < |dims|
    ensures var g := PlanOf(dims, axis, picks);
            && Product(dims) == g.head * g.from * g.inner
            && Product(OutDims(dims, axis, |picks|)) == g.head * |g.picks| * g.inner
  {
    var n := |picks|;
    ProductSplit(dims, axis);
    ProductSuffix(dims, axis);
    var out := OutDims(dims, axis, n);
    ProductSplit(out, axis);
    ProductSuffix(out, axis);
    assert out[..axis] == dims[..axis] && out[axis + 1..] == dims[axis + 1..];
    MulAssoc(Product(dims[..axis]), dims[axis], Product(dims[axis + 1..]));
    MulAssoc(Product(dims[..axis]), n, Product(dims[axis + 1..]));
  }

  /** Strides at and before the axis, in terms of the row they advance by. */
  lemma StridesAtAxis(dims: seq<nat>, axis: nat, stride: seq<nat>)
    requires axis < |dims| && IsStride(stride, dims)
    ensures stride[axis] == Product(dims[axis + 1..])
    ensures axis >= 1 ==> stride[axis - 1] == dims[axis] * Product(dims[axis + 1..])
    ensures axis >= 2 ==> stride[axis - 2] == dims[axis - 1] * (dims[axis] * Product(dims[axis + 1..]))
    ensures axis >= 3 ==> stride[axis - 3] == dims[axis - 2] * (dims[axis - 1] * (dims[axis] * Product(dims[axis + 1..])))
  {
    ProductSuffix(dims, axis);
    if axis >= 1 { ProductSuffix(dims, axis - 1); }
    if axis >= 2 { ProductSuffix(dims, axis - 2); }
    if axis >= 3 { ProductSuffix(dims, axis - 3); }
  }

  lemma HeadOf(dims: seq<nat>, axis: nat)
    requires axis <= |dims|
    ensures axis == 0 ==> Product(dims[..axis]) == 1
    ensures axis == 1 ==> Product(dims[..axis]) == dims[0]
    ensures axis == 2 ==> Product(dims[..axis]) == dims[0] * dims[1]
    ensures axis == 3 ==> Product(dims[..axis]) == dims[0] * dims[1] * dims[2]
  {
    if axis >= 1 { ProductPrefix(dims, 0); assert dims[..0] == []; }
    if axis >= 2 { ProductPrefix(dims, 1); }
    if axis >= 3 { ProductPrefix(dims, 2); }
  }

  // ----- the copy loops

  /** The output is small enough to be the bound of a copy. */
  predicate WithinLimit(length: nat, width: nat) {
    length * width <= SECUREC_MEM_MAX_LEN
  }

  class GatherV2Kernel<T(0)> {
    var indicates: seq<nat>
    var xstride: seq<nat>
    var ystride: seq<nat>

    /**
     * The innermost loop that the four functions share: one block per index, from row `h` of the
     * input to row `h` of the output. The whole rest of the output is the bound of each copy, so
     * only the very first copy can be refused.
     */
    method GatherRow(ghost g: Plan, x: seq<T>, y: array<T>, xRow: nat, yRow: nat, size: nat, width: nat, ghost h: nat)
        returns (ok: bool)
      requires g.picks == indicates && size == g.inner > 0 && h < g.head && RowsDone(g, x, y[..], h)
      requires xRow == h * g.from * g.inner && yRow == h * |g.picks| * g.inner
      requires width > 0 && (h > 0 ==> WithinLimit(y.Length, width))
      modifies y
      ensures ok <==> WithinLimit(y.Length, width)
      ensures ok ==> RowsDone(g, x, y[..], h + 1)
    {
      hide BlocksDone, WithinLimit, SourceBlock, Block;
      ghost var n := |g.picks|;
      RowBounds(g, h);
      for m := 0 to |indicates|
        invariant h * n + m <= g.head * n
        invariant BlocksDone(g, x, y[..], h * n + m)
        invariant h > 0 || m > 0 ==> WithinLimit(y.Length, width)
      {
        RowBlock(g, h, m);
        ok := GatherBlock(g, x, y, xRow + indicates[m] * size, yRow + m * size, size, width, h, m);
        if !ok {
          return;
        }
      }
      ok := true;
    }

    /** One copy, with the whole rest of the output as its bound. */
    method GatherBlock(ghost g: Plan, x: seq<T>, y: array<T>, src: nat, dst: nat, size: nat, width: nat, ghost h: nat, ghost m: nat)
        returns (ok: bool)
      requires ValidPlan(g) && h < g.head && m < |g.picks| && size == g.inner > 0 && width > 0
      requires |x| == g.head * g.from * g.inner && y.Length == g.head * |g.picks| * g.inner
      requires h * |g.picks| + m < g.head * |g.picks| && BlocksDone(g, x, y[..], h * |g.picks| + m)
      requires dst == (h * |g.picks| + m) * g.inner && src == (h * g.from + g.picks[m]) * g.inner
      requires h > 0 || m > 0 ==> WithinLimit(y.Length, width)
      modifies y
      ensures ok <==> WithinLimit(y.Length, width)
      ensures ok ==> BlocksDone(g, x, y[..], h * |g.picks| + m + 1)
    {
      hide BlocksDone, SourceBlock;
      ghost var before := y[..];
      RowBlock(g, h, m);
      BlockRoom(y.Length, dst, size, width, h == 0 && m == 0);
      hide WithinLimit;
      ok := BoundedCopy(y, dst, (y.Length - dst) * width, x, src, size, width);
      if ok {
        NextBlock(g, x, before, y[..], h, m);
      }
    }

    /** Strides and indices are in place for a gather of a tensor of shape `dims` along `axis`. */
    ghost predicate Ready(dims: seq<nat>, axis: nat)
      reads this
    {
      && axis < |dims| && |indicates| > 0
      && IsStride(xstride, dims) && IsStride(ystride, OutDims(dims, axis, |indicates|))
      && forall i :: 0 <= i < |indicates| ==> indicates[i] < dims[axis]
    }

    method ProcessAxis0(dims: seq<nat>, x: seq<T>, out: seq<nat>, y: array<T>, width: nat) returns (ok: bool)
      requires Ready(dims, 0) && out == OutDims(dims, 0, |indicates|)
      requires |x| == Product(dims) && y.Length == Product(out) > 0 && width > 0
      modifies y
      ensures ok <==> WithinLimit(y.Length, width)
      ensures ok ==> AllDone(PlanOf(dims, 0, indicates), x, y[..])
    {
      hide Product, RowsDone, WithinLimit;
      ghost var g := PlanOf(dims, 0, indicates);
      PlanSizes(dims, 0, indicates);
      HeadOf(dims, 0);
      PlanPositive(g);
      NothingDone(g, x, y[..]);
      ok := GatherRow(g, x, y, 0, 0, xstride[0], width, 0);
    }

    method ProcessAxis1(dims: seq<nat>, x: seq<T>, out: seq<nat>, y: array<T>, width: nat) returns (ok: bool)
      requires Ready(dims, 1) && out == OutDims(dims, 1, |indicates|)
      requires |x| == Product(dims) && y.Length == Product(out) > 0 && width > 0
      modifies y
      ensures ok <==> WithinLimit(y.Length, width)
      ensures ok ==> AllDone(PlanOf(dims, 1, indicates), x, y[..])
    {
      hide Product, RowsDone, WithinLimit;
      ghost var g := PlanOf(dims, 1, indicates);
      PlanSizes(dims, 1, indicates);
      HeadOf(dims, 1);
      PlanPositive(g);
      StridesAtAxis(dims, 1, xstride);
      StridesAtAxis(out, 1, ystride);
      NothingDone(g, x, y[..]);
      for i := 0 to out[0]
        invariant RowsDone(g, x, y[..], i) && (i > 0 ==> WithinLimit(y.Length, width))
      {
        MulAssoc(i, dims[1], g.inner);
        MulAssoc(i, out[1], g.inner);
        ok := GatherRow(g, x, y, i * xstride[0], i * ystride[0], xstride[1], width, i);
        if !ok {
          return;
        }
      }
      ok := true;
    }

    method ProcessAxis2(dims: seq<nat>, x: seq<T>, out: seq<nat>, y: array<T>, width: nat) returns (ok: bool)
      requires Ready(dims, 2) && out == OutDims(dims, 2, |indicates|)
      requires |x| == Product(dims) && y.Length == Product(out) > 0 && width > 0
      modifies y
      ensures ok <==> WithinLimit(y.Length, width)
      ensures ok ==> AllDone(PlanOf(dims, 2, indicates), x, y[..])
    {
      hide Product, RowsDone, WithinLimit;
      ghost var g := PlanOf(dims, 2, indicates);
      PlanSizes(dims, 2, indicates);
      HeadOf(dims, 2);
      PlanPositive(g);
      StridesAtAxis(dims, 2, xstride);
      StridesAtAxis(out, 2, ystride);
      NothingDone(g, x, y[..]);
      for i := 0 to out[0]
        invariant RowsDone(g, x, y[..], i * out[1]) && (i * out[1] > 0 ==> WithinLimit(y.Length, width))
      {
        for j := 0 to out[1]
          invariant RowsDone(g, x, y[..], i * out[1] + j) && (i * out[1] + j > 0 ==> WithinLimit(y.Length, width))
        {
          Row2(i, out[0], j, out[1], dims[2], g.inner);
          Row2(i, out[0], j, out[1], out[2], g.inner);
          ok := GatherRow(g, x, y, i * xstride[0] + j * xstride[1], i * ystride[0] + j * ystride[1], xstride[2], width,
                          i * out[1] + j);
          if !ok {
            return;
          }
        }
        BlockStart(i, out[1]);
      }
      ok := true;
    }

    method ProcessAxis3(dims: seq<nat>, x: seq<T>, out: seq<nat>, y: array<T>, width: nat) returns (ok: bool)
      requires Ready(dims, 3) && out == OutDims(dims, 3, |indicates|)
      requires |x| == Product(dims) && y.Length == Product(out) > 0 && width > 0
      modifies y
      ensures ok <==> WithinLimit(y.Length, width)
      ensures ok ==> AllDone(PlanOf(dims, 3, indicates), x, y[..])
    {
      hide Product, RowsDone, WithinLimit;
      ghost var g := PlanOf(dims, 3, indicates);
      PlanSizes(dims, 3, indicates);
      HeadOf(dims, 3);
      PlanPositive(g);
      StridesAtAxis(dims, 3, xstride);
      StridesAtAxis(out, 3, ystride);
      NothingDone(g, x, y[..]);
      ghost var h := 0;
      for i := 0 to out[0]
        invariant RowsDone(g, x, y[..], h) && (h > 0 ==> WithinLimit(y.Length, width)) && h == i * out[1] * out[2]
      {
        for j := 0 to out[1]
          invariant RowsDone(g, x, y[..], h) && (h > 0 ==> WithinLimit(y.Length, width)) && h == (i * out[1] + j) * out[2]
        {
          for m := 0 to out[2]
            invariant RowsDone(g, x, y[..], h) && (h > 0 ==> WithinLimit(y.Length, width)) && h == (i * out[1] + j) * out[2] + m
          {
            Row3(i, out[0], j, out[1], m, out[2], dims[3], g.inner);
            Row3(i, out[0], j, out[1], m, out[2], out[3], g.inner);
            ok := GatherRow(g, x, y, i * xstride[0] + j * xstride[1] + m * xstride[2],
                            i * ystride[0] + j * ystride[1] + m * ystride[2], xstride[3], width, h);
            if !ok {
              return;
            }
            h := h + 1;
          }
          BlockStart(i * out[1] + j, out[2]);
        }
        BlockStart(i, out[1]);
        assert i * out[1] + out[1] == (i + 1) * out[1];
      }
      ok := true;
    }

    /** Appends the indices up to the first one outside the axis; succeeds when there is none. */
    method SaveIndices(indices: seq<int>, dim: nat) returns (ok: bool)
      modifies this`indicates
      ensures ok <==> InRange(indices, dim)
      ensures ok ==> indicates == old(indicates) + AsNats(indices)
    {
      for i := 0 to |indices|
        invariant InRange(indices[..i], dim) && indicates == old(indicates) + AsNats(indices[..i])
      {
        if indices[i] < 0 || indices[i] >= dim {
          return false;
        }
        indicates := indicates + [indices[i]];
        assert indices[..i + 1] == indices[..i] + [indices[i]];
      }
      assert indices[..|indices|] == indices;
      ok := true;
    }

    /** Allocates the output and runs the loop nest for the axis. */
    method GenData(dims: seq<nat>, x: seq<T>, out: seq<nat>, axis: nat, typeSize: nat) returns (status: Status, y: array<T>)
      requires Ready(dims, axis) && out == OutDims(dims, axis, |indicates|) && |x| == Product(dims) && typeSize > 0
      ensures status == if Product(out) == 0 || !FitsInt64(Product(out) * typeSize) then ParamInvalid
                        else if axis > 3 then NotChanged
                        else if WithinLimit(Product(out), typeSize) then Success else MemallocFailed
      ensures status == Success ==> y.Length == Product(out) && Gathers(dims, axis, indicates, x, y[..])
      ensures fresh(y)
    {
      hide Product, Gathers, AllDone, IsStride, CheckInt64MulOverflow;
      var dataNum := Product(out);
      Int64Exact(dataNum, typeSize);
      if dataNum <= 0 || !CheckInt64MulOverflow(dataNum, typeSize) {
        y := new T[0];
        return ParamInvalid, y;
      }
      y := new T[dataNum];
      var ok;
      match axis {
        case 0 => ok := ProcessAxis0(dims, x, out, y, typeSize);
        case 1 => ok := ProcessAxis1(dims, x, out, y, typeSize);
        case 2 => ok := ProcessAxis2(dims, x, out, y, typeSize);
        case 3 => ok := ProcessAxis3(dims, x, out, y, typeSize);
        case _ => return NotChanged, y;
      }
      if !ok {
        return MemallocFailed, y;
      }
      BlocksAreGather(dims, axis, indicates, x, y[..]);
      status := Success;
    }

    /**
     * The kernel on a fresh object: a tensor `x` of shape `dims`, a list of indices and an axis that
     * may count from the end.
     */
    method Compute(dims: seq<nat>, x: seq<T>, indices: seq<int>, axisIn: int, typeSize: nat)
      returns (status: Status, out: seq<nat>, y: array<T>)
      requires indicates == [] && |x| == Product(dims) && typeSize > 0
      modifies this
      ensures status == Success <==> Accepts(dims, x, indices, axisIn, typeSize)
      ensures status == Success ==>
                var axis := if axisIn >= 0 then axisIn else axisIn + |dims|;
                && out == OutDims(dims, axis, |indices|) && y.Length == Product(out)
                && Gathers(dims, axis, AsNats(indices), x, y[..])
    {
      hide Product, Gathers, Flat, StridesFit;
      out := [];
      y := new T[0];
      if |x| == 0 || |indices| == 0 {
        return NotChanged, out, y;
      }
      var axis := if axisIn >= 0 then axisIn else axisIn + |dims|;
      if axis < 0 || axis + 1 > |dims| {
        return NotChanged, out, y;
      }
      var saved := SaveIndices(indices, dims[axis]);
      if !saved {
        return NotChanged, out, y;
      }
      assert indicates == AsNats(indices);
      out := OutDims(dims, axis, |indices|);
      var okX, strideX := CalcStride(|dims|, dims);
      var okY, strideY := CalcStride(|out|, out);
      xstride, ystride := strideX, strideY;
      if !okX || !okY {
        return NotChanged, out, y;
      }
      OutputPositive(dims, axis, AsNats(indices));
      status, y := GenData(dims, x, out, axis, typeSize);
    }
  }

  predicate InRange(indices: seq<int>, dim: nat) {
    forall i :: 0 <= i < |indices| ==> 0 <= indices[i] < dim
  }

  function AsNats(indices: seq<int>): (r: seq<nat>)
    requires forall i :: 0 <= i < |indices| ==> 0 <= indices[i]
    ensures |r| == |indices| && forall i :: 0 <= i < |indices| ==> r[i] == indices[i]
  {
    seq(|indices|, i requires 0 <= i < |indices| => indices[i])
  }

  /** Exactly the inputs the kernel folds. */
  predicate Accepts<T>(dims: seq<nat>, x: seq<T>, indices: seq<int>, axisIn: int, typeSize: nat) {
    var axis := if axisIn >= 0 then axisIn else axisIn + |dims|;
    && |x| > 0 && |indices| > 0
    && 0 <= axis < |dims| && axis <= 3
    && InRange(indices, dims[axis])
    && StridesFit(dims) && StridesFit(OutDims(dims, axis, |indices|))
    && WithinLimit(Product(OutDims(dims, axis, |indices|)), typeSize)
  }

  lemma OutputPositive(dims: seq<nat>, axis: nat, picks: seq<nat>)
    requires axis < |dims| && |picks| > 0 && Product(dims) > 0
    ensures Product(OutDims(dims, axis, |picks|)) > 0
  {
    ProductPositive(dims);
    ProductPositive(OutDims(dims, axis, |picks|));
    assert forall i :: 0 <= i < |dims| ==>
        OutDims(dims, axis, |picks|)[i] == if i == axis then |picks| else dims[i];
  }

  // ----- the multi-dimensional meaning

  /** The index of the input element that an output index selects. */
  function Selected(index: seq<nat>, axis: nat, picks: seq<nat>): seq<nat>
    requires axis < |index| && index[axis] < |picks|
  {
    index[axis := picks[index[axis]]]
  }

  /** Every output element is the input element with its coordinate on the axis replaced by the chosen index. */
  ghost predicate Gathers<T>(dims: seq<nat>, axis: nat, picks: seq<nat>, x: seq<T>, y: seq<T>)
    requires axis < |dims| && |x| == Product(dims) && |y| == Product(OutDims(dims, axis, |picks|))
    requires forall i :: 0 <= i < |picks| ==> picks[i] < dims[axis]
  {
    forall index :: InShape(index, OutDims(dims, axis, |picks|)) ==> GathersAt(dims, axis, picks, x, y, index)
  }

  ghost predicate GathersAt<T>(dims: seq<nat>, axis: nat, picks: seq<nat>, x: seq<T>, y: seq<T>, index: seq<nat>)
    requires axis < |dims| && |x| == Product(dims) && |y| == Product(OutDims(dims, axis, |picks|))
    requires forall i :: 0 <= i < |picks| ==> picks[i] < dims[axis]
    requires InShape(index, OutDims(dims, axis, |picks|))
  {
    assert index[axis] < OutDims(dims, axis, |picks|)[axis];
    FlatBelow(index, OutDims(dims, axis, |picks|));
    SelectedInShape(dims, axis, picks, index);
    FlatBelow(Selected(index, axis, picks), dims);
    y[Flat(index, OutDims(dims, axis, |picks|))] == x[Flat(Selected(index, axis, picks), dims)]
  }

  /** Gathering, spelled out: the output at an index is the input with the chosen index on the axis. */
  lemma GathersExact<T>(dims: seq<nat>, axis: nat, picks: seq<nat>, x: seq<T>, y: seq<T>, index: seq<nat>)
    requires axis < |dims| && |x| == Product(dims) && |y| == Product(dims[..axis] + [|picks|] + dims[axis + 1..])
    requires forall i :: 0 <= i < |picks| ==> picks[i] < dims[axis]
    requires Gathers(dims, axis, picks, x, y) && InShape(index, dims[..axis] + [|picks|] + dims[axis + 1..])
    ensures var out, source := dims[..axis] + [|picks|] + dims[axis + 1..], index[axis := picks[index[axis]]];
            && index[axis] < |picks| && InShape(source, dims)
            && Flat(index, out) < |y| && Flat(source, dims) < |x|
            && y[Flat(index, out)] == x[Flat(source, dims)]
  {
    hide Product, Flat;
    SelectedInShape(dims, axis, picks, index);
    assert GathersAt(dims, axis, picks, x, y, index);
    FlatBelow(index, OutDims(dims, axis, |picks|));
    FlatBelow(Selected(index, axis, picks), dims);
  }

  lemma SelectedInShape(dims: seq<nat>, axis: nat, picks: seq<nat>, index: seq<nat>)
    requires axis < |dims| && InShape(index, OutDims(dims, axis, |picks|))
    requires forall i :: 0 <= i < |picks| ==> picks[i] < dims[axis]
    ensures index[axis] < |picks| && InShape(Selected(index, axis, picks), dims)
  {
    var out := OutDims(dims, axis, |picks|);
    assert index[axis] < out[axis];
    assert forall i :: 0 <= i < |dims| && i != axis ==> out[i] == dims[i];
  }

  /** Filling the blocks is gathering. */
  lemma BlocksAreGather<T>(dims: seq<nat>, axis: nat, picks: seq<nat>, x: seq<T>, y: seq<T>)
    requires axis < |dims| && |x| == Product(dims) && |y| == Product(OutDims(dims, axis, |picks|))
    requires forall i :: 0 <= i < |picks| ==> picks[i] < dims[axis]
    requires AllDone(PlanOf(dims, axis, picks), x, y)
    ensures Gathers(dims, axis, picks, x, y)
  {
    hide Product, Flat, AllDone;
    forall index | InShape(index, OutDims(dims, axis, |picks|))
      ensures GathersAt(dims, axis, picks, x, y, index)
    {
      BlockIsGather(dims, axis, picks, x, y, index);
    }
  }

  lemma BlockIsGather<T>(dims: seq<nat>, axis: nat, picks: seq<nat>, x: seq<T>, y: seq<T>, index: seq<nat>)
    requires axis < |dims| && |x| == Product(dims) && |y| == Product(OutDims(dims, axis, |picks|))
    requires forall i :: 0 <= i < |picks| ==> picks[i] < dims[axis]
    requires AllDone(PlanOf(dims, axis, picks), x, y) && InShape(index, OutDims(dims, axis, |picks|))
    ensures GathersAt(dims, axis, picks, x, y, index)
  {
    hide Product, Flat;
    var g, out := PlanOf(dims, axis, picks), OutDims(dims, axis, |picks|);
    SelectedInShape(dims, axis, picks, index);
    var src := Selected(index, axis, picks);
    assert out[..axis] == dims[..axis] && out[axis + 1..] == dims[axis + 1..] && out[axis] == |picks|;
    assert src[..axis] == index[..axis] && src[axis + 1..] == index[axis + 1..];
    FlatAtAxis(index, out, axis);
    FlatAtAxis(src, dims, axis);
    var h, rest := Flat(index[..axis], dims[..axis]), Flat(index[axis + 1..], dims[axis + 1..]);
    PartsInShape(index, out, axis);
    FlatBelow(index[..axis], dims[..axis]);
    FlatBelow(index[axis + 1..], dims[axis + 1..]);
    InsideBlock(g, x, y, h, index[axis], rest);
  }

  lemma PartsInShape(index: seq<nat>, dims: seq<nat>, axis: nat)
    requires axis < |dims| && InShape(index, dims)
    ensures InShape(index[..axis], dims[..axis]) && InShape(index[axis + 1..], dims[axis + 1..])
  {}

  lemma InsideBlock<T>(g: Plan, x: seq<T>, y: seq<T>, h: nat, m: nat, t: nat)
    requires AllDone(g, x, y) && h < g.head && m < |g.picks| && t < g.inner
    ensures (h * |g.picks| + m) * g.inner + t < |y| && (h * g.from + g.picks[m]) * g.inner + t < |x|
    ensures y[(h * |g.picks| + m) * g.inner + t] == x[(h * g.from + g.picks[m]) * g.inner + t]
  {
    RowBlock(g, h, m);
    var b, s := h * |g.picks| + m, h * g.from + g.picks[m];
    BlockStart(b, g.inner);
    BlockStart(s, g.inner);
    assert BlockDone(g, x, y, b);
    hide SourceBlock;
    assert Block(y, b, g.inner)[t] == Block(x, s, g.inner)[t];
  }

  /** Two loop counters make one row number. */
  lemma Row2(i: nat, di: nat, j: nat, dj: nat, d: nat, p: nat)
    requires i < di && j < dj
    ensures i * (dj * (d * p)) + j * (d * p) == (i * dj + j) * d * p
    ensures i * dj + j < di * dj
  {
    assert (i * dj + j) * d * p == (i * dj + j) * (d * p);
    assert (i * dj + j) * (d * p) == i * dj * (d * p) + j * (d * p);
    MulAssoc(i, dj, d * p);
    MulMonotone(i + 1, di, dj);
    assert (i + 1) * dj == i * dj + dj;
  }

  lemma Row3(i: nat, di: nat, j: nat, dj: nat, m: nat, dm: nat, d: nat, p: nat)
    requires i < di && j < dj && m < dm
    ensures i * (dj * (dm * (d * p))) + j * (dm * (d * p)) + m * (d * p) == ((i * dj + j) * dm + m) * d * p
    ensures (i * dj + j) * dm + m < di * dj * dm
  {
    Row2(i, di, j, dj, dm, d * p);
    Row2(i * dj + j, di * dj, m, dm, d, p);
    MulAssoc(i * dj + j, dm, d * p);
  }

  /** The first `h` rows of the output are done. */
  ghost predicate RowsDone<T>(g: Plan, x: seq<T>, y: seq<T>, h: nat) {
    && ValidPlan(g) && |g.picks| > 0 && h * |g.picks| <= g.head * |g.picks|
    && |x| == g.head * g.from * g.inner && |y| == g.head * |g.picks| * g.inner
    && BlocksDone(g, x, y, h * |g.picks|)
  }

  ghost predicate AllDone<T>(g: Plan, x: seq<T>, y: seq<T>) {
    RowsDone(g, x, y, g.head)
  }

  lemma NothingDone<T>(g: Plan, x: seq<T>, y: seq<T>)
    requires ValidPlan(g) && |g.picks| > 0
    requires |x| == g.head * g.from * g.inner && |y| == g.head * |g.picks| * g.inner
    ensures RowsDone(g, x, y, 0)
  {}

  /** The bound of a copy is good exactly when the whole output is, which only the first copy has to find out. */
  lemma BlockRoom(length: nat, dst: nat, size: nat, width: nat, first: bool)
    requires dst + size <= length && size > 0 && width > 0
    requires if first then dst == 0 else WithinLimit(length, width)
    ensures var bound := (length - dst) * width;
            0 < bound <= SECUREC_MEM_MAX_LEN && size * width <= bound <==> WithinLimit(length, width)
  {
    RoomInBytes(length, dst, size, width);
  }

  lemma PlanPositive(g: Plan)
    requires g.head * |g.picks| * g.inner > 0
    ensures g.head > 0 && g.inner > 0
  {}

  lemma RowBounds(g: Plan, h: nat)
    requires h < g.head
    ensures h * |g.picks| + |g.picks| == (h + 1) * |g.picks| <= g.head * |g.picks|
  {
    MulMonotone(h + 1, g.head, |g.picks|);
  }

  /** Offsets of the block for index `m` in row `h`, and that they lie in the buffers. */
  lemma RowBlock(g: Plan, h: nat, m: nat)
    requires ValidPlan(g) && h < g.head && m < |g.picks|
    ensures h * |g.picks| * g.inner + m * g.inner == (h * |g.picks| + m) * g.inner
    ensures h * g.from * g.inner + g.picks[m] * g.inner == (h * g.from + g.picks[m]) * g.inner
    ensures h * |g.picks| + m < g.head * |g.picks|
    ensures (h * |g.picks| + m) * g.inner + g.inner <= g.head * |g.picks| * g.inner
    ensures (h * g.from + g.picks[m]) * g.inner + g.inner <= g.head * g.from * g.inner
    ensures SourceBlock(g, h * |g.picks| + m) == h * g.from + g.picks[m]
  {
    RowBounds(g, h);
    var n := |g.picks|;
    DivModUnique(h * n + m, n, h, m);
    MulMonotone(h + 1, g.head, g.from);
    assert (h + 1) * g.from == h * g.from + g.from;
    BlockEnd(h * n + m, g.head * n, g.inner);
    BlockEnd(h * g.from + g.picks[m], g.head * g.from, g.inner);
    BlockStart(h * n + m, g.inner);
    BlockStart(h * g.from + g.picks[m], g.inner);
  }

  lemma NextBlock<T>(g: Plan, x: seq<T>, before: seq<T>, after: seq<T>, h: nat, m: nat)
    requires ValidPlan(g) && h < g.head && m < |g.picks|
    requires |x| == g.head * g.from * g.inner && |before| == |after| == g.head * |g.picks| * g.inner
    requires h * |g.picks| + m < g.head * |g.picks| && BlocksDone(g, x, before, h * |g.picks| + m)
    requires var k := h * |g.picks| + m; var s := h * g.from + g.picks[m];
             && 0 <= k * g.inner && k * g.inner + g.inner <= |after| && s * g.inner + g.inner <= |x|
             && after[..k * g.inner] == before[..k * g.inner]
             && after[k * g.inner..k * g.inner + g.inner] == x[s * g.inner..s * g.inner + g.inner]
    ensures BlocksDone(g, x, after, h * |g.picks| + m + 1)
  {
    var k := h * |g.picks| + m;
    RowBlock(g, h, m);
    BlockStart(k, g.inner);
    BlockStart(h * g.from + g.picks[m], g.inner);
    assert BlockDone(g, x, after, k);
    hide Block, SourceBlock;
    forall b: nat | b < k ensures BlockDone(g, x, after, b) {
      assert BlockDone(g, x, before, b);
      BlockEnd(k, g.head * |g.picks|, g.inner);
      EarlierBlock(before, after, b, k, g.inner);
    }
  }
}
