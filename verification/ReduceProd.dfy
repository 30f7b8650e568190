/** The ReduceProd kernel for int32 tensors (ge/host_kernels/reduce_prod_kernel.cc). */
module ReduceProd {
  import opened Wrappers
  import opened Powers
  import opened IntGuards
  import opened Shape
  import opened Blocks

  // ----- products of sequences

  function Times(s: seq<int>): int {
    if s == [] then 1 else Times(s[..|s| - 1]) * s[|s| - 1]
  }

  /** Every intermediate product of a left-to-right multiplication fits int32. */
  predicate PrefixesFit(s: seq<int>) {
    forall k :: 2 <= k <= |s| ==> FitsInt32(Times(s[..k]))
  }

  lemma TimesStep(s: seq<int>, k: nat)
    requires k < |s|
    ensures Times(s[..k + 1]) == Times(s[..k]) * s[k]
  {
    assert s[..k + 1][..k] == s[..k];
  }

  lemma {:induction false} TimesConcat(a: seq<int>, b: seq<int>)
    ensures Times(a + b) == Times(a) * Times(b)
  {
    if b == [] {
      assert a + b == a;
    } else {
      var n := |b| - 1;
      assert (a + b)[..|a + b| - 1] == a + b[..n];
      TimesConcat(a, b[..n]);
      MulAssoc(Times(a), Times(b[..n]), b[n]);
    }
  }

  function Pointwise(a: seq<int>, b: seq<int>): (r: seq<int>)
    requires |a| == |b|
    ensures |r| == |a| && forall j :: 0 <= j < |a| ==> r[j] == a[j] * b[j]
  {
    seq(|a|, j requires 0 <= j < |a| => a[j] * b[j])
  }

  lemma {:induction false} TimesPointwise(a: seq<int>, b: seq<int>)
    requires |a| == |b|
    ensures Times(Pointwise(a, b)) == Times(a) * Times(b)
  {
    if a != [] {
      var n := |a| - 1;
      assert Pointwise(a, b)[..n] == Pointwise(a[..n], b[..n]);
      TimesPointwise(a[..n], b[..n]);
      FourFactors(Times(a[..n]), Times(b[..n]), a[n], b[n]);
    }
  }

  lemma FourFactors(a: int, b: int, x: int, y: int)
    ensures a * b * (x * y) == (a * x) * (b * y)
  {}

  // ----- columns of a block

  /** The first `rows` entries of column `j` in a block whose rows are `width` long. */
  function Column(s: seq<int>, width: nat, rows: nat, j: nat): (r: seq<int>)
    requires j < width && rows * width <= |s|
    ensures |r| == rows
  {
    seq(rows, k requires 0 <= k < rows => Entry(s, width, rows, k, j))
  }

  function Entry(s: seq<int>, width: nat, rows: nat, k: nat, j: nat): int
    requires j < width && k < rows && rows * width <= |s|
  {
    BlockEnd(k, rows, width);
    BlockStart(k, width);
    s[k * width + j]
  }

  /** The product of every column. */
  function Columns(s: seq<int>, width: nat, rows: nat): (r: seq<int>)
    requires rows * width <= |s|
    ensures |r| == width
  {
    seq(width, j requires 0 <= j < width => Times(Column(s, width, rows, j)))
  }

  /** Multiplying the column products multiplies the whole block. */
  lemma {:induction false} ColumnsTimes(s: seq<int>, width: nat, rows: nat)
    requires |s| == rows * width
    ensures Times(Columns(s, width, rows)) == Times(s)
  {
    if rows == 0 {
      AllOnes(Columns(s, width, 0));
      assert s == [];
    } else {
      var n := rows - 1;
      BlockStart(n, width);
      var top, last := s[..n * width], s[n * width..];
      ColumnsTimes(top, width, n);
      ColumnsSplit(s, width, n);
      TimesPointwise(Columns(top, width, n), last);
      assert s == top + last;
      TimesConcat(top, last);
    }
  }

  lemma {:induction false} AllOnes(s: seq<int>)
    requires forall j :: 0 <= j < |s| ==> s[j] == 1
    ensures Times(s) == 1
  {
    if s != [] {
      AllOnes(s[..|s| - 1]);
    }
  }

  lemma ColumnsSplit(s: seq<int>, width: nat, n: nat)
    requires |s| == (n + 1) * width && 0 <= n * width && (n + 1) * width == n * width + width
    ensures Columns(s, width, n + 1) == Pointwise(Columns(s[..n * width], width, n), s[n * width..])
  {
    var top := s[..n * width];
    forall j | 0 <= j < width
      ensures Times(Column(s, width, n + 1, j)) == Times(Column(top, width, n, j)) * s[n * width + j]
    {
      var c := Column(s, width, n + 1, j);
      assert c[..n] == Column(top, width, n, j) by {
        forall k | 0 <= k < n ensures c[k] == Column(top, width, n, j)[k] {
          BlockEnd(k, n, width);
          BlockStart(k, width);
        }
      }
    }
  }

  // ----- the reduced tensor

  /** `head` blocks of `axis` rows of `width` elements, each block replaced by its column products. */
  function Reduced(s: seq<int>, head: nat, axis: nat, width: nat): seq<int>
    requires head * (axis * width) <= |s|
  {
    if head == 0 then []
    else
      BlockStart(head - 1, axis * width);
      Reduced(s, head - 1, axis, width) + Columns(Block(s, head - 1, axis * width), width, axis)
  }

  lemma {:induction false} ReducedLength(s: seq<int>, head: nat, axis: nat, width: nat)
    requires head * (axis * width) <= |s|
    ensures |Reduced(s, head, axis, width)| == head * width
  {
    hide Columns;
    if head > 0 {
      BlockStart(head - 1, axis * width);
      BlockStart(head - 1, width);
      ReducedLength(s, head - 1, axis, width);
    }
  }

  /** Reducing along one axis and then over everything left is reducing over everything at once. */
  lemma {:induction false} ReducedTimes(s: seq<int>, head: nat, axis: nat, width: nat)
    requires head * (axis * width) <= |s|
    ensures Times(Reduced(s, head, axis, width)) == Times(s[..head * (axis * width)])
  {
    hide Times, Columns;
    if head == 0 {
      assert s[..0] == [];
    } else {
      BlockStart(head - 1, axis * width);
      ReducedTimes(s, head - 1, axis, width);
      ReducedTimesStep(s, head - 1, axis * width, axis, width);
    }
  }

  lemma ReducedTimesStep(s: seq<int>, b: nat, size: nat, rows: nat, width: nat)
    requires size == rows * width && (b + 1) * size <= |s| && 0 <= b * size && (b + 1) * size == b * size + size
    ensures forall done: seq<int> :: Times(done) == Times(s[..b * size]) ==>
                                     Times(done + Columns(Block(s, b, size), width, rows)) == Times(s[..(b + 1) * size])
  {
    hide Times, Columns;
    var block := Block(s, b, size);
    ColumnsTimes(block, width, rows);
    assert s[..(b + 1) * size] == s[..b * size] + block;
    TimesConcat(s[..b * size], block);
    forall done: seq<int> ensures Times(done + Columns(block, width, rows)) == Times(done) * Times(block) {
      TimesConcat(done, Columns(block, width, rows));
    }
  }

  // ----- what a reduction may overflow on

  /** Every fibre of the first `head` blocks can be multiplied without leaving int32. */
  predicate FibresFit(s: seq<int>, head: nat, axis: nat, width: nat)
    requires head * (axis * width) <= |s|
  {
    forall i, j :: 0 <= i < head && 0 <= j < width ==> PrefixesFit(Fibre(s, head, axis, width, i, j))
  }

  /** The elements that differ only in their position along the axis. */
  function Fibre(s: seq<int>, head: nat, axis: nat, width: nat, i: nat, j: nat): (r: seq<int>)
    requires i < head && j < width && head * (axis * width) <= |s|
    ensures |r| == axis
  {
    BlockEnd(i, head, axis * width);
    BlockStart(i, axis * width);
    Column(Block(s, i, axis * width), width, axis, j)
  }

  /** The position the code reads is the one inside the fibre. */
  lemma FibreAt(s: seq<int>, head: nat, axis: nat, width: nat, i: nat, j: nat, k: nat)
    requires i < head && j < width && k < axis && head * (axis * width) <= |s|
    ensures 0 <= i * width * axis + j + k * width < |s|
    ensures s[i * width * axis + j + k * width] == Fibre(s, head, axis, width, i, j)[k]
  {
    hide Column, Block;
    var size := axis * width;
    BlockEnd(i, head, size);
    BlockStart(i, size);
    BlockEnd(k, axis, width);
    BlockStart(k, width);
    MulAssoc(i, width, axis);
    MulCommute(width, axis);
    EntryOfBlock(s, i, size, axis, width, k, j);
  }

  lemma MulCommute(a: int, b: int)
    ensures a * b == b * a
  {}

  lemma EntryOfBlock(s: seq<int>, i: nat, size: nat, axis: nat, width: nat, k: nat, j: nat)
    requires size == axis * width && (i + 1) * size <= |s| && 0 <= i * size && (i + 1) * size == i * size + size
    requires j < width && k < axis && 0 <= k * width && k * width + j < size
    ensures Column(Block(s, i, size), width, axis, j)[k] == s[i * size + k * width + j]
  {}

  // ----- the kernel

  /** Multiplying everything: an error on no data and on the first product that leaves int32. */
  method ComputeNoAxis(data: seq<int>) returns (r: Option<int>)
    requires forall p :: 0 <= p < |data| ==> FitsInt32(data[p])
    ensures r.Some? <==> data != [] && PrefixesFit(data)
    ensures r.Some? ==> r.value == Times(data)
  {
    if |data| == 0 {
      return None;
    }
    var x := data[0];
    assert data[..1] == [data[0]];
    for k := 1 to |data|
      invariant x == Times(data[..k])
      invariant forall m :: 2 <= m <= k ==> FitsInt32(Times(data[..m]))
    {
      var y := data[k];
      TimesStep(data, k);
      Int32Exact(x, y);
      if !CheckInt32MulOverflow(x, y) {
        return None;
      }
      x := x * y;
    }
    assert data[..|data|] == data;
    r := Some(x);
  }

  datatype AxisInput = NoAxis | EmptyAxis | Axis(value: int)

  datatype Tensor = Tensor(shape: seq<nat>, data: seq<int>)

  class ReduceProdKernel {
    var axisDim: nat
    var headDim: nat
    var endDim: nat

    /** Splits the shape at the axis; a negative axis is a huge unsigned number and out of rank. */
    method AxisCal(dims: seq<nat>, axis: int) returns (ok: bool)
      modifies this
      ensures ok <==> 0 <= axis < |dims| && SplitFits(dims, axis)
      ensures ok ==> axisDim == dims[axis]
      ensures ok ==> headDim == Product(dims[..axis]) && endDim == Product(dims[axis + 1..])
    {
      hide Product;
      if axis < 0 || axis >= |dims| {
        return false;
      }
      axisDim, headDim, endDim := dims[axis], 1, 1;
      var appeared := false;
      assert dims[..0] == [] && dims[axis + 1..axis + 1] == [];
      ProductOfNone();
      for i := 0 to |dims|
        invariant appeared <==> i > axis
        invariant axisDim == dims[axis]
        invariant headDim == Product(dims[..if i <= axis then i else axis])
        invariant endDim == Product(dims[axis + 1..if i <= axis then axis + 1 else i])
        invariant forall m :: 0 <= m <= i && m <= axis ==> FitsInt64(Product(dims[..m]))
        invariant forall m :: axis < m <= i ==> EndFits(dims, axis, m)
      {
        if i == axis {
          appeared := true;
          continue;
        }
        if appeared {
          ProductRange(dims, axis + 1, i);
          GuardExact(endDim, dims[i]);
          assert EndFits(dims, axis, i + 1) <==> FitsInt64(endDim * dims[i]);
          if dims[i] != 0 && endDim > MAX_INT64 / dims[i] {
            return false;
          }
          endDim := endDim * dims[i];
        } else {
          ProductPrefix(dims, i);
          GuardExact(headDim, dims[i]);
          if dims[i] != 0 && headDim > MAX_INT64 / dims[i] {
            return false;
          }
          headDim := headDim * dims[i];
        }
      }
      assert dims[axis + 1..|dims|] == dims[axis + 1..];
      return true;
    }

    /** The triple loop. It fails exactly when some fibre leaves int32 on the way. */
    method DataCal(data: seq<int>) returns (ok: bool, buf: array<int>)
      requires data != [] && headDim * (axisDim * endDim) == |data|
      requires forall p :: 0 <= p < |data| ==> FitsInt32(data[p])
      ensures ok <==> FibresFit(data, headDim, axisDim, endDim)
      ensures ok ==> headDim * endDim <= buf.Length
      ensures ok ==> buf[..headDim * endDim] == Reduced(data, headDim, axisDim, endDim)
    {
      hide Times, Fibre, Columns, PrefixesFit;
      ghost var size := axisDim * endDim;
      buf := new int[|data|];
      NonEmpty(headDim, axisDim, endDim, |data|);
      ReducedLength(data, 0, axisDim, endDim);
      for i := 0 to headDim
        invariant i * endDim <= |data|
        invariant 0 <= i * size <= |data|
        invariant buf[..i * endDim] == Reduced(data, i, axisDim, endDim)
        invariant forall m, j :: 0 <= m < i && 0 <= j < endDim ==> PrefixesFit(Fibre(data, headDim, axisDim, endDim, m, j))
      {
        BlockEnd(i, headDim, size);
        BlockEnd(i, headDim, endDim);
        BlockStart(i, size);
        BlockStart(i, endDim);
        ok := DataRow(data, i, i * endDim, buf);
        if !ok {
          return;
        }
        RowIsColumns(data, headDim, axisDim, endDim, i, size, i * endDim, buf[..(i + 1) * endDim]);
      }
      ok := true;
    }

    /** The two inner loops, over the fibres of one block. */
    method DataRow(data: seq<int>, i: nat, lo: nat, buf: array<int>) returns (ok: bool)
      requires axisDim > 0 && headDim * (axisDim * endDim) == |data| && i < headDim
      requires lo == i * endDim && lo + endDim <= buf.Length
      requires forall p :: 0 <= p < |data| ==> FitsInt32(data[p])
      modifies buf
      ensures ok <==> forall j :: 0 <= j < endDim ==> PrefixesFit(Fibre(data, headDim, axisDim, endDim, i, j))
      ensures buf[..lo] == old(buf[..lo])
      ensures ok ==> forall j :: 0 <= j < endDim ==> buf[lo + j] == Times(Fibre(data, headDim, axisDim, endDim, i, j))
    {
      hide Times, Fibre, PrefixesFit;
      for j := 0 to endDim
        invariant buf[..lo] == old(buf[..lo])
        invariant forall m :: 0 <= m < j ==> buf[lo + m] == Times(Fibre(data, headDim, axisDim, endDim, i, m))
        invariant forall m :: 0 <= m < j ==> PrefixesFit(Fibre(data, headDim, axisDim, endDim, i, m))
      {
        var x := FibreProduct(data, i, j);
        if x.None? {
          return false;
        }
        buf[i * endDim + j] := x.value;
      }
      ok := true;
    }

    /**
     * The kernel with its three forms of axis input. A tensor without data skips the multiplication
     * even when the reduced shape is not empty.
     */
    method Compute(dims: seq<nat>, data: seq<int>, axis: AxisInput, keep: bool) returns (r: Option<Tensor>)
      requires |data| == Product(dims) && forall p :: 0 <= p < |data| ==> FitsInt32(data[p])
      modifies this
      ensures r.Some? <==> match axis {
          case NoAxis => data != [] && PrefixesFit(data)
          case EmptyAxis => true
          case Axis(a) => 0 <= a < |dims| && SplitFits(dims, a) && FibresAlongFit(data, dims, a)
        }
      ensures r.Some? ==> match axis {
          case NoAxis => r.value == Tensor([], [Times(data)])
          case EmptyAxis => r.value == Tensor(dims, data)
          case Axis(a) => r.value == Tensor(ReducedShape(dims, a, keep), ReducedAlong(data, dims, a))
        }
    {
      hide Product, Reduced, Times, PrefixesFit, FibresFit, SplitFits;
      match axis {
        case NoAxis =>
          var product := ComputeNoAxis(data);
          return if product.None? then None else Some(Tensor([], [product.value]));
        case EmptyAxis =>
          return Some(Tensor(dims, data));
        case Axis(a) =>
          var ok := AxisCal(dims, a);
          if !ok {
            return None;
          }
          var shape := ShapeCal(dims, a, keep);
          if |data| == 0 {
            return Some(Tensor(shape, []));
          }
          ReducedCount(dims, a, keep);
          var fits, buf := DataCal(data);
          if !fits {
            return None;
          }
          return Some(Tensor(shape, buf[..headDim * endDim]));
      }
    }

    /** The innermost loop, along one fibre. */
    method FibreProduct(data: seq<int>, i: nat, j: nat) returns (r: Option<int>)
      requires axisDim > 0 && headDim * (axisDim * endDim) == |data| && i < headDim && j < endDim
      requires forall p :: 0 <= p < |data| ==> FitsInt32(data[p])
      ensures r.Some? <==> PrefixesFit(Fibre(data, headDim, axisDim, endDim, i, j))
      ensures r.Some? ==> r.value == Times(Fibre(data, headDim, axisDim, endDim, i, j))
    {
      hide Fibre;
      ghost var fibre := Fibre(data, headDim, axisDim, endDim, i, j);
      FibreAt(data, headDim, axisDim, endDim, i, j, 0);
      var x := data[i * endDim * axisDim + j];
      assert fibre[..1] == [fibre[0]];
      for k := 1 to axisDim
        invariant x == Times(fibre[..k])
        invariant forall m :: 2 <= m <= k ==> FitsInt32(Times(fibre[..m]))
      {
        FibreAt(data, headDim, axisDim, endDim, i, j, k);
        var y := data[i * endDim * axisDim + j + k * endDim];
        TimesStep(fibre, k);
        Int32Exact(x, y);
        if !CheckInt32MulOverflow(x, y) {
          return None;
        }
        x := x * y;
      }
      assert fibre[..axisDim] == fibre;
      r := Some(x);
    }
  }

  /** The running products of both parts of the shape stay within int64. */
  predicate SplitFits(dims: seq<nat>, axis: nat)
    requires axis < |dims|
  {
    && (forall m :: 0 <= m <= axis ==> FitsInt64(Product(dims[..m])))
    && (forall m :: axis < m <= |dims| ==> EndFits(dims, axis, m))
  }

  predicate EndFits(dims: seq<nat>, axis: nat, m: nat)
    requires axis < m <= |dims|
  {
    FitsInt64(Product(dims[axis + 1..m]))
  }

  lemma ProductRange(dims: seq<nat>, from: nat, i: nat)
    requires from <= i < |dims|
    ensures Product(dims[from..i + 1]) == Product(dims[from..i]) * dims[i]
  {
    hide Product;
    ProductPrefix(dims[from..], i - from);
    assert dims[from..][..i - from] == dims[from..i];
    assert dims[from..][..i + 1 - from] == dims[from..i + 1];
  }

  /** The division guard is exactly the overflow test. */
  lemma GuardExact(a: nat, d: nat)
    ensures (d != 0 && a > MAX_INT64 / d) <==> !FitsInt64(a * d)
  {
    if d != 0 {
      QuotientBound(a, MAX_INT64, d);
    }
  }

  lemma NonEmpty(h: nat, a: nat, e: nat, n: nat)
    requires h * (a * e) == n > 0
    ensures h > 0 && a > 0 && e > 0 && h * e <= n
  {
    ZeroFactor(h, a, e);
    MulMonotone(1, a, e);
    MulMonotone(e, a * e, h);
  }

  lemma ZeroFactor(h: nat, a: nat, e: nat)
    ensures h == 0 || a == 0 || e == 0 ==> h * (a * e) == 0
  {}

  lemma RowIsColumns(s: seq<int>, head: nat, axis: nat, width: nat, i: nat, size: nat, lo: nat, buf: seq<int>)
    requires size == axis * width && i < head && head * size <= |s| && |buf| == lo + width
    requires 0 <= i * size <= (i + 1) * size <= |s|
    requires buf[..lo] == Reduced(s, i, axis, width)
    requires forall j :: 0 <= j < width ==> buf[lo + j] == Times(Fibre(s, head, axis, width, i, j))
    ensures buf == Reduced(s, i + 1, axis, width)
  {
    hide Times, Reduced, Columns, Fibre, Block;
    var columns := Columns(Block(s, i, size), width, axis);
    ReducedStep(s, i, axis, width);
    forall j | 0 <= j < width ensures buf[lo + j] == columns[j] {
      ColumnAt(s, head, axis, width, i, j);
    }
    assert buf == buf[..lo] + columns;
  }

  lemma ReducedStep(s: seq<int>, i: nat, axis: nat, width: nat)
    requires 0 <= i * (axis * width) <= (i + 1) * (axis * width) <= |s|
    ensures Reduced(s, i + 1, axis, width)
         == Reduced(s, i, axis, width) + Columns(Block(s, i, axis * width), width, axis)
  {
    hide Columns;
  }

  lemma ColumnAt(s: seq<int>, head: nat, axis: nat, width: nat, i: nat, j: nat)
    requires i < head && j < width && head * (axis * width) <= |s| && (i + 1) * (axis * width) <= |s|
    ensures Columns(Block(s, i, axis * width), width, axis)[j] == Times(Fibre(s, head, axis, width, i, j))
  {
    hide Times, Column;
  }

  // ----- meaning on multi-dimensional indices

  /** The shape after the reduction: a unit in place of the axis, or no axis at all. */
  function ReducedShape(dims: seq<nat>, axis: nat, keep: bool): seq<nat>
    requires axis < |dims|
  {
    if keep then dims[axis := 1] else dims[..axis] + dims[axis + 1..]
  }

  method ShapeCal(dims: seq<nat>, axis: nat, keep: bool) returns (shape: seq<nat>)
    requires axis < |dims|
    ensures shape == ReducedShape(dims, axis, keep)
    ensures |shape| == if keep then |dims| else |dims| - 1
    ensures keep ==> forall d :: 0 <= d < |dims| ==> shape[d] == if d == axis then 1 else dims[d]
    ensures !keep ==> forall d :: 0 <= d < |dims| - 1 ==> shape[d] == if d < axis then dims[d] else dims[d + 1]
  {
    if keep {
      shape := dims;
      for i := 0 to |dims|
        invariant shape == if i <= axis then dims else dims[axis := 1]
      {
        if i == axis {
          shape := shape[i := 1];
        }
      }
    } else {
      shape := [];
      for i := 0 to |dims|
        invariant shape == if i <= axis then dims[..i] else dims[..axis] + dims[axis + 1..i]
      {
        if i != axis {
          shape := shape + [dims[i]];
        }
      }
    }
  }

  lemma ReducedCount(dims: seq<nat>, axis: nat, keep: bool)
    requires axis < |dims|
    ensures Product(ReducedShape(dims, axis, keep)) == Product(dims[..axis]) * Product(dims[axis + 1..])
    ensures Product(dims) == Product(dims[..axis]) * (dims[axis] * Product(dims[axis + 1..]))
  {
    hide Product;
    ProductSplit(dims, axis);
    ProductSuffix(dims, axis);
    if keep {
      var unit := dims[axis := 1];
      ProductSplit(unit, axis);
      ProductSuffix(unit, axis);
      assert unit[..axis] == dims[..axis] && unit[axis + 1..] == dims[axis + 1..];
    } else {
      ProductConcat(dims[..axis], dims[axis + 1..]);
    }
  }

  /** Fibres in terms of indices: element `k` is the input at the index with `k` on the axis. */
  lemma FibreMeaning(data: seq<int>, dims: seq<nat>, axis: nat, index: seq<nat>)
    requires axis < |dims| && |data| == Product(dims) && InShape(index, dims)
    ensures var head, width := Product(dims[..axis]), Product(dims[axis + 1..]);
            var i, j := Flat(index[..axis], dims[..axis]), Flat(index[axis + 1..], dims[axis + 1..]);
            && head * (dims[axis] * width) == |data| && i < head && j < width
            && Flat(index, dims) < |data|
            && Fibre(data, head, dims[axis], width, i, j)[index[axis]] == data[Flat(index, dims)]
  {
    hide Product, Flat, Fibre;
    var head, width := Product(dims[..axis]), Product(dims[axis + 1..]);
    var i, j := Flat(index[..axis], dims[..axis]), Flat(index[axis + 1..], dims[axis + 1..]);
    ReducedCount(dims, axis, false);
    FlatBelow(index[..axis], dims[..axis]);
    FlatBelow(index[axis + 1..], dims[axis + 1..]);
    FlatBelow(index, dims);
    FlatAtAxis(index, dims, axis);
    FibreAt(data, head, dims[axis], width, i, j, index[axis]);
    SameOffset(i, dims[axis], index[axis], width, j);
  }

  lemma SameOffset(i: nat, a: nat, k: nat, w: nat, j: nat)
    ensures (i * a + k) * w + j == i * w * a + j + k * w
  {}

  predicate FibresAlongFit(data: seq<int>, dims: seq<nat>, axis: nat)
    requires axis < |dims| && |data| == Product(dims)
  {
    ReducedCount(dims, axis, false);
    data == [] || FibresFit(data, Product(dims[..axis]), dims[axis], Product(dims[axis + 1..]))
  }

  function ReducedAlong(data: seq<int>, dims: seq<nat>, axis: nat): seq<int>
    requires axis < |dims| && |data| == Product(dims)
  {
    ReducedCount(dims, axis, false);
    if data == [] then [] else Reduced(data, Product(dims[..axis]), dims[axis], Product(dims[axis + 1..]))
  }

  /**
   * The output holds as many elements as its shape promises unless the reduced axis itself was the
   * empty one: then the shape promises elements and there are none.
   */
  lemma OutputFillsShape(data: seq<int>, dims: seq<nat>, axis: nat, keep: bool)
    requires axis < |dims| && |data| == Product(dims)
    ensures |ReducedAlong(data, dims, axis)| == Product(ReducedShape(dims, axis, keep))
       <==> dims[axis] > 0 || Product(dims[..axis]) * Product(dims[axis + 1..]) == 0
  {
    hide Product, Reduced, ReducedShape;
    var h, d, e := Product(dims[..axis]), dims[axis], Product(dims[axis + 1..]);
    ReducedCount(dims, axis, keep);
    ZeroFactor(h, d, e);
    if data == [] {
      if d > 0 { FirstOrLast(h, d, e); }
    } else {
      ReducedLength(data, h, d, e);
    }
  }

  lemma FirstOrLast(h: nat, d: nat, e: nat)
    requires h * (d * e) == 0 && d > 0
    ensures h * e == 0
  {
    if h > 0 && e > 0 {
      MulStrict(0, d, e);
      MulStrict(0, h, d * e);
    }
  }

  /** One axis first, then the rest, gives the product of everything. */
  lemma AxisThenAll(data: seq<int>, dims: seq<nat>, axis: nat)
    requires axis < |dims| && |data| == Product(dims)
    ensures data != [] ==> Times(ReducedAlong(data, dims, axis)) == Times(data)
  {
    hide Product, Reduced, Times;
    if data != [] {
      ReducedCount(dims, axis, false);
      ReducedTimes(data, Product(dims[..axis]), dims[axis], Product(dims[axis + 1..]));
      assert data[..|data|] == data;
    }
  }

  // ----- the output at a multi-dimensional index

  /** Position `i * width + j` of the reduced tensor holds the product of fibre (`i`, `j`). */
  lemma {:induction false} ReducedAt(s: seq<int>, head: nat, axis: nat, width: nat, i: nat, j: nat)
    requires i < head && j < width && head * (axis * width) <= |s|
    ensures 0 <= i * width + j < |Reduced(s, head, axis, width)|
    ensures Reduced(s, head, axis, width)[i * width + j] == Times(Fibre(s, head, axis, width, i, j))
  {
    hide Times, Columns, Column, Block;
    var h := head - 1;
    BlockStart(h, axis * width);
    BlockStart(h, width);
    BlockStart(i, width);
    ReducedLength(s, h, axis, width);
    if i < h {
      BlockEnd(i, h, width);
      ReducedAt(s, h, axis, width, i, j);
      assert Fibre(s, h, axis, width, i, j) == Fibre(s, head, axis, width, i, j);
    } else {
      ColumnAt(s, head, axis, width, h, j);
    }
  }

  /** The input index for an output index and a position along the axis. */
  function Along(index: seq<nat>, axis: nat, keep: bool, k: nat): seq<nat>
    requires if keep then axis < |index| else axis <= |index|
  {
    if keep then index[axis := k] else index[..axis] + [k] + index[axis..]
  }

  /** The input elements that an output index combines, in order along the axis. */
  function Combined(data: seq<int>, dims: seq<nat>, axis: nat, keep: bool, index: seq<nat>): (r: seq<int>)
    requires axis < |dims| && |data| == Product(dims) && InShape(index, ReducedShape(dims, axis, keep))
    ensures |r| == dims[axis]
  {
    seq(dims[axis], k requires 0 <= k < dims[axis] =>
      AlongInShape(dims, axis, keep, index, k);
      FlatBelow(Along(index, axis, keep, k), dims);
      data[Flat(Along(index, axis, keep, k), dims)])
  }

  lemma AlongInShape(dims: seq<nat>, axis: nat, keep: bool, index: seq<nat>, k: nat)
    requires axis < |dims| && InShape(index, ReducedShape(dims, axis, keep)) && k < dims[axis]
    ensures InShape(Along(index, axis, keep, k), dims)
  {
    var full, out := Along(index, axis, keep, k), ReducedShape(dims, axis, keep);
    forall d | 0 <= d < |dims| ensures full[d] < dims[d] {
      if keep || d < axis {
        assert index[d] < out[d];
      } else if d > axis {
        assert index[d - 1] < out[d - 1];
      }
    }
  }

  /**
   * The reduced tensor on indices, with the axis removed or kept as a unit: each element is the
   * product of the input elements whose index agrees with it off the axis.
   */
  lemma OutputMeaning(data: seq<int>, dims: seq<nat>, axis: nat, keep: bool, index: seq<nat>)
    requires axis < |dims| && |data| == Product(dims) > 0 && InShape(index, ReducedShape(dims, axis, keep))
    ensures var out := ReducedShape(dims, axis, keep);
            && Flat(index, out) < |ReducedAlong(data, dims, axis)|
            && ReducedAlong(data, dims, axis)[Flat(index, out)] == Times(Combined(data, dims, axis, keep, index))
  {
    hide Product, Flat, Times, Fibre, Reduced;
    var head, width := Product(dims[..axis]), Product(dims[axis + 1..]);
    var front, back := index[..axis], if keep then index[axis + 1..] else index[axis..];
    var i, j := Flat(front, dims[..axis]), Flat(back, dims[axis + 1..]);
    ReducedCount(dims, axis, keep);
    OutputPosition(dims, axis, keep, index);
    PositiveAxis(head, dims[axis], width);
    AlongInShape(dims, axis, keep, index, 0);
    var fibre := Fibre(data, head, dims[axis], width, i, j);
    forall k | 0 <= k < dims[axis] ensures fibre[k] == Combined(data, dims, axis, keep, index)[k] {
      var full := Along(index, axis, keep, k);
      AlongInShape(dims, axis, keep, index, k);
      assert full[..axis] == front && full[axis + 1..] == back;
      FibreMeaning(data, dims, axis, full);
    }
    assert fibre == Combined(data, dims, axis, keep, index);
    ReducedAt(data, head, dims[axis], width, i, j);
  }

  lemma PositiveAxis(h: nat, d: nat, e: nat)
    requires h * (d * e) > 0
    ensures d > 0
  {
    ZeroFactor(h, d, e);
  }

  /** Both shapes put an index at the same flat position. */
  lemma OutputPosition(dims: seq<nat>, axis: nat, keep: bool, index: seq<nat>)
    requires axis < |dims| && InShape(index, ReducedShape(dims, axis, keep))
    ensures var front, back := index[..axis], if keep then index[axis + 1..] else index[axis..];
            && |back| == |dims| - axis - 1
            && Flat(front, dims[..axis]) < Product(dims[..axis]) && Flat(back, dims[axis + 1..]) < Product(dims[axis + 1..])
            && Flat(index, ReducedShape(dims, axis, keep))
               == Flat(front, dims[..axis]) * Product(dims[axis + 1..]) + Flat(back, dims[axis + 1..])
  {
    hide Product, Flat;
    var out := ReducedShape(dims, axis, keep);
    var front, back := index[..axis], if keep then index[axis + 1..] else index[axis..];
    assert out[..axis] == dims[..axis] && (if keep then out[axis + 1..] else out[axis..]) == dims[axis + 1..];
    assert InShape(front, out[..axis]);
    assert InShape(back, if keep then out[axis + 1..] else out[axis..]);
    FlatBelow(front, dims[..axis]);
    FlatBelow(back, dims[axis + 1..]);
    if keep {
      assert index[axis] < out[axis];
      FlatAtAxis(index, out, axis);
    } else {
      assert index == front + back;
      FlatConcat(front, dims[..axis], back, dims[axis + 1..]);
    }
  }

  // ----- when the order of the multiplications matters

  predicate ZeroFree(s: seq<int>) {
    forall p :: 0 <= p < |s| ==> s[p] != 0
  }

  predicate AllFit(s: seq<int>) {
    forall p :: 0 <= p < |s| ==> FitsInt32(s[p])
  }

  /** Without a zero the magnitude of a product only grows. */
  lemma {:induction false} PrefixBelow(s: seq<int>, k: nat)
    requires ZeroFree(s) && k <= |s|
    ensures 0 < Abs(Times(s[..k])) <= Abs(Times(s))
  {
    if |s| == k {
      assert s[..k] == s;
      if k > 0 {
        PrefixBelow(s[..k - 1], k - 1);
        assert s[..k - 1][..k - 1] == s[..k - 1];
        Grows(Times(s[..k - 1]), s[k - 1]);
      }
    } else {
      var n := |s| - 1;
      PrefixBelow(s[..n], k);
      assert s[..n][..k] == s[..k];
      Grows(Times(s[..n]), s[n]);
    }
  }

  lemma Grows(a: int, b: int)
    requires a != 0 && b != 0
    ensures Abs(a * b) >= Abs(a) && Abs(a * b) >= Abs(b) && a * b != 0
  {
    assert Abs(a * b) == Abs(a) * Abs(b);
    MulMonotone(1, Abs(a), Abs(b));
    MulMonotone(1, Abs(b), Abs(a));
  }

  lemma {:induction false} ElementBelow(s: seq<int>, p: nat)
    requires ZeroFree(s) && p < |s|
    ensures Abs(s[p]) <= Abs(Times(s))
  {
    PrefixBelow(s, p + 1);
    PrefixBelow(s, p);
    TimesStep(s, p);
    Grows(Times(s[..p]), s[p]);
  }

  /**
   * Exactly when a multiplication without zeros succeeds: the product fits, and no intermediate
   * product is 2^31, the one magnitude that fits with one sign only.
   */
  lemma ZeroFreeExact(s: seq<int>)
    requires ZeroFree(s) && AllFit(s)
    ensures PrefixesFit(s) <==> FitsInt32(Times(s)) && forall k :: 2 <= k <= |s| ==> Times(s[..k]) != 0x8000_0000
    ensures Times(s) != MIN_INT32 ==> (PrefixesFit(s) <==> FitsInt32(Times(s)))
  {
    assert s[..|s|] == s;
    if |s| == 1 {
      TimesStep(s, 0);
    }
    forall k | 2 <= k <= |s| ensures Abs(Times(s[..k])) <= Abs(Times(s)) {
      PrefixBelow(s, k);
    }
  }

  /** From the first zero on nothing can overflow. */
  lemma FirstZeroDecides(s: seq<int>, z: nat)
    requires z < |s| && s[z] == 0
    ensures PrefixesFit(s) <==> PrefixesFit(s[..z])
  {
    forall k | 0 <= k <= |s| ensures k > z ==> Times(s[..k]) == 0 {
      if k > z { ZeroStays(s, z, k); }
    }
    forall k | 2 <= k <= z ensures s[..z][..k] == s[..k] {}
  }

  lemma {:induction false} ZeroStays(s: seq<int>, z: nat, k: nat)
    requires z < k <= |s| && s[z] == 0
    ensures Times(s[..k]) == 0
  {
    TimesStep(s, k - 1);
    if k > z + 1 {
      ZeroStays(s, z, k - 1);
    }
  }

  /** Exactly when multiplying int32 data succeeds, in terms of what comes before its first zero. */
  lemma PrefixesFitExact(s: seq<int>, z: nat)
    requires AllFit(s) && z <= |s| && ZeroFree(s[..z]) && (z < |s| ==> s[z] == 0)
    ensures PrefixesFit(s) <==> FitsInt32(Times(s[..z])) && forall k :: 2 <= k <= z ==> Times(s[..k]) != 0x8000_0000
  {
    hide Times;
    ZeroFreeExact(s[..z]);
    forall k | 0 <= k <= z ensures s[..z][..k] == s[..k] {}
    if z < |s| {
      FirstZeroDecides(s, z);
    } else {
      assert s[..z] == s;
    }
  }

  /** One axis and then everything that is left. */
  predicate TwoStepsFit(data: seq<int>, dims: seq<nat>, axis: nat)
    requires axis < |dims| && |data| == Product(dims)
  {
    FibresAlongFit(data, dims, axis) && PrefixesFit(ReducedAlong(data, dims, axis))
  }

  /**
   * The order of the multiplications matters only for data with a zero or with product -2^31.
   * Otherwise both ways succeed together, namely exactly when the product of everything fits.
   */
  lemma OrderIrrelevant(data: seq<int>, dims: seq<nat>, axis: nat)
    requires axis < |dims| && |data| == Product(dims) > 0 && AllFit(data)
    requires ZeroFree(data) && Times(data) != MIN_INT32
    ensures PrefixesFit(data) <==> FitsInt32(Times(data))
    ensures TwoStepsFit(data, dims, axis) <==> FitsInt32(Times(data))
  {
    hide Product, Reduced, Times, PrefixesFit, Fibre;
    ZeroFreeExact(data);
    ReducedCount(dims, axis, false);
    var head, n, width := Product(dims[..axis]), dims[axis], Product(dims[axis + 1..]);
    assert data[..|data|] == data;
    TwoSteps(data, head, n, width);
  }

  lemma TwoSteps(data: seq<int>, head: nat, n: nat, width: nat)
    requires head * (n * width) == |data| > 0 && AllFit(data) && ZeroFree(data) && Times(data) != MIN_INT32
    ensures FibresFit(data, head, n, width) && PrefixesFit(Reduced(data, head, n, width)) <==> FitsInt32(Times(data))
  {
    hide Times, PrefixesFit, Fibre, Reduced, FibresFit;
    var reduced := Reduced(data, head, n, width);
    ReducedTimes(data, head, n, width);
    assert data[..|data|] == data;
    ReducedZeroFree(data, head, n, width);
    if FitsInt32(Times(data)) {
      forall p | 0 <= p < |reduced| ensures FitsInt32(reduced[p]) && reduced[p] != MIN_INT32 {
        ElementBelow(reduced, p);
      }
      SmallFibresFit(data, head, n, width);
      ZeroFreeExact(reduced);
    } else if FibresFit(data, head, n, width) {
      FittingFibres(data, head, n, width);
      ZeroFreeExact(reduced);
    }
  }

  lemma FibreFacts(data: seq<int>, head: nat, n: nat, width: nat, i: nat, j: nat)
    requires head * (n * width) == |data| && AllFit(data) && ZeroFree(data) && i < head && j < width
    ensures var fibre := Fibre(data, head, n, width, i, j);
            ZeroFree(fibre) && AllFit(fibre) && Times(fibre) != 0
  {
    hide Times, Fibre;
    var fibre := Fibre(data, head, n, width, i, j);
    forall k | 0 <= k < n ensures fibre[k] != 0 && FitsInt32(fibre[k]) {
      FibreAt(data, head, n, width, i, j, k);
    }
    PrefixBelow(fibre, n);
    assert fibre[..n] == fibre;
  }

  /** Every element of the reduced tensor is the product of some fibre. */
  lemma FibreFor(data: seq<int>, head: nat, n: nat, width: nat, p: nat) returns (i: nat, j: nat)
    requires head * (n * width) <= |data| && p < |Reduced(data, head, n, width)|
    ensures i < head && j < width && p == i * width + j
    ensures Reduced(data, head, n, width)[p] == Times(Fibre(data, head, n, width, i, j))
  {
    hide Times, Fibre, Reduced;
    ReducedLength(data, head, n, width);
    i, j := Place(p, head, width);
    ReducedAt(data, head, n, width, i, j);
  }

  lemma Place(p: nat, head: nat, width: nat) returns (i: nat, j: nat)
    requires p < head * width
    ensures i < head && j < width && p == i * width + j
  {
    var q := p / width;
    assert p == width * q + p % width;
    if q < 0 { MulMonotone(q, -1, width); }
    if q >= head { MulMonotone(head, q, width); }
    i, j := q, p % width;
  }

  lemma ReducedZeroFree(data: seq<int>, head: nat, n: nat, width: nat)
    requires head * (n * width) == |data| && AllFit(data) && ZeroFree(data)
    ensures ZeroFree(Reduced(data, head, n, width))
  {
    hide Times, Fibre, Reduced;
    var reduced := Reduced(data, head, n, width);
    forall p | 0 <= p < |reduced| ensures reduced[p] != 0 {
      var i, j := FibreFor(data, head, n, width, p);
      FibreFacts(data, head, n, width, i, j);
    }
  }

  lemma SmallFibresFit(data: seq<int>, head: nat, n: nat, width: nat)
    requires head * (n * width) == |data| && AllFit(data) && ZeroFree(data)
    requires var reduced := Reduced(data, head, n, width);
             forall p :: 0 <= p < |reduced| ==> FitsInt32(reduced[p]) && reduced[p] != MIN_INT32
    ensures FibresFit(data, head, n, width)
  {
    hide Times, Fibre, Reduced, PrefixesFit;
    forall i, j | 0 <= i < head && 0 <= j < width ensures PrefixesFit(Fibre(data, head, n, width, i, j)) {
      FibreFacts(data, head, n, width, i, j);
      ReducedAt(data, head, n, width, i, j);
      ZeroFreeExact(Fibre(data, head, n, width, i, j));
    }
  }

  lemma FittingFibres(data: seq<int>, head: nat, n: nat, width: nat)
    requires head * (n * width) == |data| && AllFit(data) && ZeroFree(data) && FibresFit(data, head, n, width)
    ensures AllFit(Reduced(data, head, n, width))
  {
    hide Times, Fibre, Reduced, PrefixesFit;
    var reduced := Reduced(data, head, n, width);
    forall p | 0 <= p < |reduced| ensures FitsInt32(reduced[p]) {
      var i, j := FibreFor(data, head, n, width, p);
      FibreFacts(data, head, n, width, i, j);
      ZeroFreeExact(Fibre(data, head, n, width, i, j));
    }
  }

  /**
   * Both exceptions are real. With a zero either way may be the one that fails; with product -2^31
   * the one-step form may meet 2^31 on the way.
   */
  lemma OrderMatters()
    ensures !OneStep(65536, 65536, 0, 0) && TwoStep(65536, 65536, 0, 0)
    ensures OneStep(0, 65536, 0, 65536) && !TwoStep(0, 65536, 0, 65536)
    ensures !OneStep(65536, 32768, -1, 1) && TwoStep(65536, 32768, -1, 1)
  {
    Square(65536, 65536, 0, 0);
    Square(0, 65536, 0, 65536);
    Square(65536, 32768, -1, 1);
  }

  function SquareDims(): (r: seq<nat>)
    ensures |r| == 2 && Product(r) == 4
  {
    assert [2, 2][1..] == [2];
    assert Product([2]) == 2;
    [2, 2]
  }

  predicate OneStep(a: int, b: int, c: int, d: int) {
    PrefixesFit([a, b, c, d])
  }

  predicate TwoStep(a: int, b: int, c: int, d: int) {
    TwoStepsFit([a, b, c, d], SquareDims(), 0)
  }

  /** Both ways on a two-by-two tensor, reduced along the first axis. */
  lemma Square(a: int, b: int, c: int, d: int)
    ensures OneStep(a, b, c, d) <==> FitsInt32(a * b) && FitsInt32(a * b * c) && FitsInt32(a * b * c * d)
    ensures TwoStep(a, b, c, d) <==> FitsInt32(a * c) && FitsInt32(b * d) && FitsInt32(a * c * (b * d))
  {
    hide Times, Fibre, Reduced, FitsInt32;
    var data, dims := [a, b, c, d], SquareDims();
    ShortProducts(data);
    assert dims[..0] == [] && dims[1..] == [2];
    assert Product([2]) == 2;
    forall j | 0 <= j < 2 ensures Fibre(data, 1, 2, 2, 0, j) == [data[j], data[j + 2]] {
      FibreAt(data, 1, 2, 2, 0, j, 0);
      FibreAt(data, 1, 2, 2, 0, j, 1);
    }
    Pair(a, c);
    Pair(b, d);
    ReducedLength(data, 1, 2, 2);
    ReducedAt(data, 1, 2, 2, 0, 0);
    ReducedAt(data, 1, 2, 2, 0, 1);
    assert Reduced(data, 1, 2, 2) == [a * c, b * d];
    Pair(a * c, b * d);
    assert FibresFit(data, 1, 2, 2) <==> FitsInt32(a * c) && FitsInt32(b * d) by {
      hide PrefixesFit;
      assert FibresFit(data, 1, 2, 2) <==>
        PrefixesFit(Fibre(data, 1, 2, 2, 0, 0)) && PrefixesFit(Fibre(data, 1, 2, 2, 0, 1));
    }
  }

  lemma Pair(x: int, y: int)
    ensures Times([x, y]) == x * y && (PrefixesFit([x, y]) <==> FitsInt32(x * y))
  {
    assert [x, y][..2] == [x, y] && [x, y][..1] == [x] && [x][..0] == [];
    TimesStep([x, y], 0);
    TimesStep([x, y], 1);
  }

  lemma ShortProducts(s: seq<int>)
    requires |s| == 4
    ensures Times(s[..2]) == s[0] * s[1] && Times(s[..3]) == s[0] * s[1] * s[2]
    ensures Times(s[..4]) == s[0] * s[1] * s[2] * s[3]
  {
    assert s[..0] == [];
    TimesStep(s, 0);
    TimesStep(s, 1);
    TimesStep(s, 2);
    TimesStep(s, 3);
  }
}
