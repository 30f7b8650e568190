/** The Pack kernel (ge/host_kernels/pack_kernel.cc) and its relation to GatherV2. */
module Pack {
  import opened Wrappers
  import opened Powers
  import opened Shape
  import opened Blocks
  import G = GatherV2

  /** The output shape: the number of inputs becomes a dimension of its own. */
  function ExpandDims(dims: seq<nat>, axis: nat, n: nat): seq<nat> {
    if axis >= |dims| then dims + [n] else dims[..axis] + [n] + dims[axis..]
  }

  /** The number of inputs stands at the axis, at most behind the last dimension. */
  lemma ExpandDimsExact(dims: seq<nat>, axis: nat, n: nat)
    ensures var final, at := ExpandDims(dims, axis, n), if axis <= |dims| then axis else |dims|;
            && |final| == |dims| + 1 && final[at] == n
            && forall d :: 0 <= d < |dims| ==> dims[d] == if d < at then final[d] else final[d + 1]
  {}

  function RemoveAxis(index: seq<nat>, axis: nat): seq<nat>
    requires axis < |index|
  {
    index[..axis] + index[axis + 1..]
  }

  predicate EqualShapes<T>(inputs: seq<seq<T>>, dims: seq<nat>) {
    |inputs| > 0 && forall j :: 0 <= j < |inputs| ==> |inputs[j]| == Product(dims)
  }

  /** Output element `index` is the element of the input named on the new axis. */
  ghost predicate Packs<T>(dims: seq<nat>, axis: nat, inputs: seq<seq<T>>, y: seq<T>)
    requires axis <= |dims| && EqualShapes(inputs, dims) && |y| == Product(ExpandDims(dims, axis, |inputs|))
  {
    forall index :: InShape(index, ExpandDims(dims, axis, |inputs|)) ==> PacksAt(dims, axis, inputs, y, index)
  }

  ghost predicate PacksAt<T>(dims: seq<nat>, axis: nat, inputs: seq<seq<T>>, y: seq<T>, index: seq<nat>)
    requires axis <= |dims| && EqualShapes(inputs, dims) && |y| == Product(ExpandDims(dims, axis, |inputs|))
    requires InShape(index, ExpandDims(dims, axis, |inputs|))
  {
    RemovedInShape(dims, axis, |inputs|, index);
    FlatBelow(index, ExpandDims(dims, axis, |inputs|));
    FlatBelow(RemoveAxis(index, axis), dims);
    y[Flat(index, ExpandDims(dims, axis, |inputs|))] == inputs[index[axis]][Flat(RemoveAxis(index, axis), dims)]
  }

  /** Packing, spelled out: the output at an index is the input named on the axis at the rest of the index. */
  lemma PacksExact<T>(dims: seq<nat>, axis: nat, inputs: seq<seq<T>>, y: seq<T>, index: seq<nat>)
    requires axis <= |dims| && EqualShapes(inputs, dims) && |y| == Product(ExpandDims(dims, axis, |inputs|))
    requires Packs(dims, axis, inputs, y) && InShape(index, ExpandDims(dims, axis, |inputs|))
    ensures var rest := index[..axis] + index[axis + 1..];
            && index[axis] < |inputs| && InShape(rest, dims)
            && Flat(index, ExpandDims(dims, axis, |inputs|)) < |y| && Flat(rest, dims) < |inputs[index[axis]]|
            && y[Flat(index, ExpandDims(dims, axis, |inputs|))] == inputs[index[axis]][Flat(rest, dims)]
  {
    hide Product, Flat;
    RemovedInShape(dims, axis, |inputs|, index);
    assert PacksAt(dims, axis, inputs, y, index);
    FlatBelow(index, ExpandDims(dims, axis, |inputs|));
    FlatBelow(RemoveAxis(index, axis), dims);
  }

  lemma RemovedInShape(dims: seq<nat>, axis: nat, n: nat, index: seq<nat>)
    requires axis <= |dims| && InShape(index, ExpandDims(dims, axis, n))
    ensures index[axis] < n && InShape(RemoveAxis(index, axis), dims)
  {
    var out := ExpandDims(dims, axis, n);
    assert index[axis] < out[axis];
    forall i | 0 <= i < |dims| ensures RemoveAxis(index, axis)[i] < dims[i] {
      if i < axis {
        assert index[i] < out[i];
      } else {
        assert index[i + 1] < out[i + 1];
      }
    }
  }

  // ----- the copy loop

  /** The first `k` blocks of the output hold, in turn, a block of each input. */
  ghost predicate BlocksDone<T>(inputs: seq<seq<T>>, times: nat, unit: nat, y: seq<T>, k: nat) {
    && |inputs| > 0 && k <= times * |inputs| && |y| == times * |inputs| * unit
    && (forall j :: 0 <= j < |inputs| ==> |inputs[j]| == times * unit)
    && forall b: nat :: b < k ==> BlockDone(inputs, times, unit, y, b)
  }

  ghost predicate BlockDone<T>(inputs: seq<seq<T>>, times: nat, unit: nat, y: seq<T>, b: nat)
    requires |inputs| > 0 && b < times * |inputs| && |y| == times * |inputs| * unit
    requires forall j :: 0 <= j < |inputs| ==> |inputs[j]| == times * unit
  {
    G.RowOf(b, |inputs|);
    RowBelow(b, |inputs|, times);
    BlockEnd(b / |inputs|, times, unit);
    BlockEnd(b, times * |inputs|, unit);
    Block(y, b, unit) == Block(inputs[b % |inputs|], b / |inputs|, unit)
  }

  lemma RowBelow(b: nat, n: nat, times: nat)
    requires n > 0 && b < times * n
    ensures 0 <= b / n < times
  {
    G.RowOf(b, n);
    if b / n >= times { MulMonotone(times, b / n, n); }
  }

  /** The validation admits one axis too many; there the output has the shape of the last good axis. */
  function GoodAxis(dims: seq<nat>, axis: nat): nat {
    if axis <= |dims| then axis else |dims|
  }

  /**
   * Elements after the axis make one block, elements before it the number of rounds. One axis beyond
   * the rank the rounds also count the inputs: then the output is full after one round in `n`, the next
   * copy has no room left and is refused.
   */
  method CopyOutputData<T(0)>(dims: seq<nat>, axis: nat, inputs: seq<seq<T>>, width: nat) returns (r: Option<seq<T>>)
    requires axis <= |dims| + 1 && EqualShapes(inputs, dims) && width > 0
    ensures var size := Product(ExpandDims(dims, axis, |inputs|));
            r.Some? <==> size == 0 || (G.WithinLimit(size, width) && (axis <= |dims| || |inputs| == 1))
    ensures r.Some? ==> |r.value| == Product(ExpandDims(dims, axis, |inputs|))
    ensures r.Some? ==> Packs(dims, GoodAxis(dims, axis), inputs, r.value)
  {
    hide Product, Flat, BlocksDone, Packs, G.WithinLimit;
    var n := |inputs|;
    var final := ExpandDims(dims, axis, n);
    ghost var good := GoodAxis(dims, axis);
    PackSizes(dims, good, n);
    var size := Product(final);
    if size == 0 {
      NothingToPack(dims, good, inputs);
      return Some([]);
    }
    var times, unit := CountBlocks(final, axis);
    ghost var rows := Product(dims[..good]);
    CountsAre(dims, axis, n);
    PositiveFactors(rows, n, unit);
    var buf := new T[size];
    NothingDone(inputs, rows, unit, buf[..]);
    var ok := CopyRounds(inputs, times, rows, unit, buf, width);
    if !ok {
      return None;
    }
    BlocksArePack(dims, good, inputs, buf[..]);
    r := Some(buf[..]);
  }

  /** The copy loops. They end early once `rows` rounds have filled the output. */
  method CopyRounds<T>(inputs: seq<seq<T>>, times: nat, ghost rows: nat, unit: nat, buf: array<T>, width: nat) returns (ok: bool)
    requires 0 < rows <= times && |inputs| > 0 && unit > 0 && width > 0
    requires BlocksDone(inputs, rows, unit, buf[..], 0)
    modifies buf
    ensures ok <==> G.WithinLimit(buf.Length, width) && times == rows
    ensures ok ==> BlocksDone(inputs, rows, unit, buf[..], rows * |inputs|)
  {
    hide BlocksDone, G.WithinLimit;
    var n := |inputs|;
    var dst, src := 0, 0;
    for i := 0 to times
      invariant i <= rows && src == i * unit && dst == i * n * unit
      invariant BlocksDone(inputs, rows, unit, buf[..], i * n) && (i > 0 ==> G.WithinLimit(buf.Length, width))
    {
      for j := 0 to n
        invariant i <= rows && (j > 0 ==> i < rows) && dst == (i * n + j) * unit
        invariant BlocksDone(inputs, rows, unit, buf[..], i * n + j)
        invariant i > 0 || j > 0 ==> G.WithinLimit(buf.Length, width)
      {
        ok := CopyUnit(inputs, rows, unit, buf, dst, src, width, i, j);
        if !ok {
          return;
        }
        BlockStart(i * n + j, unit);
        dst := dst + unit;
      }
      BlockStart(i, n);
      BlockStart(i, unit);
      src := src + unit;
    }
    ok := true;
  }

  /** The two products of the source; there is nothing behind an axis beyond the last one. */
  method CountBlocks(final: seq<nat>, axis: nat) returns (times: nat, unit: nat)
    requires axis <= |final|
    ensures times == Product(final[..axis])
    ensures unit == if axis < |final| then Product(final[axis + 1..]) else 1
  {
    hide Product;
    times, unit := 1, 1;
    var i := axis + 1;
    assert final[..0] == [] && (axis < |final| ==> final[axis + 1..axis + 1] == []);
    ProductOfNone();
    while i < |final|
      invariant axis < i && (axis < |final| ==> i <= |final| && unit == Product(final[axis + 1..i]))
      invariant axis == |final| ==> unit == 1
    {
      ProductPrefix(final[axis + 1..], i - axis - 1);
      assert final[axis + 1..][..i - axis - 1] == final[axis + 1..i];
      assert final[axis + 1..][..i - axis] == final[axis + 1..i + 1];
      unit := unit * final[i];
      i := i + 1;
    }
    for k := 0 to axis
      invariant times == Product(final[..k])
    {
      ProductPrefix(final, k);
      times := times * final[k];
    }
    assert axis < |final| ==> final[axis + 1..|final|] == final[axis + 1..];
  }

  lemma CountsAre(dims: seq<nat>, axis: nat, n: nat)
    requires axis <= |dims| + 1
    ensures var final := ExpandDims(dims, axis, n);
            && |final| == |dims| + 1
            && (axis <= |dims| ==>
                  && Product(final[..axis]) == Product(dims[..axis])
                  && Product(final[axis + 1..]) == Product(dims[axis..]))
            && (axis > |dims| ==>
                  && Product(final[..axis]) == Product(dims[..|dims|]) * n
                  && Product(dims[|dims|..]) == 1)
  {
    var final := ExpandDims(dims, axis, n);
    PackSizes(dims, GoodAxis(dims, axis), n);
    if axis > |dims| {
      assert final[..axis] == final && dims[|dims|..] == [];
    }
  }

  lemma PositiveFactors(rows: nat, n: nat, unit: nat)
    requires rows * n * unit > 0
    ensures rows > 0 && n > 0 && unit > 0 && (rows * n == rows <==> n == 1)
  {
    if n > 1 { MulMonotone(2, n, rows); }
  }

  lemma NothingToPack<T>(dims: seq<nat>, axis: nat, inputs: seq<seq<T>>)
    requires axis <= |dims| && EqualShapes(inputs, dims) && Product(ExpandDims(dims, axis, |inputs|)) == 0
    ensures Packs(dims, axis, inputs, [])
  {
    hide Product;
    forall index | InShape(index, ExpandDims(dims, axis, |inputs|)) ensures false {
      FlatBelow(index, ExpandDims(dims, axis, |inputs|));
    }
  }

  /** One copy. It is refused when the output is full, or, the first time, when it is above the limit. */
  method CopyUnit<T>(inputs: seq<seq<T>>, ghost rows: nat, unit: nat, buf: array<T>, dst: nat, src: nat, width: nat,
                     ghost i: nat, j: nat) returns (ok: bool)
    requires width > 0 && unit > 0 && j < |inputs| && i <= rows && (i == rows ==> j == 0)
    requires BlocksDone(inputs, rows, unit, buf[..], i * |inputs| + j)
    requires dst == (i * |inputs| + j) * unit && src == i * unit
    requires i > 0 || j > 0 ==> G.WithinLimit(buf.Length, width)
    modifies buf
    ensures ok <==> i < rows && G.WithinLimit(buf.Length, width)
    ensures ok ==> BlocksDone(inputs, rows, unit, buf[..], i * |inputs| + j + 1)
  {
    ghost var n := |inputs|;
    SizesOf(inputs, rows, unit, buf[..], i * n + j);
    hide BlocksDone;
    ghost var before := buf[..];
    if i < rows {
      PackBlock(i, j, n, rows, unit);
    }
    RoomInBytes(buf.Length, dst, unit, width);
    ok := BoundedCopy(buf, dst, (buf.Length - dst) * width, inputs[j], src, unit, width);
    if ok {
      NextBlock(inputs, rows, unit, before, buf[..], i, j);
    }
  }

  lemma SizesOf<T>(inputs: seq<seq<T>>, times: nat, unit: nat, y: seq<T>, k: nat)
    requires BlocksDone(inputs, times, unit, y, k)
    ensures |y| == times * |inputs| * unit && k * unit <= |y|
    ensures forall j :: 0 <= j < |inputs| ==> |inputs[j]| == times * unit
  {
    MulMonotone(k, times * |inputs|, unit);
  }

  lemma PackSizes(dims: seq<nat>, axis: nat, n: nat)
    requires axis <= |dims|
    ensures var final := ExpandDims(dims, axis, n);
            && final[..axis] == dims[..axis] && final[axis] == n && final[axis + 1..] == dims[axis..]
            && Product(final) == Product(dims[..axis]) * n * Product(dims[axis..])
            && Product(dims) == Product(dims[..axis]) * Product(dims[axis..])
  {
    var final := ExpandDims(dims, axis, n);
    assert final[..axis] == dims[..axis] && final[axis + 1..] == dims[axis..];
    ProductSplit(final, axis);
    ProductSuffix(final, axis);
    ProductSplit(dims, axis);
    MulAssoc(Product(dims[..axis]), n, Product(dims[axis..]));
  }

  lemma NothingDone<T>(inputs: seq<seq<T>>, times: nat, unit: nat, y: seq<T>)
    requires |inputs| > 0 && |y| == times * |inputs| * unit
    requires forall j :: 0 <= j < |inputs| ==> |inputs[j]| == times * unit
    ensures BlocksDone(inputs, times, unit, y, 0)
  {}

  lemma PackBlock(i: nat, j: nat, n: nat, times: nat, unit: nat)
    requires i < times && j < n
    ensures (i * n + j) * unit + unit == (i * n + j + 1) * unit <= times * n * unit
    ensures i * unit + unit <= times * unit && i * n + j < times * n
    ensures (i * n + j) / n == i && (i * n + j) % n == j
  {
    MulMonotone(i + 1, times, n);
    assert (i + 1) * n == i * n + n;
    BlockEnd(i * n + j, times * n, unit);
    BlockStart(i * n + j, unit);
    BlockEnd(i, times, unit);
    BlockStart(i, unit);
    DivModUnique(i * n + j, n, i, j);
  }

  lemma NextBlock<T>(inputs: seq<seq<T>>, times: nat, unit: nat, before: seq<T>, after: seq<T>, i: nat, j: nat)
    requires i < times && j < |inputs| && BlocksDone(inputs, times, unit, before, i * |inputs| + j)
    requires |after| == |before| && 0 <= (i * |inputs| + j) * unit && (i * |inputs| + j) * unit + unit <= |after|
    requires i * unit + unit <= |inputs[j]|
    requires after[..(i * |inputs| + j) * unit] == before[..(i * |inputs| + j) * unit]
    requires after[(i * |inputs| + j) * unit..(i * |inputs| + j) * unit + unit] == inputs[j][i * unit..i * unit + unit]
    ensures BlocksDone(inputs, times, unit, after, i * |inputs| + j + 1)
  {
    var k := i * |inputs| + j;
    PackBlock(i, j, |inputs|, times, unit);
    BlockStart(i, unit);
    assert BlockDone(inputs, times, unit, after, k);
    hide Block;
    forall b: nat | b < k ensures BlockDone(inputs, times, unit, after, b) {
      assert BlockDone(inputs, times, unit, before, b);
      BlockEnd(k, times * |inputs|, unit);
      EarlierBlock(before, after, b, k, unit);
    }
  }

  lemma InsideBlock<T>(inputs: seq<seq<T>>, times: nat, unit: nat, y: seq<T>, i: nat, j: nat, t: nat)
    requires BlocksDone(inputs, times, unit, y, times * |inputs|) && i < times && j < |inputs| && t < unit
    ensures 0 <= (i * |inputs| + j) * unit + t < |y| && 0 <= i * unit + t < |inputs[j]|
    ensures y[(i * |inputs| + j) * unit + t] == inputs[j][i * unit + t]
  {
    PackBlock(i, j, |inputs|, times, unit);
    var b := i * |inputs| + j;
    BlockStart(b, unit);
    BlockStart(i, unit);
    assert BlockDone(inputs, times, unit, y, b);
    assert Block(y, b, unit)[t] == Block(inputs[j], i, unit)[t];
  }

  lemma BlocksArePack<T>(dims: seq<nat>, axis: nat, inputs: seq<seq<T>>, y: seq<T>)
    requires axis <= |dims| && EqualShapes(inputs, dims) && |y| == Product(ExpandDims(dims, axis, |inputs|))
    requires var times := Product(dims[..axis]);
             BlocksDone(inputs, times, Product(dims[axis..]), y, times * |inputs|)
    ensures Packs(dims, axis, inputs, y)
  {
    hide Product, Flat, BlocksDone;
    forall index | InShape(index, ExpandDims(dims, axis, |inputs|))
      ensures PacksAt(dims, axis, inputs, y, index)
    {
      BlockIsPack(dims, axis, inputs, y, index);
    }
  }

  lemma BlockIsPack<T>(dims: seq<nat>, axis: nat, inputs: seq<seq<T>>, y: seq<T>, index: seq<nat>)
    requires axis <= |dims| && EqualShapes(inputs, dims) && |y| == Product(ExpandDims(dims, axis, |inputs|))
    requires var times := Product(dims[..axis]);
             BlocksDone(inputs, times, Product(dims[axis..]), y, times * |inputs|)
    requires InShape(index, ExpandDims(dims, axis, |inputs|))
    ensures PacksAt(dims, axis, inputs, y, index)
  {
    hide Product, Flat, BlocksDone;
    var n := |inputs|;
    var final := ExpandDims(dims, axis, n);
    RemovedInShape(dims, axis, n, index);
    PackSizes(dims, axis, n);
    FlatAtAxis(index, final, axis);
    FlatWithoutAxis(dims, axis, index);
    var h, rest := Flat(index[..axis], dims[..axis]), Flat(index[axis + 1..], dims[axis..]);
    G.PartsInShape(index, final, axis);
    FlatBelow(index[..axis], dims[..axis]);
    FlatBelow(index[axis + 1..], dims[axis..]);
    InsideBlock(inputs, Product(dims[..axis]), Product(dims[axis..]), y, h, index[axis], rest);
  }

  lemma FlatWithoutAxis(dims: seq<nat>, axis: nat, index: seq<nat>)
    requires axis <= |dims| && |index| == |dims| + 1
    ensures Flat(RemoveAxis(index, axis), dims)
         == Flat(index[..axis], dims[..axis]) * Product(dims[axis..]) + Flat(index[axis + 1..], dims[axis..])
  {
    assert dims == dims[..axis] + dims[axis..];
    FlatConcat(index[..axis], dims[..axis], index[axis + 1..], dims[axis..]);
  }

  // ----- packing and gathering are inverse

  /** Gathering the single index `j` along the packed axis gives back input `j`, element by element. */
  lemma PackThenGather<T>(dims: seq<nat>, axis: nat, inputs: seq<seq<T>>, packed: seq<T>, j: nat, y: seq<T>)
    requires axis <= |dims| && EqualShapes(inputs, dims) && j < |inputs|
    requires |packed| == Product(ExpandDims(dims, axis, |inputs|)) && Packs(dims, axis, inputs, packed)
    requires ExpandDims(dims, axis, |inputs|)[axis] == |inputs|
    requires |y| == Product(G.OutDims(ExpandDims(dims, axis, |inputs|), axis, 1))
    requires G.Gathers(ExpandDims(dims, axis, |inputs|), axis, [j], packed, y)
    ensures y == inputs[j]
  {
    hide Product, Flat, Packs, PacksAt, G.Gathers, G.GathersAt;
    var n := |inputs|;
    var final := ExpandDims(dims, axis, n);
    PackSizes(dims, axis, n);
    PackSizes(dims, axis, 1);
    assert G.OutDims(final, axis, 1) == ExpandDims(dims, axis, 1);
    assert |y| == |inputs[j]|;
    forall p | 0 <= p < |y| ensures y[p] == inputs[j][p] {
      GatheredElement(dims, axis, inputs, packed, j, y, p);
    }
  }

  lemma GatheredElement<T>(dims: seq<nat>, axis: nat, inputs: seq<seq<T>>, packed: seq<T>, j: nat, y: seq<T>, p: nat)
    requires axis <= |dims| && EqualShapes(inputs, dims) && j < |inputs|
    requires |packed| == Product(ExpandDims(dims, axis, |inputs|)) && Packs(dims, axis, inputs, packed)
    requires ExpandDims(dims, axis, |inputs|)[axis] == |inputs|
    requires |y| == Product(G.OutDims(ExpandDims(dims, axis, |inputs|), axis, 1))
    requires G.Gathers(ExpandDims(dims, axis, |inputs|), axis, [j], packed, y)
    requires p < |y| == |inputs[j]|
    ensures y[p] == inputs[j][p]
  {
    hide Product, Flat;
    var n := |inputs|;
    var final := ExpandDims(dims, axis, n);
    var one := ExpandDims(dims, axis, 1);
    assert G.OutDims(final, axis, 1) == one;
    var index := Unflatten(p, one);
    RemovedInShape(dims, axis, 1, index);
    assert G.GathersAt(final, axis, [j], packed, y, index);
    G.SelectedInShape(final, axis, [j], index);
    var source := G.Selected(index, axis, [j]);
    assert PacksAt(dims, axis, inputs, packed, source);
    assert RemoveAxis(source, axis) == RemoveAxis(index, axis);
    FlatAtAxis(index, one, axis);
    FlatWithoutAxis(dims, axis, index);
    PackSizes(dims, axis, 1);
  }
}
