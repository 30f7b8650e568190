/** Tensor shapes: element counts, row-major positions, and the loops that compute them. */
module Shape {
  import opened Powers
  import opened IntGuards

  function Product(dims: seq<nat>): nat {
    if dims == [] then 1 else dims[0] * Product(dims[1..])
  }

  lemma ProductOfNone()
    ensures Product([]) == 1
  {}

  lemma {:induction false} ProductConcat(a: seq<nat>, b: seq<nat>)
    ensures Product(a + b) == Product(a) * Product(b)
  {
    if a == [] {
      assert a + b == b;
    } else {
      assert (a + b)[1..] == a[1..] + b;
      ProductConcat(a[1..], b);
      MulAssoc(a[0], Product(a[1..]), Product(b));
    }
  }

  lemma ProductSplit(dims: seq<nat>, i: nat)
    requires i <= |dims|
    ensures Product(dims) == Product(dims[..i]) * Product(dims[i..])
  {
    assert dims == dims[..i] + dims[i..];
    ProductConcat(dims[..i], dims[i..]);
  }

  lemma ProductSuffix(dims: seq<nat>, i: nat)
    requires i < |dims|
    ensures Product(dims[i..]) == dims[i] * Product(dims[i + 1..])
  {
    assert dims[i..][1..] == dims[i + 1..];
  }

  lemma ProductPrefix(dims: seq<nat>, i: nat)
    requires i < |dims|
    ensures Product(dims[..i + 1]) == Product(dims[..i]) * dims[i]
  {
    assert dims[..i + 1] == dims[..i] + [dims[i]];
    ProductConcat(dims[..i], [dims[i]]);
    assert Product([dims[i]]) == dims[i] by { assert [dims[i]][1..] == []; }
  }

  lemma {:induction false} ProductPositive(dims: seq<nat>)
    ensures Product(dims) > 0 <==> forall i :: 0 <= i < |dims| ==> dims[i] > 0
  {
    if dims != [] {
      ProductPositive(dims[1..]);
      if Product(dims) > 0 {
        assert forall i :: 0 <= i < |dims| ==> dims[i] == (if i == 0 then dims[0] else dims[1..][i - 1]);
      } else if forall i :: 0 <= i < |dims| ==> dims[i] > 0 {
        assert Product(dims[1..]) > 0;
        MulMonotone(1, dims[0], Product(dims[1..]));
      }
    }
  }

  // ----- row-major positions

  predicate InShape(index: seq<nat>, dims: seq<nat>) {
    |index| == |dims| && forall i :: 0 <= i < |dims| ==> index[i] < dims[i]
  }

  /** Position of a multi-dimensional index in the flat buffer. */
  function Flat(index: seq<nat>, dims: seq<nat>): nat
    requires |index| == |dims|
  {
    if dims == [] then 0 else index[0] * Product(dims[1..]) + Flat(index[1..], dims[1..])
  }

  lemma {:induction false} FlatBelow(index: seq<nat>, dims: seq<nat>)
    requires InShape(index, dims)
    ensures Flat(index, dims) < Product(dims)
  {
    if dims != [] {
      FlatBelow(index[1..], dims[1..]);
      MulMonotone(index[0] + 1, dims[0], Product(dims[1..]));
      assert (index[0] + 1) * Product(dims[1..]) == index[0] * Product(dims[1..]) + Product(dims[1..]);
    }
  }

  lemma {:induction false} FlatConcat(i: seq<nat>, d: seq<nat>, j: seq<nat>, e: seq<nat>)
    requires |i| == |d| && |j| == |e|
    ensures Flat(i + j, d + e) == Flat(i, d) * Product(e) + Flat(j, e)
  {
    if d == [] {
      assert i + j == j && d + e == e;
    } else {
      assert (i + j)[1..] == i[1..] + j && (d + e)[1..] == d[1..] + e;
      FlatConcat(i[1..], d[1..], j, e);
      ProductConcat(d[1..], e);
      FlatUnfold(i + j, d + e);
      FlatUnfold(i, d);
      hide Flat, Product;
      Distribute(i[0], Product(d[1..]), Flat(i[1..], d[1..]), Product(e));
    }
  }

  lemma FlatUnfold(index: seq<nat>, dims: seq<nat>)
    requires |index| == |dims| > 0
    ensures Flat(index, dims) == index[0] * Product(dims[1..]) + Flat(index[1..], dims[1..])
  {}

  lemma Distribute(x: nat, p: nat, f: nat, q: nat)
    ensures (x * p + f) * q == x * (p * q) + f * q
  {}

  /** An index splits at an axis into the part before it, the coordinate, and the part after it. */
  lemma FlatAtAxis(index: seq<nat>, dims: seq<nat>, axis: nat)
    requires |index| == |dims| && axis < |dims|
    ensures Flat(index, dims)
         == (Flat(index[..axis], dims[..axis]) * dims[axis] + index[axis]) * Product(dims[axis + 1..])
            + Flat(index[axis + 1..], dims[axis + 1..])
  {
    assert index == index[..axis] + index[axis..] && dims == dims[..axis] + dims[axis..];
    FlatConcat(index[..axis], dims[..axis], index[axis..], dims[axis..]);
    assert index[axis..][1..] == index[axis + 1..] && dims[axis..][1..] == dims[axis + 1..];
    FlatUnfold(index[axis..], dims[axis..]);
    ProductSuffix(dims, axis);
    hide Flat, Product;
    Collect(Flat(index[..axis], dims[..axis]), dims[axis], index[axis], Product(dims[axis + 1..]));
  }

  lemma Collect(h: nat, d: nat, m: nat, p: nat)
    ensures h * (d * p) + m * p == (h * d + m) * p
  {}

  /** Every position below the element count belongs to an index. */
  lemma {:induction false} Unflatten(p: nat, dims: seq<nat>) returns (index: seq<nat>)
    requires p < Product(dims)
    ensures InShape(index, dims) && Flat(index, dims) == p
  {
    if dims == [] {
      index := [];
    } else {
      var q := Product(dims[1..]);
      assert q > 0;
      assert p == q * (p / q) + p % q;
      if p / q >= dims[0] { MulMonotone(dims[0], p / q, q); }
      if p / q < 0 { MulMonotone(p / q, -1, q); }
      var rest := Unflatten(p % q, dims[1..]);
      index := [p / q] + rest;
      assert index[1..] == rest;
      assert p / q * q == q * (p / q);
    }
  }

  lemma {:induction false} FlatInjective(i: seq<nat>, j: seq<nat>, dims: seq<nat>)
    requires InShape(i, dims) && InShape(j, dims) && Flat(i, dims) == Flat(j, dims)
    ensures i == j
  {
    if dims != [] {
      var q := Product(dims[1..]);
      FlatBelow(i[1..], dims[1..]);
      FlatBelow(j[1..], dims[1..]);
      DivModUnique(Flat(i, dims), q, i[0], Flat(i[1..], dims[1..]));
      DivModUnique(Flat(j, dims), q, j[0], Flat(j[1..], dims[1..]));
      FlatInjective(i[1..], j[1..], dims[1..]);
      assert i == [i[0]] + i[1..] && j == [j[0]] + j[1..];
    }
  }

  // ----- strides (gather_v2_kernel.cc)

  /** Every product the stride loop forms fits int64. */
  predicate StridesFit(dims: seq<nat>) {
    forall i :: 1 <= i < |dims| ==> FitsInt64(Product(dims[i..]))
  }

  /**
   * The stride loop runs from the last dimension to the first and fails exactly on an empty or
   * mismatched shape or on a product that does not fit int64.
   */
  method CalcStride(size: nat, dims: seq<nat>) returns (ok: bool, stride: seq<nat>)
    ensures ok <==> size == |dims| && |dims| > 0 && StridesFit(dims)
    ensures ok ==> |stride| == |dims|
    ensures ok ==> forall k :: 0 <= k < |dims| ==> stride[k] == Product(dims[k + 1..])
  {
    hide CheckInt64MulOverflow, Product, FitsInt64;
    stride := seq(size, _ => 0);
    if size != |dims| || |dims| == 0 {
      return false, stride;
    }
    var i := |dims| - 1;
    assert dims[|dims|..] == [];
    ProductOfNone();
    stride := stride[i := 1];
    i := i - 1;
    while i >= 0
      invariant -1 <= i <= |dims| - 2 && |stride| == |dims|
      invariant forall k :: i < k < |dims| ==> stride[k] == Product(dims[k + 1..])
      invariant forall k :: i + 2 <= k < |dims| ==> FitsInt64(Product(dims[k..]))
    {
      var index := i + 1;
      StrideStep(dims, index);
      if !CheckInt64MulOverflow(stride[index], dims[index]) {
        return false, stride;
      }
      stride := stride[i := stride[index] * dims[index]];
      i := i - 1;
    }
    ok := true;
  }

  lemma StrideStep(dims: seq<nat>, i: nat)
    requires i < |dims|
    ensures Product(dims[i + 1..]) * dims[i] == Product(dims[i..])
    ensures CheckInt64MulOverflow(Product(dims[i + 1..]), dims[i]) <==> FitsInt64(Product(dims[i..]))
  {
    hide CheckInt64MulOverflow, FitsInt64, Product;
    ProductSuffix(dims, i);
    Int64Exact(Product(dims[i + 1..]), dims[i]);
  }

  // ----- dimensions (kernel_utils.h)

  /** All of the first `k` dimensions are positive and their running products fit int64. */
  predicate GoodPrefix(dims: seq<int>, k: nat) {
    && k <= |dims|
    && (forall i :: 0 <= i < k ==> dims[i] > 0)
    && (forall i :: 1 <= i <= k ==> FitsInt64(IntProduct(dims[..i])))
  }

  function IntProduct(dims: seq<int>): int {
    if dims == [] then 1 else IntProduct(dims[..|dims| - 1]) * dims[|dims| - 1]
  }

  /** The count that the loop forms: one for no dimension, then one factor after the other. */
  lemma IntProductStep(dims: seq<int>, i: nat)
    requires i < |dims|
    ensures IntProduct([]) == 1 && IntProduct(dims[..i + 1]) == IntProduct(dims[..i]) * dims[i]
  {
    assert dims[..i + 1][..i] == dims[..i];
  }

  datatype Dims = Failed | Empty | Full(dims: seq<int>, count: int)

  /**
   * Collects the dimensions and their product. A zero dimension ends the loop with nothing, whatever
   * comes after it; a negative dimension or an overflow before that is an error.
   */
  method CalcDims(dims: seq<int>) returns (r: Dims)
    ensures r.Full? <==> GoodPrefix(dims, |dims|)
    ensures r.Full? ==> r.dims == dims && r.count == IntProduct(dims)
    ensures r == Empty <==> exists k :: 0 <= k < |dims| && dims[k] == 0 && GoodPrefix(dims, k)
  {
    hide CheckInt64MulOverflow;
    var count := 1;
    var vec: seq<int> := [];
    var i := 0;
    while i < |dims|
      invariant 0 <= i <= |dims| && vec == dims[..i] && count == IntProduct(dims[..i]) && GoodPrefix(dims, i)
    {
      var dim := dims[i];
      assert dims[..i + 1][..i] == dims[..i];
      if dim < 0 {
        PrefixEnds(dims, i);
        return Failed;
      }
      if dim == 0 {
        return Empty;
      }
      Int64Exact(count, dim);
      if !CheckInt64MulOverflow(count, dim) {
        PrefixEnds(dims, i);
        return Failed;
      }
      count := count * dim;
      vec := vec + [dim];
      i := i + 1;
    }
    assert dims[..|dims|] == dims;
    r := Full(vec, count);
  }

  /** A bad dimension at `i` ends every good prefix there. */
  lemma PrefixEnds(dims: seq<int>, i: nat)
    requires GoodPrefix(dims, i) && i < |dims|
    requires dims[i] < 0 || (dims[i] > 0 && !FitsInt64(IntProduct(dims[..i + 1])))
    ensures forall k: nat :: k > i ==> !GoodPrefix(dims, k)
    ensures forall k: nat :: k <= i ==> dims[k] != 0
  {}
}
