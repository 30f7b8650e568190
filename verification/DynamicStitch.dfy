/** The DynamicStitch kernel (ge/host_kernels/dynamic_stitch_kernel.cc), on byte buffers. */
module DynamicStitch {
  import opened Wrappers
  import opened Powers
  import opened IntGuards
  import opened Blocks

  /** Index tensors as the kernel assumes them: no negative entry, and room for one more slot. */
  predicate GoodIndices(indices: seq<seq<int>>) {
    forall i :: 0 <= i < |indices| ==> forall j :: 0 <= j < |indices[i]| ==> 0 <= indices[i][j] < MAX_INT32
  }

  /**
   * What the search for the largest index looks at. It takes one element of every tensor, also of one
   * that has none; `stray` is what it finds there.
   */
  function Padded(indices: seq<seq<int>>, stray: seq<int>): (r: seq<seq<int>>)
    requires |stray| == |indices|
    ensures |r| == |indices|
    ensures forall i :: 0 <= i < |r| ==> r[i] == if indices[i] == [] then [stray[i]] else indices[i]
  {
    seq(|indices|, i requires 0 <= i < |indices| => if indices[i] == [] then [stray[i]] else indices[i])
  }

  predicate BelowMax(indices: seq<seq<int>>) {
    forall i :: 0 <= i < |indices| ==> forall j :: 0 <= j < |indices[i]| ==> indices[i][j] < MAX_INT32
  }

  predicate Place(indices: seq<seq<int>>, i: int, j: int) {
    0 <= i < |indices| && 0 <= j < |indices[i]|
  }

  predicate Precedes(i: int, j: int, k: int, m: int) {
    i < k || (i == k && j < m)
  }

  /** Slot count of the output: one more than the largest index. */
  ghost predicate IsSlotCount(slots: int, indices: seq<seq<int>>) {
    && (forall i, j :: Place(indices, i, j) ==> indices[i][j] < slots)
    && slots >= 1
    && (slots == 1 || exists i, j :: Place(indices, i, j) && indices[i][j] == slots - 1)
  }

  method ComputeMergedFirstDim(indices: seq<seq<int>>) returns (slots: int)
    requires BelowMax(indices)
    ensures IsSlotCount(slots, indices) && FitsInt32(slots)
  {
    var top := 0;
    for i := 0 to |indices|
      invariant 0 <= top < MAX_INT32
      invariant forall k, m :: Place(indices, k, m) && k < i ==> indices[k][m] <= top
      invariant top == 0 || exists k, m :: Place(indices, k, m) && indices[k][m] == top
    {
      for j := 0 to |indices[i]|
        invariant 0 <= top < MAX_INT32
        invariant forall k, m :: Place(indices, k, m) && Precedes(k, m, i, j) ==> indices[k][m] <= top
        invariant top == 0 || exists k, m :: Place(indices, k, m) && indices[k][m] == top
      {
        assert Place(indices, i, j);
        top := if indices[i][j] > top then indices[i][j] else top;
      }
    }
    slots := top + 1;
  }

  // ----- who writes a slot last

  /** Among the places before (`k`, `m`), (`i`, `j`) is the last one that names its slot. */
  ghost predicate LastBefore(indices: seq<seq<int>>, i: int, j: int, k: int, m: int) {
    && Place(indices, i, j) && Precedes(i, j, k, m)
    && forall i', j' :: Place(indices, i', j') && Precedes(i, j, i', j') && Precedes(i', j', k, m) ==>
                          indices[i'][j'] != indices[i][j]
  }

  /** (`i`, `j`) is the last place that names its slot. */
  ghost predicate LastWriter(indices: seq<seq<int>>, i: int, j: int) {
    LastBefore(indices, i, j, |indices|, 0)
  }

  /** Every slot that is named has a last writer. */
  lemma {:induction false} LastWriterExists(indices: seq<seq<int>>, i: int, j: int) returns (i': int, j': int)
    requires Place(indices, i, j)
    ensures LastWriter(indices, i', j') && indices[i'][j'] == indices[i][j]
    decreases |indices| - i, if 0 <= i < |indices| then |indices[i]| - j else 0
  {
    if LastWriter(indices, i, j) {
      return i, j;
    }
    var k, m :| Place(indices, k, m) && Precedes(i, j, k, m) && indices[k][m] == indices[i][j];
    i', j' := LastWriterExists(indices, k, m);
  }

  /** ... and only one. */
  lemma LastWriterUnique(indices: seq<seq<int>>, i: int, j: int, i': int, j': int)
    requires LastWriter(indices, i, j) && LastWriter(indices, i', j') && indices[i][j] == indices[i'][j']
    ensures i == i' && j == j'
  {
    assert !Precedes(i, j, i', j');
    assert !Precedes(i', j', i, j);
  }

  /** The data that belongs to a place. */
  predicate DataCovers<T>(indices: seq<seq<int>>, data: seq<seq<T>>, unit: nat) {
    |data| == |indices| && forall i :: 0 <= i < |indices| ==> |indices[i]| * unit <= |data[i]|
  }

  function Source<T>(indices: seq<seq<int>>, data: seq<seq<T>>, unit: nat, i: int, j: int): seq<T>
    requires Place(indices, i, j) && DataCovers(indices, data, unit)
  {
    BlockEnd(j, |indices[i]|, unit);
    Block(data[i], j, unit)
  }

  /** Every named slot holds the data of the last place, before (`k`, `m`), that names it. */
  ghost predicate Stitched<T>(buf: seq<T>, slots: nat, indices: seq<seq<int>>, data: seq<seq<T>>, unit: nat, k: int, m: int)
    requires DataCovers(indices, data, unit) && |buf| == slots * unit
  {
    forall i, j :: LastBefore(indices, i, j, k, m) && 0 <= indices[i][j] < slots ==>
                     Slot(buf, slots, unit, indices[i][j]) == Source(indices, data, unit, i, j)
  }

  function Slot<T>(buf: seq<T>, slots: nat, unit: nat, s: nat): (r: seq<T>)
    requires s < slots && |buf| == slots * unit
    ensures |r| == unit
  {
    BlockEnd(s, slots, unit);
    BlockStart(s, unit);
    Block(buf, s, unit)
  }

  lemma StitchOne<T>(before: seq<T>, after: seq<T>, slots: nat, indices: seq<seq<int>>, data: seq<seq<T>>, unit: nat, i: int, j: int)
    requires DataCovers(indices, data, unit) && |before| == |after| == slots * unit
    requires Place(indices, i, j) && 0 <= indices[i][j] < slots
    requires Stitched(before, slots, indices, data, unit, i, j)
    requires Slot(after, slots, unit, indices[i][j]) == Source(indices, data, unit, i, j)
    requires forall s :: 0 <= s < slots && s != indices[i][j] ==> Slot(after, slots, unit, s) == Slot(before, slots, unit, s)
    ensures Stitched(after, slots, indices, data, unit, i, j + 1)
  {
    hide Slot, Source;
    forall k, m | LastBefore(indices, k, m, i, j + 1) && 0 <= indices[k][m] < slots
      ensures Slot(after, slots, unit, indices[k][m]) == Source(indices, data, unit, k, m)
    {
      if k != i || m != j {
        assert Precedes(k, m, i, j) && Precedes(i, j, i, j + 1);
        assert LastBefore(indices, k, m, i, j);
      }
    }
  }

  lemma NextTensor<T>(buf: seq<T>, slots: nat, indices: seq<seq<int>>, data: seq<seq<T>>, unit: nat, i: nat)
    requires DataCovers(indices, data, unit) && |buf| == slots * unit && i < |indices|
    requires Stitched(buf, slots, indices, data, unit, i, |indices[i]|)
    ensures Stitched(buf, slots, indices, data, unit, i + 1, 0)
  {
    hide Slot, Source;
    forall k, m | LastBefore(indices, k, m, i + 1, 0) && 0 <= indices[k][m] < slots
      ensures Slot(buf, slots, unit, indices[k][m]) == Source(indices, data, unit, k, m)
    {
      assert forall k', m' :: Place(indices, k', m') && Precedes(k', m', i, |indices[i]|) ==> Precedes(k', m', i + 1, 0);
      assert LastBefore(indices, k, m, i, |indices[i]|);
    }
  }

  // ----- the copy

  lemma SlotWritten<T>(before: seq<T>, after: seq<T>, slots: nat, unit: nat, v: nat)
    requires v < slots && |before| == |after| == slots * unit
    requires 0 <= v * unit && v * unit + unit <= |before|
    requires after[..v * unit] == before[..v * unit] && after[v * unit + unit..] == before[v * unit + unit..]
    ensures Slot(after, slots, unit, v) == after[v * unit..v * unit + unit]
    ensures forall s :: 0 <= s < slots && s != v ==> Slot(after, slots, unit, s) == Slot(before, slots, unit, s)
  {
    BlockStart(v, unit);
    forall s | 0 <= s < slots && s != v ensures Slot(after, slots, unit, s) == Slot(before, slots, unit, s) {
      OtherSlot(before, after, slots, unit, v, s);
    }
  }

  lemma OtherSlot<T>(before: seq<T>, after: seq<T>, slots: nat, unit: nat, v: nat, s: nat)
    requires v < slots && s < slots && s != v && |before| == |after| == slots * unit
    requires 0 <= v * unit && v * unit + unit <= |before|
    requires after[..v * unit] == before[..v * unit] && after[v * unit + unit..] == before[v * unit + unit..]
    ensures Slot(after, slots, unit, s) == Slot(before, slots, unit, s)
  {
    BlockEnd(s, slots, unit);
    BlockStart(s, unit);
    BlockStart(v, unit);
    var from, to := s * unit, s * unit + unit;
    if s < v {
      BlockEnd(s, v, unit);
      assert after[from..to] == after[..v * unit][from..to];
      assert before[from..to] == before[..v * unit][from..to];
    } else {
      BlockEnd(v, s, unit);
      var cut := v * unit + unit;
      assert after[from..to] == after[cut..][from - cut..to - cut];
      assert before[from..to] == before[cut..][from - cut..to - cut];
    }
  }

  // ----- the allowance

  lemma {:induction false} SlotSetSize(seen: set<int>, slots: nat)
    requires SlotSet(seen, slots)
    ensures |seen| <= slots
  {
    if slots == 0 {
      assert forall v :: v !in seen;
    } else {
      SlotSetSize(seen - {slots - 1}, slots - 1);
    }
  }

  predicate SlotSet(seen: set<int>, slots: nat) {
    forall v :: v in seen ==> 0 <= v < slots
  }

  /** One more slot: the allowance, topped up if the slot was seen, leaves room for a unit. */
  lemma AllowanceStep(seen: set<int>, slots: nat, v: int, unit: nat)
    requires SlotSet(seen, slots) && 0 <= v < slots && unit > 0
    ensures SlotSet(seen + {v}, slots)
    ensures var allowance := (slots - |seen|) * unit + if v in seen then unit else 0;
            0 < unit <= allowance && allowance - unit == (slots - |seen + {v}|) * unit
  {
    var all := seen + {v};
    SlotSetSize(all, slots);
    BlockStart(slots - |all|, unit);
    if v in seen {
      assert all == seen;
    }
  }

  /** None of the overflow tests inside the loop can fire once the output size fits. */
  lemma OffsetsFit(v: nat, slots: nat, unit: nat)
    requires v < slots <= MAX_INT32 && unit > 0 && FitsInt64(slots * unit)
    ensures 0 <= v * unit && v * unit + unit <= slots * unit
    ensures CheckInt64MulOverflow(v, unit) && FitsInt64(v + unit)
  {
    BlockEnd(v, slots, unit);
    BlockStart(v, unit);
    Int64Exact(v, unit);
    if v > 0 {
      MulMonotone(1, unit, v);
    }
  }

  predicate AnyIndex(indices: seq<seq<int>>) {
    exists i :: 0 <= i < |indices| && indices[i] != []
  }

  /** Every index has its slot. */
  ghost predicate Covers(slots: int, indices: seq<seq<int>>) {
    forall i, j :: Place(indices, i, j) ==> 0 <= indices[i][j] < slots
  }

  /**
   * The copy loop. The allowance starts at the whole output and is topped up for a repeated index,
   * so it always is one unit per slot not seen yet and never runs short: the loop fails only when a
   * single unit is above the copy limit.
   */
  method StitchDataFollowIndices<T>(unit: nat, indices: seq<seq<int>>, data: seq<seq<T>>, slots: nat, buf: array<T>)
      returns (ok: bool)
    requires DataCovers(indices, data, unit) && Covers(slots, indices) && slots <= MAX_INT32
    requires unit > 0 && FitsInt64(slots * unit) && buf.Length == slots * unit
    modifies buf
    ensures ok <==> unit <= SECUREC_MEM_MAX_LEN || !AnyIndex(indices)
    ensures ok ==> Stitched(buf[..], slots, indices, data, unit, |indices|, 0)
  {
    hide Slot, Source, LastBefore, Stitched, CheckInt64MulOverflow, Covers, DataCovers, Place, AnyIndex;
    var allowance := slots * unit;
    var seen: set<int> := {};
    NothingBefore(buf[..], slots, indices, data, unit);
    for i := 0 to |indices|
      invariant SlotSet(seen, slots) && allowance == (slots - |seen|) * unit
      invariant Stitched(buf[..], slots, indices, data, unit, i, 0)
      invariant AnyIndex(indices[..i]) ==> unit <= SECUREC_MEM_MAX_LEN
    {
      for j := 0 to |indices[i]|
        invariant SlotSet(seen, slots) && allowance == (slots - |seen|) * unit
        invariant Stitched(buf[..], slots, indices, data, unit, i, j)
        invariant AnyIndex(indices[..i]) || j > 0 ==> unit <= SECUREC_MEM_MAX_LEN
      {
        var v := indices[i][j];
        SlotOf(slots, indices, i, j);
        // The overflow tests of the original cannot fire.
        OffsetsFit(v, slots, unit);
        AllowanceStep(seen, slots, v, unit);
        if v in seen {
          allowance := allowance + unit;
        }
        seen := seen + {v};
        var bound := if allowance < SECUREC_MEM_MAX_LEN then allowance else SECUREC_MEM_MAX_LEN;
        var copied := CopyUnit(unit, indices, data, slots, buf, i, j, bound);
        if !copied {
          return false;
        }
        allowance := allowance - unit;
      }
      NextAny(indices, i);
      NextTensor(buf[..], slots, indices, data, unit, i);
    }
    assert indices[..|indices|] == indices;
    ok := true;
  }

  /** One copy of the loop: the unit at place (`i`, `j`) goes to the slot the place names. */
  method CopyUnit<T>(unit: nat, indices: seq<seq<int>>, data: seq<seq<T>>, slots: nat, buf: array<T>, i: nat, j: nat, bound: int)
      returns (ok: bool)
    requires Place(indices, i, j) && 0 <= indices[i][j] < slots && DataCovers(indices, data, unit)
    requires 0 < bound <= SECUREC_MEM_MAX_LEN && buf.Length == slots * unit
    requires Stitched(buf[..], slots, indices, data, unit, i, j)
    modifies buf
    ensures ok <==> unit <= bound
    ensures ok ==> Stitched(buf[..], slots, indices, data, unit, i, j + 1)
  {
    hide Slot, Source, LastBefore, Stitched;
    var v := indices[i][j];
    BlockEnd(j, |indices[i]|, unit);
    BlockStart(j, unit);
    BlockEnd(v, slots, unit);
    BlockStart(v, unit);
    ghost var before := buf[..];
    ok := BoundedCopy(buf, v * unit, bound, data[i], j * unit, unit, 1);
    if ok {
      SlotWritten(before, buf[..], slots, unit, v);
      SourceIs(indices, data, unit, i, j);
      StitchOne(before, buf[..], slots, indices, data, unit, i, j);
    }
  }

  lemma NothingBefore<T>(buf: seq<T>, slots: nat, indices: seq<seq<int>>, data: seq<seq<T>>, unit: nat)
    requires DataCovers(indices, data, unit) && |buf| == slots * unit
    ensures Stitched(buf, slots, indices, data, unit, 0, 0) && !AnyIndex(indices[..0])
  {}

  lemma NextAny(indices: seq<seq<int>>, i: nat)
    requires i < |indices|
    ensures AnyIndex(indices[..i + 1]) <==> AnyIndex(indices[..i]) || indices[i] != []
  {
    var next := indices[..i + 1];
    assert next[i] == indices[i];
    if AnyIndex(indices[..i]) {
      var k :| 0 <= k < i && indices[..i][k] != [];
      assert next[k] != [];
    }
    if AnyIndex(next) && indices[i] == [] {
      var k :| 0 <= k < |next| && next[k] != [];
      assert indices[..i][k] != [];
    }
  }

  lemma SlotOf(slots: nat, indices: seq<seq<int>>, i: nat, j: nat)
    requires Covers(slots, indices) && i < |indices| && j < |indices[i]|
    ensures Place(indices, i, j) && 0 <= indices[i][j] < slots && AnyIndex(indices)
  {
    assert Place(indices, i, j);
  }

  /** The slot count covers the real indices whatever the stray elements are. */
  lemma CountCovers(slots: int, indices: seq<seq<int>>, stray: seq<int>)
    requires |stray| == |indices| && GoodIndices(indices) && IsSlotCount(slots, Padded(indices, stray))
    ensures Covers(slots, indices)
  {
    forall i, j | Place(indices, i, j) ensures 0 <= indices[i][j] < slots {
      assert Place(Padded(indices, stray), i, j);
    }
  }

  lemma SourceIs<T>(indices: seq<seq<int>>, data: seq<seq<T>>, unit: nat, i: int, j: int)
    requires Place(indices, i, j) && DataCovers(indices, data, unit)
    requires 0 <= j * unit && j * unit + unit <= |data[i]|
    ensures Source(indices, data, unit, i, j) == data[i][j * unit..j * unit + unit]
  {
    BlockStart(j, unit);
  }

  // ----- the kernel

  datatype Output<+T> = Output(shape: seq<int>, bytes: seq<T>)

  /** Byte `b` of slot `v` is byte `b` of unit `j` of data tensor `i`. */
  predicate SlotByte<T(==)>(bytes: seq<T>, data: seq<seq<T>>, unit: nat, v: int, i: int, j: int, b: int) {
    && 0 <= v * unit + b < |bytes| && 0 <= i < |data| && 0 <= j * unit + b < |data[i]|
    && bytes[v * unit + b] == data[i][j * unit + b]
  }

  lemma ByteOfSlot<T>(buf: seq<T>, slots: nat, indices: seq<seq<int>>, data: seq<seq<T>>, unit: nat, i: int, j: int, b: nat)
    requires DataCovers(indices, data, unit) && |buf| == slots * unit && Covers(slots, indices)
    requires Stitched(buf, slots, indices, data, unit, |indices|, 0) && LastWriter(indices, i, j) && b < unit
    ensures SlotByte(buf, data, unit, indices[i][j], i, j, b)
  {
    var v := indices[i][j];
    assert Slot(buf, slots, unit, v) == Source(indices, data, unit, i, j);
    BlockEnd(v, slots, unit);
    BlockStart(v, unit);
    BlockEnd(j, |indices[i]|, unit);
    BlockStart(j, unit);
    assert Slot(buf, slots, unit, v)[b] == Source(indices, data, unit, i, j)[b];
  }

  /** Being the last writer, without any ordering of places: every other place with that index comes earlier. */
  lemma LastWriterExact(indices: seq<seq<int>>, i: int, j: int)
    ensures LastWriter(indices, i, j) <==>
              && 0 <= i < |indices| && 0 <= j < |indices[i]|
              && forall k, m :: 0 <= k < |indices| && 0 <= m < |indices[k]| && indices[k][m] == indices[i][j] ==>
                                  k < i || (k == i && m <= j)
  {
    if Place(indices, i, j) && forall k, m :: 0 <= k < |indices| && 0 <= m < |indices[k]| && indices[k][m] == indices[i][j] ==>
                                                k < i || (k == i && m <= j) {
      assert LastBefore(indices, i, j, |indices|, 0);
    }
    if LastWriter(indices, i, j) {
      forall k, m | 0 <= k < |indices| && 0 <= m < |indices[k]| && indices[k][m] == indices[i][j]
        ensures k < i || (k == i && m <= j)
      {
        assert Place(indices, k, m);
        assert !(Precedes(i, j, k, m) && Precedes(k, m, |indices|, 0));
      }
    }
  }

  /** Bytes of one slot: the step times the element size, or one element when there is no step. */
  function Unit(step: nat, size: nat): nat {
    if step > 0 then step * size else size
  }

  /**
   * The kernel succeeds exactly when the output size and the unit size fit their limits, and then
   * every slot that is named holds the data of the last place that names it. A slot that is not
   * named keeps what the fresh buffer held. Index tensors without elements contribute nothing but the
   * stray element that may raise the number of slots.
   */
  method GenData<T>(indices: seq<seq<int>>, stray: seq<int>, data: seq<seq<T>>, step: nat, size: nat, fill: T)
      returns (slots: nat, r: Option<Output<T>>)
    requires GoodIndices(indices) && |stray| == |indices| && BelowMax(Padded(indices, stray))
    requires size > 0 && DataCovers(indices, data, Unit(step, size))
    ensures IsSlotCount(slots, Padded(indices, stray))
    ensures r.Some? <==> && FitsInt64(slots * Unit(step, size))
                         && (Unit(step, size) <= SECUREC_MEM_MAX_LEN || !AnyIndex(indices))
    ensures r.Some? ==> && r.value.shape == (if step > 0 then [slots, step] else [slots])
                        && |r.value.bytes| == slots * Unit(step, size)
    ensures r.Some? ==> forall i, j, b :: LastWriter(indices, i, j) && 0 <= b < Unit(step, size) ==>
              SlotByte(r.value.bytes, data, Unit(step, size), indices[i][j], i, j, b)
  {
    hide CheckInt64MulOverflow, Slot, Source, GoodIndices, DataCovers, BelowMax, Padded, AnyIndex;
    var first := ComputeMergedFirstDim(Padded(indices, stray));
    slots := first;
    CountCovers(first, indices, stray);
    hide IsSlotCount;
    var shape := if step > 0 then [first, step] else [first];
    var outputSize := if step > 0 then first * step else first;
    SizeGuards(first, step, size);
    if !CheckInt64MulOverflow(outputSize, size) || !CheckInt64MulOverflow(step, size) {
      return slots, None;
    }
    var unit := Unit(step, size);
    var buf := new T[outputSize * size](_ => fill);
    var ok := StitchDataFollowIndices(unit, indices, data, first, buf);
    if !ok {
      return slots, None;
    }
    r := Some(Output(shape, buf[..]));
    forall i, j, b | LastWriter(indices, i, j) && 0 <= b < unit
      ensures SlotByte(buf[..], data, unit, indices[i][j], i, j, b)
    {
      ByteOfSlot(buf[..], first, indices, data, unit, i, j, b);
    }
  }

  /** Both overflow tests together say that all slots together fit. */
  lemma SizeGuards(slots: int, step: nat, size: nat)
    requires 1 <= slots <= MAX_INT32 && size > 0
    ensures var n := if step > 0 then slots * step else slots;
            && n * size == slots * Unit(step, size) && n >= 0 && Unit(step, size) > 0
            && (CheckInt64MulOverflow(n, size) && CheckInt64MulOverflow(step, size) <==> FitsInt64(slots * Unit(step, size)))
  {
    var n := if step > 0 then slots * step else slots;
    Int64Exact(n, size);
    Int64Exact(step, size);
    MulAssoc(slots, step, size);
    if step > 0 {
      MulMonotone(1, slots, step * size);
      MulMonotone(1, step, size);
      MulMonotone(1, slots, step);
    }
  }
}
