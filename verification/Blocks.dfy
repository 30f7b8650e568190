/** Flat buffers seen as rows of equally long blocks, and the bounded copy of one block. */
module Blocks {
  import opened Powers

  /** The largest destination a bounded copy accepts. */
  const SECUREC_MEM_MAX_LEN: nat := 0x7FFF_FFFF

  /** Block `b` of a buffer cut into blocks of `size` elements. */
  function Block<T>(s: seq<T>, b: nat, size: nat): (r: seq<T>)
    requires (b + 1) * size <= |s|
    ensures |r| == size
  {
    BlockStart(b, size);
    s[b * size..(b + 1) * size]
  }

  lemma BlockStart(b: nat, size: nat)
    ensures 0 <= b * size && (b + 1) * size == b * size + size
  {}

  lemma BlockEnd(b: nat, count: nat, size: nat)
    requires b < count
    ensures (b + 1) * size <= count * size
  {
    MulMonotone(b + 1, count, size);
  }

  /** Copies `size` elements that fit both buffers, one by one. */
  method CopyBlock<T>(y: array<T>, dst: nat, x: seq<T>, src: nat, size: nat)
    requires dst + size <= y.Length && src + size <= |x|
    modifies y
    ensures y[dst..dst + size] == x[src..src + size]
    ensures y[..dst] == old(y[..dst]) && y[dst + size..] == old(y[dst + size..])
  {
    for i := 0 to size
      invariant y[dst..dst + i] == x[src..src + i]
      invariant y[..dst] == old(y[..dst]) && y[dst + i..] == old(y[dst + i..])
    {
      y[dst + i] := x[src + i];
      assert y[dst..dst + i + 1] == y[dst..dst + i] + [x[src + i]];
    }
  }

  /**
   * `memcpy_s` on elements of `width` bytes, with its bound in bytes: refuses a bound of zero or above
   * the maximum, and a count above the bound. That an accepted copy stays inside both buffers is for
   * the caller to establish.
   */
  method BoundedCopy<T>(y: array<T>, dst: nat, bound: int, x: seq<T>, src: nat, count: nat, width: nat) returns (ok: bool)
    requires 0 < bound <= SECUREC_MEM_MAX_LEN && count * width <= bound ==> dst + count <= y.Length && src + count <= |x|
    modifies y
    ensures ok <==> 0 < bound <= SECUREC_MEM_MAX_LEN && count * width <= bound
    ensures ok ==> y[dst..dst + count] == x[src..src + count]
    ensures ok ==> y[..dst] == old(y[..dst]) && y[dst + count..] == old(y[dst + count..])
    ensures ok ==> y[..dst + count] == old(y[..dst]) + x[src..src + count]
  {
    ok := 0 < bound <= SECUREC_MEM_MAX_LEN && count * width <= bound;
    if ok {
      CopyBlock(y, dst, x, src, count);
    }
  }

  /** The room behind `dst` in bytes is zero exactly at the end and never above the whole buffer. */
  lemma RoomInBytes(length: nat, dst: nat, count: nat, width: nat)
    requires dst <= length && width > 0
    ensures 0 <= (length - dst) * width <= length * width
    ensures (length - dst) * width > 0 <==> dst < length
    ensures count * width <= (length - dst) * width <==> dst + count <= length
  {
    var room := length - dst;
    MulMonotone(room, length, width);
    if room > 0 { MulStrict(0, room, width); }
    if count <= room { MulMonotone(count, room, width); } else { MulStrict(room, count, width); }
  }

  /** Blocks before the one that was written are as they were. */
  lemma EarlierBlock<T>(before: seq<T>, after: seq<T>, b: nat, k: nat, size: nat)
    requires b < k && |before| == |after| && k * size <= |before|
    requires after[..k * size] == before[..k * size]
    ensures (b + 1) * size <= |before|
    ensures Block(after, b, size) == Block(before, b, size)
  {
    BlockEnd(b, k, size);
    BlockStart(b, size);
    assert after[b * size..(b + 1) * size] == after[..k * size][b * size..(b + 1) * size];
    assert before[b * size..(b + 1) * size] == before[..k * size][b * size..(b + 1) * size];
  }
}
