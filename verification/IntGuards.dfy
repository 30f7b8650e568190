/**
 * Integer guards: the multiplication overflow tests of ge/common/util.cc and
 * ge/common/math/math_util.h, and the two floor divisions of the constant-folding kernels.
 */
module IntGuards {
  import opened Powers

  const MAX_INT64: int := 0x7FFF_FFFF_FFFF_FFFF
  const MIN_INT64: int := -0x8000_0000_0000_0000
  const MAX_INT32: int := 0x7FFF_FFFF
  const MIN_INT32: int := -0x8000_0000

  predicate FitsInt64(x: int) {
    MIN_INT64 <= x <= MAX_INT64
  }

  predicate FitsInt32(x: int) {
    MIN_INT32 <= x <= MAX_INT32
  }

  function Abs(x: int): nat {
    if x < 0 then -x else x
  }

  /** Division that rounds toward zero. */
  function TruncDiv(a: int, b: int): int
    requires b != 0
  {
    if (a < 0) == (b < 0) then Abs(a) / Abs(b) else -(Abs(a) / Abs(b))
  }

  /** The remainder is smaller than the divisor and has the sign of the dividend. */
  lemma TruncDivExact(a: int, b: int)
    requires b != 0
    ensures var r := a - TruncDiv(a, b) * b;
            Abs(r) < Abs(b) && (r != 0 ==> (r < 0 <==> a < 0))
  {
    var m, n := Abs(a), Abs(b);
    var q: int := m / n;
    var t := TruncDiv(a, b);
    assert t == if (a < 0) == (b < 0) then q else -q;
    QuotientBounds(m, n);
    RemainderBelow(q, m, n);
    hide TruncDiv;
    SignedProducts(q, b);
  }

  lemma RemainderBelow(q: int, m: int, n: int)
    requires q * n <= m < (q + 1) * n
    ensures 0 <= m - q * n < n
  {}

  lemma SignedProducts(q: int, b: int)
    ensures q * b == (if b < 0 then -(q * Abs(b)) else q * Abs(b)) && (-q) * b == -(q * b)
  {}

  // ----- multiplication overflow

  /** The nested comparisons of the source, for a type with values `-max - 1` to `max`. */
  predicate MulFits(a: int, b: int, max: int)
    requires max >= 0
  {
    if a > 0 then
      if b > 0 then a <= TruncDiv(max, b) else b >= TruncDiv(-max - 1, a)
    else
      if b > 0 then a >= TruncDiv(-max - 1, b) else a == 0 || b >= TruncDiv(max, a)
  }

  predicate CheckInt64MulOverflow(a: int, b: int) {
    MulFits(a, b, 0x7FFF_FFFF_FFFF_FFFF)
  }

  predicate CheckInt32MulOverflow(a: int, b: int) {
    MulFits(a, b, 0x7FFF_FFFF)
  }

  /** For positive `b`, `a <= m / b` is `a * b <= m`. */
  lemma QuotientBound(a: nat, m: nat, b: nat)
    requires b > 0
    ensures a <= m / b <==> a * b <= m
  {
    var q := m / b;
    assert m == q * b + m % b;
    assert (q + 1) * b == q * b + b;
    if a <= q {
      MulMonotone(a, q, b);
    } else {
      MulMonotone(q + 1, a, b);
    }
  }

  /** The test accepts exactly the products that fit the type. */
  lemma MulFitsExact(a: int, b: int, max: int)
    requires max >= 0
    ensures MulFits(a, b, max) <==> -max - 1 <= a * b <= max
  {
    if a > 0 && b > 0 {
      QuotientBound(a, max, b);
      MulMonotone(0, a, b);
    } else if a > 0 {
      QuotientBound(-b, max + 1, a);
      assert a * b == -((-b) * a);
      MulMonotone(0, -b, a);
    } else if b > 0 {
      QuotientBound(-a, max + 1, b);
      assert a * b == -((-a) * b);
      MulMonotone(0, -a, b);
    } else if a != 0 {
      QuotientBound(-b, max, -a);
      assert a * b == (-b) * (-a);
      MulMonotone(0, -b, -a);
    }
  }

  lemma Int64Exact(a: int, b: int)
    ensures CheckInt64MulOverflow(a, b) <==> FitsInt64(a * b)
  {
    MulFitsExact(a, b, 0x7FFF_FFFF_FFFF_FFFF);
  }

  lemma Int32Exact(a: int, b: int)
    ensures CheckInt32MulOverflow(a, b) <==> FitsInt32(a * b)
  {
    MulFitsExact(a, b, 0x7FFF_FFFF);
  }

  // ----- floor division

  /** `q` is the floor of `x / y`. */
  predicate IsFloor(q: int, x: int, y: int) {
    if y > 0 then q * y <= x < (q + 1) * y else q * y >= x > (q + 1) * y
  }

  /** Reading the low `bits` bits as a two's complement number. */
  function Wrap(x: int, bits: nat): int {
    var m: int := Pow2(bits);
    if 2 * (x % m) >= m then x % m - m else x % m
  }

  predicate FitsSigned(x: int, bits: nat) {
    var m: int := Pow2(bits);
    -m <= 2 * x < m
  }

  lemma WrapFits(x: int, bits: nat)
    requires bits > 0
    ensures FitsSigned(Wrap(x, bits), bits)
    ensures FitsSigned(x, bits) ==> Wrap(x, bits) == x
  {
    Pow2Succ(bits - 1);
    hide Pow2;
    var m: int := Pow2(bits);
    if FitsSigned(x, bits) {
      if x >= 0 {
        DivModUnique(x, m, 0, x);
      } else {
        DivModUnique(x, m, -1, x + m);
      }
    }
  }

  /** Wrapping changes a number by a multiple of the modulus. */
  lemma WrapShift(x: int, bits: nat) returns (k: int)
    ensures Wrap(x, bits) == x + k * Pow2(bits)
  {
    var m: int := Pow2(bits);
    assert x == m * (x / m) + x % m;
    k := if 2 * (x % m) >= m then -(x / m) - 1 else -(x / m);
    assert k * m == if 2 * (x % m) >= m then -(m * (x / m)) - m else -(m * (x / m));
  }

  /** The operands are in range and so is their absolute value. */
  predicate Operand(x: int, bits: nat) {
    var m: int := Pow2(bits);
    -m < 2 * x < m
  }

  /** `DivCal` for a signed type of the given width; the quotient passes through int32. */
  function DivCal(x: int, y: int, bits: nat): int
    requires y != 0
  {
    if (x < 0) != (y < 0) then
      Wrap(Wrap(TruncDiv(-(Abs(x) + Abs(y) - 1), Abs(y)), 32), bits)
    else
      Wrap(Wrap(TruncDiv(x, y), 32), bits)
  }

  /** Rounding the magnitude up and negating is the floor of a negative quotient. */
  lemma CeilingNegated(a: nat, b: nat)
    requires b > 0
    ensures var c := (a + b - 1) / b; (c - 1) * b < a <= c * b
  {
    var c := (a + b - 1) / b;
    assert a + b - 1 == c * b + (a + b - 1) % b;
    assert (c - 1) * b == c * b - b;
  }

  function FloorQuotient(x: int, y: int): int
    requires y != 0
  {
    if (x < 0) != (y < 0) then -((Abs(x) + Abs(y) - 1) / Abs(y)) else Abs(x) / Abs(y)
  }

  lemma FloorQuotientIsFloor(x: int, y: int)
    requires y != 0
    ensures IsFloor(FloorQuotient(x, y), x, y)
  {
    var a, b := Abs(x), Abs(y);
    var q := FloorQuotient(x, y);
    if (x < 0) != (y < 0) {
      CeilingNegated(a, b);
      SignedProducts(-q, b);
      SignedProducts(-q - 1, b);
    } else {
      QuotientBounds(a, b);
    }
    hide FloorQuotient;
    SignedProducts(q, y);
    SignedProducts(q + 1, y);
  }

  lemma QuotientBounds(a: nat, b: nat)
    requires b > 0
    ensures a / b * b <= a < (a / b + 1) * b
  {
    assert a == a / b * b + a % b;
    assert (a / b + 1) * b == a / b * b + b;
  }

  /**
   * `DivCal` is the mathematical floor exactly when that floor fits int32 and the element type. Only
   * for operands of different signs are absolute values and their sum formed; they are in range.
   */
  lemma DivCalExact(x: int, y: int, bits: nat)
    requires bits > 0 && y != 0 && FitsSigned(x, bits) && FitsSigned(y, bits)
    requires (x < 0) != (y < 0) ==> Operand(x, bits) && Operand(y, bits)
                                    && Operand(Abs(x) + Abs(y) - 1, if bits < 32 then 32 else bits)
    ensures IsFloor(FloorQuotient(x, y), x, y)
    ensures DivCal(x, y, bits) == FloorQuotient(x, y)
       <==> FitsSigned(FloorQuotient(x, y), 32) && FitsSigned(FloorQuotient(x, y), bits)
  {
    hide Pow2, Wrap, FitsSigned, IsFloor;
    var q := FloorQuotient(x, y);
    FloorQuotientIsFloor(x, y);
    assert DivCal(x, y, bits) == Wrap(Wrap(q, 32), bits) by {
      assert Abs(-(Abs(x) + Abs(y) - 1)) == Abs(x) + Abs(y) - 1;
    }
    WrapFits(q, 32);
    WrapFits(q, bits);
    WrapFits(Wrap(q, 32), bits);
    if Wrap(Wrap(q, 32), bits) == q {
      NarrowerFits(Wrap(q, 32), 32, bits);
    }
  }

  /** A number of one width wrapped to another fits both. */
  lemma NarrowerFits(w: int, from: nat, to: nat)
    requires from > 0 && to > 0 && FitsSigned(w, from)
    ensures FitsSigned(Wrap(w, to), from)
  {
    WrapFits(w, to);
    if from <= to {
      Pow2Monotone(from, to);
    } else {
      Pow2Monotone(to, from);
    }
  }

  // ----- floor division and remainder of the FloorMod kernel

  function FloorModDiv(x: int, y: int): int
    requires y != 0
  {
    if (x < 0) != (y < 0) then TruncDiv(1 - Abs(x), Abs(y)) - 1 else TruncDiv(x, y)
  }

  /** The second formula is the floor except for zero divided by anything below -1. */
  lemma FloorModDivExact(x: int, y: int)
    requires y != 0
    ensures IsFloor(FloorModDiv(x, y), x, y) <==> !(x == 0 && y < -1)
    ensures !(x == 0 && y < -1) ==> FloorModDiv(x, y) == FloorQuotient(x, y)
    ensures x == 0 && y < -1 ==> FloorModDiv(x, y) == -1
  {
    FloorQuotientIsFloor(x, y);
    if x == 0 && y < 0 {
      SmallQuotients(Abs(y));
      assert !IsFloor(-1, 0, y);
    } else {
      hide IsFloor;
      FormsAgree(x, y);
    }
  }

  lemma FormsAgree(x: int, y: int)
    requires y != 0 && !(x == 0 && y < 0)
    ensures FloorModDiv(x, y) == FloorQuotient(x, y)
  {
    if (x < 0) != (y < 0) {
      NextQuotient(Abs(x), Abs(y));
    }
  }

  lemma NextQuotient(a: nat, b: nat)
    requires a > 0 && b > 0
    ensures (a + b - 1) / b == (a - 1) / b + 1
  {
    var q, r := (a - 1) / b, (a - 1) % b;
    assert a - 1 == q * b + r;
    assert (q + 1) * b == q * b + b;
    DivModUnique(a + b - 1, b, q + 1, r);
  }

  lemma SmallQuotients(b: nat)
    requires b > 0
    ensures 1 / b == if b == 1 then 1 else 0
    ensures 0 / b == 0 && (b - 1) / b == 0
  {
    DivModUnique(b - 1, b, 0, b - 1);
    DivModUnique(0, b, 0, 0);
    if b > 1 { DivModUnique(1, b, 0, 1); }
  }

  /** The same formula in int32 arithmetic, where every step wraps around. */
  function FloorModDiv32(x: int, y: int): int
    requires y != 0 && FitsInt32(y)
  {
    if (x < 0) != (y < 0) then
      AbsWraps(y);
      Wrap(TruncDiv(Wrap(1 - Wrap(Abs(x), 32), 32), Wrap(Abs(y), 32)) - 1, 32)
    else Wrap(TruncDiv(x, y), 32)
  }

  /** The absolute value of the smallest int32 is the smallest int32. */
  lemma AbsWraps(x: int)
    requires FitsInt32(x)
    ensures Wrap(Abs(x), 32) == if x == MIN_INT32 then x else Abs(x)
  {
    PowersOfTwo();
  }

  /** Wrapping on the way does not matter, not even for the smallest int32 as an operand. */
  lemma WrappedSteps(x: int, y: int)
    requires y != 0 && FitsInt32(x) && FitsInt32(y)
    ensures FloorModDiv32(x, y) == Wrap(FloorModDiv(x, y), 32)
  {
    hide Wrap, Pow2, TruncDiv;
    if (x < 0) != (y < 0) {
      AbsWraps(y);
      OneMinusAbs(x);
      if y == MIN_INT32 {
        BelowDivisor(1 - x);
      }
    }
  }

  lemma OneMinusAbs(x: int)
    requires FitsInt32(x)
    ensures Wrap(1 - Wrap(Abs(x), 32), 32) == 1 - Abs(x)
  {
    AbsWraps(x);
    PowersOfTwo();
  }

  lemma BelowDivisor(a: int)
    requires Abs(a) < 0x8000_0000
    ensures TruncDiv(a, MIN_INT32) == TruncDiv(a, 0x8000_0000) == 0
  {}

  /** `a - b * FloorDiv(a, b)` in int32 arithmetic. */
  function FloorMod(a: int, b: int): int
    requires b != 0 && FitsInt32(b)
  {
    Wrap(a - Wrap(b * FloorModDiv32(a, b), 32), 32)
  }

  /** `r` is the remainder with the sign of the divisor. */
  predicate IsFloorRemainder(r: int, a: int, b: int)
    requires b != 0
  {
    r == a - FloorQuotient(a, b) * b && (if b > 0 then 0 <= r < b else b < r <= 0)
  }

  /**
   * For all int32 operands the remainder is right except for zero modulo a divisor below -1, which
   * gives the divisor itself. The quotient and the product may overflow on the way.
   */
  lemma FloorModExact(a: int, b: int)
    requires b != 0 && FitsInt32(a) && FitsInt32(b)
    ensures IsFloorRemainder(FloorMod(a, b), a, b) <==> !(a == 0 && b < -1)
    ensures a == 0 && b < -1 ==> FloorMod(a, b) == b
  {
    hide Pow2, Wrap, FloorModDiv, FloorModDiv32, FloorQuotient, IsFloor, FitsSigned;
    var q := FloorModDiv(a, b);
    FloorModDivExact(a, b);
    FitsWord(b);
    WrappedSteps(a, b);
    WrappedFactor(a, b, q);
    if a == 0 && b < -1 {
      assert b * q == -b;
      WrapFits(b, 32);
    } else {
      FloorQuotientIsFloor(a, b);
      RemainderRange(a, b, q);
      RemainderFits(a - b * q, b);
      WrapFits(a - b * q, 32);
    }
  }

  lemma FitsWord(b: int)
    ensures FitsInt32(b) <==> FitsSigned(b, 32)
  {
    PowersOfTwo();
  }

  lemma RemainderRange(a: int, b: int, q: int)
    requires b != 0 && IsFloor(q, a, b)
    ensures var r := a - b * q; if b > 0 then 0 <= r < b else b < r <= 0
  {
    assert (q + 1) * b == q * b + b;
  }

  lemma RemainderFits(r: int, b: int)
    requires FitsSigned(b, 32) && (if b > 0 then 0 <= r < b else b < r <= 0)
    ensures FitsSigned(r, 32)
  {}

  /** Wrapping the factor and the product before subtracting does not change the wrapped difference. */
  lemma WrappedFactor(a: int, b: int, q: int)
    ensures Wrap(a - Wrap(b * Wrap(q, 32), 32), 32) == Wrap(a - b * q, 32)
  {
    hide Pow2, Wrap;
    var m := Pow2(32);
    var k := WrapShift(q, 32);
    var p := b * Wrap(q, 32);
    var j := WrapShift(p, 32);
    assert p == b * q + (b * k) * m by { Spread(b, q, k, m); }
    assert a - Wrap(p, 32) == a - b * q - (b * k + j) * m by { Spread(1, 0, b * k + j, m); Joined(b * k, j, m); }
    SameWrap(a - b * q, b * k + j);
  }

  lemma Spread(b: int, q: int, k: int, m: int)
    ensures b * (q + k * m) == b * q + (b * k) * m
  {}

  lemma Joined(x: int, y: int, m: int)
    ensures (x + y) * m == x * m + y * m
  {}

  lemma SameWrap(x: int, k: int)
    ensures Wrap(x - k * Pow2(32), 32) == Wrap(x, 32)
  {
    assert Pow2(32) > 0;
    hide Pow2;
    SameRemainder(x, k, Pow2(32));
  }

  lemma SameRemainder(x: int, k: int, m: int)
    requires m > 0
    ensures (x - k * m) % m == x % m
  {
    assert x == m * (x / m) + x % m;
    assert (x / m - k) * m == m * (x / m) - k * m;
    DivModUnique(x - k * m, m, x / m - k, x % m);
  }
}
