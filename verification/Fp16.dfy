/** The half type itself: the struct of ge/common/fp16_t.h, its assignments and comparisons. */
module Fp16Number {
  import opened Powers
  import opened Half
  import opened HalfArithmetic
  import opened HalfRounding
  import opened HalfFloat
  import opened HalfInteger

  const MIN_INT32: int := -0x8000_0000
  const MAX_INT32: int := 0x7FFF_FFFF

  class Fp16 {
    var val: uint16

    constructor (v: uint16)
      ensures val == v
    {
      val := v;
    }

    method AssignDouble(bits: uint64)
      modifies this
      ensures Assigned(val, DoubleSign(bits), DOUBLE, DoubleFields(bits))
    {
      hide Pow2, Assigned, Packed, RoundEven, IsRoundOne, Numerator, Denominator;
      var s, w := DoubleSign(bits), DoubleFields(bits);
      var ed, md := w.exp, w.man;
      var e: nat, m: nat;
      FormatSizes();
      if ed >= 0x410 {
        e, m := MAX_EXP - 1, MAX_MAN;
        SaturatedBranch(s, DOUBLE, w);
      } else if ed <= 0x3F0 {
        e := 0;
        if ed >= 0x3E7 {
          md := 0x10_0000_0000_0000 + md;
          var tmp := md * Pow2(ed - 0x3E7);
          m := DropBits(tmp, 52);
          SubnormalBranch(s, DOUBLE, w, tmp);
        } else {
          if ed == 0x3E6 && md > 0 {
            m := 1;
          } else {
            m := 0;
          }
          TinyBranch(s, DOUBLE, w);
        }
      } else {
        e := ed - 0x3F0;
        m := DropBits(md, 42);
        NormalBranch(s, DOUBLE, w);
        if m / HIDE_BIT % 2 == 1 {
          e := e + 1;
        }
      }
      val := Packed(s, e, m);
    }

    method AssignFloat(bits: uint32)
      modifies this
      ensures Assigned(val, FloatSign(bits), FLOAT, FloatFields(bits))
    {
      hide Pow2, Assigned, Packed, RoundEven, IsRoundOne, Numerator, Denominator;
      var s, w := FloatSign(bits), FloatFields(bits);
      var ef, mf := w.exp, w.man;
      var e: nat, m: nat;
      FormatSizes();
      if ef > 0x8F {
        e, m := MAX_EXP - 1, MAX_MAN;
        SaturatedBranch(s, FLOAT, w);
      } else if ef <= 0x70 {
        e := 0;
        if ef >= 0x67 {
          mf := 0x80_0000 + mf;
          var tmp := mf * Pow2(ef - 0x67);
          m := DropBits(tmp, 23);
          SubnormalBranch(s, FLOAT, w, tmp);
        } else {
          if ef == 0x66 && mf > 0 {
            m := 1;
          } else {
            m := 0;
          }
          TinyBranch(s, FLOAT, w);
        }
      } else {
        e := ef - 0x70;
        m := DropBits(mf, 13);
        NormalBranch(s, FLOAT, w);
        if m / HIDE_BIT % 2 == 1 {
          e := e + 1;
        }
      }
      val := Packed(s, e, m);
    }

    method AssignUInt32(u: uint32)
      modifies this
      ensures SignBit(val) == 0 && Nearest(Code(val), u * ONE, 1)
    {
      if u == 0 {
        ZeroIsNearest();
        val := 0;
      } else {
        val := SetValByWord(u, 0);
      }
    }

    /** The negation of the smallest int32 is taken to wrap around, as it does in two's complement. */
    method AssignInt32(i: int)
      requires MIN_INT32 <= i <= MAX_INT32
      modifies this
      ensures i != MIN_INT32 ==> IsInt32(val, i)
      ensures i == MIN_INT32 ==> val == 0xB800
    {
      hide Nearest, CodeValue;
      if i == 0 {
        ZeroIsNearest();
        val := 0;
      } else {
        Int32Words(i);
        var u: uint32 := i % WORD;
        var s := u / TOP_BIT;
        if s == 1 {
          u := (-i) % WORD;
        }
        val := SetValByWord(u % TOP_BIT, s);
      }
    }

    method AddAssign(v: uint16)
      modifies this
      ensures Rounded(val, SumSign(old(val), v), Abs(Value(old(val)) + Value(v)), 1)
    {
      val := Fp16Add(val, v);
    }

    method MulAssign(v: uint16)
      modifies this
      ensures Rounded(val, (SignBit(old(val)) + SignBit(v)) % 2, Abs(Value(old(val)) * Value(v)), PRODUCT_SCALE)
    {
      val := Fp16Mul(val, v);
    }
  }

  lemma ZeroIsNearest()
    ensures Nearest(0, 0, 1)
  {
    NearestExact(0, 0, 1);
  }

  // ----- integers

  lemma Int32Words(i: int)
    requires MIN_INT32 <= i <= MAX_INT32 && i != 0
    ensures i % WORD / TOP_BIT == if i < 0 then 1 else 0
    ensures i > 0 ==> i % WORD % TOP_BIT == i
    ensures i < 0 ==> (-i) % WORD % TOP_BIT == if i == MIN_INT32 then 0 else -i
  {}

  /** The half with the sign of `i` that is nearest to `i`. */
  ghost predicate IsInt32(h: uint16, i: int) {
    SignBit(h) == (if i < 0 then 1 else 0) && Nearest(Code(h), Abs(i) * ONE, 1)
  }

  /** What assignment makes of the smallest int32 is not the nearest half: it is -0.5. */
  lemma SmallestInt32IsLost()
    ensures Value(0xB800) == -0x80_0000
    ensures !IsInt32(0xB800, MIN_INT32)
  {
    assert CodeValue(0x3800) == 0x80_0000 by { CodeOfMantissa(14, 1024); assert Pow2(13) == 0x2000 by { FormatSizes(); } }
    TopCodes();
    assert Distance(0x7BFF, 0x8000_0000 * ONE, 1) < Distance(0x3800, 0x8000_0000 * ONE, 1);
  }

  /** Integer assignment is monotone over the whole range of magnitudes, saturation included. */
  lemma IntegerMonotone(a: nat, h: uint16, b: nat, h': uint16)
    requires a <= b && Nearest(Code(h), a * ONE, 1) && Nearest(Code(h'), b * ONE, 1)
    ensures Code(h) <= Code(h')
  {
    hide Nearest, CodeValue;
    NearestMonotone(Code(h), a * ONE, 1, Code(h'), b * ONE, 1);
  }

  ghost predicate Representable(n: nat) {
    exists c: nat :: c < FIRST_INVALID && CodeValue(c) == n
  }

  /** Every `k * 2^(e - 1)` with at most eleven significant bits has a code. */
  lemma {:induction false} CodeFor(k: nat, e: nat) returns (c: nat)
    requires k <= 2048 && 1 <= e
    ensures CodeValue(c) == k * Pow2(e - 1)
    decreases e
  {
    if e == 1 || HIDE_BIT <= k {
      CodeOfMantissa(e, k);
      c := (e - 1) * 0x400 + k;
    } else {
      c := CodeFor(2 * k, e - 1);
      Pow2Succ(e - 2);
      assert (2 * k) * Pow2(e - 2) == k * Pow2(e - 1);
    }
  }

  lemma BelowFirstInvalid(c: nat, n: nat)
    requires CodeValue(c) == n < CodeValue(FIRST_INVALID)
    ensures c < FIRST_INVALID
  {
    hide CodeValue;
    if FIRST_INVALID <= c { CodeMonotone(FIRST_INVALID, c); }
  }

  lemma SmallIntegersRepresentable(k: nat)
    requires k <= 2048
    ensures Representable(k * ONE)
  {
    hide CodeValue, Pow2;
    var c := CodeFor(k, 25);
    PowersOfTwo();
    TopCodes();
    BelowFirstInvalid(c, k * ONE);
  }

  /**
   * Integer to half and back gives the integer exactly when it is representable, which holds up to
   * 2048 in magnitude.
   */
  lemma IntegerRoundTrip(i: int, h: uint16)
    requires IsInt32(h, i)
    ensures RoundedValue(h) == i <==> Representable(Abs(i) * ONE)
    ensures Abs(i) <= 2048 ==> RoundedValue(h) == i
  {
    hide CodeValue, Nearest, Code, SignBit, Representable;
    var k, c := Abs(i), Code(h);
    if k <= 2048 { SmallIntegersRepresentable(k); }
    if Representable(k * ONE) {
      NearestToRepresentable(k * ONE, c);
      ExactRounds(k);
    } else {
      LargeHalvesAreIntegers(k, c);
      FiniteCode(c, k * ONE);
    }
  }

  lemma NearestToRepresentable(n: nat, c: nat)
    requires Representable(n) && Nearest(c, n, 1)
    ensures CodeValue(c) == n
  {
    hide CodeValue, Nearest;
    var c': nat :| c' < FIRST_INVALID && CodeValue(c') == n;
    NearestExact(c', n, 1);
    NearestUnique(c, c', n, 1);
  }

  lemma ExactRounds(k: nat)
    ensures RoundEven(k * ONE, ONE) == k
  {
    DivModUnique(k * ONE, ONE, k, 0);
  }

  lemma FiniteCode(c: nat, n: nat)
    requires Nearest(c, n, 1)
    ensures c < FIRST_INVALID && (CodeValue(c) == n ==> Representable(n))
  {}

  /** The half nearest to an integer above 2048 is itself an integer. */
  lemma LargeHalvesAreIntegers(k: nat, c: nat)
    requires k > 2048 && Nearest(c, k * ONE, 1)
    ensures RoundEven(CodeValue(c), ONE) * ONE == CodeValue(c)
  {
    hide Nearest, CodeValue, Pow2, RoundEven;
    PowersOfTwo();
    Pow2Succ(24);
    CodeOfMantissa(26, 1024);
    NearestExact(0x6800, 2048 * ONE, 1);
    NearestMonotone(0x6800, 2048 * ONE, 1, c, k * ONE, 1);
    var e, m := c / 0x400, 0x400 + c % 0x400;
    CodeOfMantissa(e, m);
    Pow2Sum(e - 25, 24);
    MulAssoc(m, Pow2(e - 25), ONE);
    ExactRounds(m * Pow2(e - 25));
  }

  // ----- comparison

  predicate IsZero(h: uint16) {
    h % 0x8000 == 0
  }

  predicate Equal(a: uint16, b: uint16) {
    (IsZero(a) && IsZero(b)) || a == b
  }

  predicate Greater(a: uint16, b: uint16) {
    var (sa, ea, ma) := (SignBit(a), ExpField(a), ManField(a));
    var (sb, eb, mb) := (SignBit(b), ExpField(b), ManField(b));
    if sa == 0 && sb > 0 then !(IsZero(a) && IsZero(b))
    else if sa == 0 && sb == 0 then ea > eb || (ea == eb && ma > mb)
    else if sa > 0 && sb > 0 then ea < eb || (ea == eb && ma < mb)
    else false
  }

  predicate GreaterEqual(a: uint16, b: uint16) {
    Greater(a, b) || Equal(a, b)
  }

  predicate Less(a: uint16, b: uint16) {
    !GreaterEqual(a, b)
  }

  predicate LessEqual(a: uint16, b: uint16) {
    !Greater(a, b)
  }

  /** The field-by-field comparisons order all patterns by their exact values, both zeros equal. */
  lemma ComparisonIsValueOrder(a: uint16, b: uint16)
    ensures Greater(a, b) <==> Value(a) > Value(b)
    ensures Equal(a, b) <==> Value(a) == Value(b)
    ensures Less(a, b) <==> Value(a) < Value(b)
    ensures LessEqual(a, b) <==> Value(a) <= Value(b)
  {
    CodeOrder(a, b);
    CodeOrder(b, a);
    ZeroCode(a);
    ZeroCode(b);
    hide CodeValue, ExpField, ManField;
  }

  lemma CodeOrder(a: uint16, b: uint16)
    ensures CodeValue(Code(a)) < CodeValue(Code(b)) <==> Code(a) < Code(b)
    ensures Code(a) < Code(b) <==> ExpField(a) < ExpField(b) || (ExpField(a) == ExpField(b) && ManField(a) < ManField(b))
  {
    FieldOrder(a, b);
    hide CodeValue, Code, ExpField, ManField;
    if Code(a) < Code(b) {
      CodeMonotone(Code(a), Code(b));
    } else {
      CodeMonotone(Code(b), Code(a));
    }
  }

  lemma FieldOrder(a: uint16, b: uint16)
    ensures Code(a) < Code(b) <==> ExpField(a) < ExpField(b) || (ExpField(a) == ExpField(b) && ManField(a) < ManField(b))
  {
    assert Code(a) == ExpField(a) * 0x400 + a % 0x400;
    assert Code(b) == ExpField(b) * 0x400 + b % 0x400;
    hide Code, ExpField;
  }

  lemma ZeroCode(a: uint16)
    ensures CodeValue(Code(a)) == 0 <==> IsZero(a)
  {
    hide CodeValue;
    CodeOfMantissa(1, 0);
    CodeMonotone(0, Code(a));
  }

  // ----- consequences of correct rounding

  /** The rounded pattern is determined by the exact value and sign. */
  lemma RoundedUnique(h: uint16, h': uint16, s: nat, n: nat, d: nat)
    requires d > 0 && Rounded(h, s, n, d) && Rounded(h', s, n, d)
    ensures h == h'
  {
    hide Nearest, CodeValue;
    if n < d * OVERFLOW { NearestUnique(Code(h), Code(h'), n, d); }
  }

  /** Addition is monotone in each argument, across signs, subnormals and overflow. */
  lemma AddMonotone(a: uint16, b: uint16, c: uint16, h: uint16, h': uint16)
    requires Value(a) <= Value(b)
    requires Rounded(h, SumSign(a, c), Abs(Value(a) + Value(c)), 1)
    requires Rounded(h', SumSign(b, c), Abs(Value(b) + Value(c)), 1)
    ensures Value(h) <= Value(h')
  {
    hide Nearest, CodeValue, Code, SignBit, Value;
    var x, x' := Value(a) + Value(c), Value(b) + Value(c);
    RoundedSign(h, SumSign(a, c), Abs(x));
    RoundedSign(h', SumSign(b, c), Abs(x'));
    if x' <= 0 {
      RoundedOrder(h', SumSign(b, c), Abs(x'), h, SumSign(a, c), Abs(x));
    } else if x >= 0 {
      RoundedOrder(h, SumSign(a, c), Abs(x), h', SumSign(b, c), Abs(x'));
    }
  }

  lemma RoundedSign(h: uint16, s: nat, n: nat)
    requires s < 2 && Rounded(h, s, n, 1)
    ensures Value(h) == Signed(s == 1, CodeValue(Code(h)))
    ensures n == 0 ==> CodeValue(Code(h)) == 0
  {
    hide Nearest, CodeValue;
    if n == 0 {
      CodeOfMantissa(1, 0);
      NearestExact(0, 0, 1);
      NearestUnique(0, Code(h), 0, 1);
    }
  }

  lemma RoundedOrder(h: uint16, s: nat, n: nat, h': uint16, s': nat, n': nat)
    requires n <= n' && Rounded(h, s, n, 1) && Rounded(h', s', n', 1)
    ensures CodeValue(Code(h)) <= CodeValue(Code(h'))
  {
    hide CodeValue;
    if n' < OVERFLOW {
      NearestMonotone(Code(h), n, 1, Code(h'), n', 1);
    }
    CodeMonotone(Code(h), Code(h'));
  }

  /**
   * Sterbenz: when two finite halves of the same sign are within a factor of two, their
   * difference is a half, so the subtraction is exact.
   */
  lemma SubtractionExact(v1: uint16, v2: uint16, h: uint16)
    requires SignBit(v1) == SignBit(v2) && Code(v1) < FIRST_INVALID
    requires CodeValue(Code(v2)) <= CodeValue(Code(v1)) <= 2 * CodeValue(Code(v2))
    requires var exact := Value(v1) - Value(v2);
             Rounded(h, if exact < 0 || (exact == 0 && SignBit(v1) == 1 && SignBit(v2) == 0) then 1 else 0, Abs(exact), 1)
    ensures Value(h) == Value(v1) - Value(v2)
  {
    hide CodeValue, Nearest, Code, SignBit, Representable;
    var n := CodeValue(Code(v1)) - CodeValue(Code(v2));
    DifferenceRepresentable(v1, v2);
    TopCodes();
    CodeMonotone(Code(v1), 0x7BFF);
    NearestToRepresentable(n, Code(h));
    RoundedSign(h, SignBit(h), n);
  }

  lemma DifferenceRepresentable(v1: uint16, v2: uint16)
    requires Code(v1) < FIRST_INVALID
    requires CodeValue(Code(v2)) <= CodeValue(Code(v1)) <= 2 * CodeValue(Code(v2))
    ensures Representable(CodeValue(Code(v1)) - CodeValue(Code(v2)))
  {
    hide CodeValue, Pow2, ManField, EffectiveExp;
    FieldsOfCode(v1);
    FieldsOfCode(v2);
    var e1, m1, e2, m2 := EffectiveExp(v1), ManField(v1), EffectiveExp(v2), ManField(v2);
    ExponentOrder(v1, v2);
    var u := Pow2(e2 - 1);
    Pow2Sum(e1 - e2, e2 - 1);
    var k := m1 * Pow2(e1 - e2) - m2;
    CommonUnit(m1, Pow2(e1 - e2), m2, u);
    var c := CodeFor(k, e2);
    CodeMonotone(Code(v1), FIRST_INVALID);
    BelowFirstInvalid(c, k * u);
  }

  lemma CommonUnit(m1: nat, p: nat, m2: nat, u: nat)
    requires u > 0 && m2 * u <= m1 * (p * u) <= 2 * (m2 * u)
    ensures 0 <= m1 * p - m2 <= m2 && m1 * (p * u) - m2 * u == (m1 * p - m2) * u
  {
    MulAssoc(m1, p, u);
    var k := m1 * p - m2;
    assert (m1 * p) * u - m2 * u == k * u;
    if k < 0 { MulStrict(k, 0, u); }
    if k > m2 { MulStrict(m2, k, u); }
  }

  lemma ExponentOrder(v1: uint16, v2: uint16)
    requires CodeValue(Code(v2)) <= CodeValue(Code(v1))
    ensures EffectiveExp(v2) <= EffectiveExp(v1)
  {
    hide CodeValue;
    if Code(v1) < Code(v2) { CodeMonotone(Code(v1), Code(v2)); }
  }
}
