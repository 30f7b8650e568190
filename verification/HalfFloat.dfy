/**
 * Conversions between halves and the wider binary floats (ge/common/fp16_t.cc).
 *
 * A float format is given by the length of its mantissa and its exponent bias: 23 and 127 for
 * float, 52 and 1023 for double. Its values are rationals `Numerator / Denominator` in units of
 * 2^-24.
 */
module HalfFloat {
  import opened Powers
  import opened Half
  import opened HalfArithmetic
  import opened HalfRounding

  // ----- exact values of wide floats

  datatype Format = Format(manLen: nat, bias: nat)

  const FLOAT := Format(23, 127)
  const DOUBLE := Format(52, 1023)

  /** Exponent field and mantissa field of a wide float, without the sign. */
  datatype Wide = Wide(exp: nat, man: nat)

  predicate InFormat(f: Format, w: Wide) {
    w.man < Pow2(f.manLen)
  }

  function FullMan(f: Format, w: Wide): nat {
    if w.exp == 0 then w.man else Pow2(f.manLen) + w.man
  }

  function Numerator(f: Format, w: Wide): nat {
    FullMan(f, w) * Pow2(if w.exp == 0 then 1 else w.exp)
  }

  function Denominator(f: Format): nat
    requires 24 <= f.bias + f.manLen
  {
    Pow2(f.bias + f.manLen - 24)
  }

  /** One step of `RoundStep` for a wide float: `drop` bits are dropped at half exponent `e`. */
  lemma {:induction false} WideRoundStep(f: Format, w: Wide, e: nat, x: nat, up: nat, drop: nat)
    requires 24 <= f.bias + f.manLen && 1 <= e && w.exp >= 1
    requires x == FullMan(f, w) * Pow2(up)
    requires w.exp + drop == f.bias + f.manLen - 24 + up + e - 1
    requires x / Pow2(drop) < 2048 && (e == 1 || HIDE_BIT <= x / Pow2(drop))
    ensures var n, d := Numerator(f, w), Denominator(f);
            var r := (e - 1) * 0x400 + RoundEven(x, Pow2(drop));
            && 0 <= r
            && (n < d * OVERFLOW <==> r < FIRST_INVALID)
            && (n < d * OVERFLOW ==> Nearest(r, n, d))
  {
    hide Pow2, CodeValue, Nearest;
    var n, d, q := Numerator(f, w), Denominator(f), Pow2(drop);
    var m, t := Floor(x, q), x % q;
    assert m * q + t == x;
    WideScale(f, w, e, x, up, drop);
    RoundStep(e, m, t, q, n, d);
  }

  lemma WideScale(f: Format, w: Wide, e: nat, x: nat, up: nat, drop: nat)
    requires 24 <= f.bias + f.manLen && 1 <= e && w.exp >= 1
    requires x == FullMan(f, w) * Pow2(up)
    requires w.exp + drop == f.bias + f.manLen - 24 + up + e - 1
    ensures Numerator(f, w) * Pow2(drop) == Denominator(f) * (x * Pow2(e - 1))
  {
    hide Pow2, FullMan;
    var m := FullMan(f, w);
    var a, b := f.bias + f.manLen - 24, e - 1;
    Pow2Sum(w.exp, drop);
    Pow2Sum(a, up);
    Pow2Sum(a + up, b);
    Shuffle(m, Pow2(w.exp), Pow2(drop), Pow2(a), Pow2(up), Pow2(b));
  }

  lemma Shuffle(m: nat, a: nat, b: nat, c: nat, d: nat, e: nat)
    requires a * b == (c * d) * e
    ensures (m * a) * b == c * ((m * d) * e)
  {
    assert (m * a) * b == m * (a * b);
    assert c * ((m * d) * e) == m * ((c * d) * e);
  }

  // ----- the branches of the assignment, for any format

  /** What assignment makes of a wide float: one rounding below 131072, the largest half above. */
  ghost predicate Assigned(h: uint16, s: nat, f: Format, w: Wide)
    requires 24 <= f.bias + f.manLen
  {
    if w.exp >= f.bias + 17 then SignBit(h) == s && Code(h) == 0x7BFF
    else Rounded(h, s, Numerator(f, w), Denominator(f))
  }

  predicate Usual(f: Format) {
    f.manLen >= 12 && f.bias >= 27
  }

  function Packed(s: nat, e: nat, m: nat): (h: uint16)
    requires s < 2
  {
    var (e', m') := Normalize(e, m);
    Construct(s, e', m')
  }

  lemma PackedCode(s: nat, e: nat, m: nat)
    requires s < 2 && (e == 0 ==> m <= HIDE_BIT)
    ensures SignBit(Packed(s, e, m)) == s
    ensures Code(Packed(s, e, m)) == if e >= 31 then 0x7FFF else if m == HIDE_BIT && e == 0 then m else e * 0x400 + m % 0x400
  {
    var (e', m') := Normalize(e, m);
    ConstructFields(s, e', m');
  }

  lemma SaturatedBranch(s: nat, f: Format, w: Wide)
    requires s < 2 && Usual(f) && w.exp >= f.bias + 17
    ensures Assigned(Packed(s, MAX_EXP - 1, MAX_MAN), s, f, w)
  {
    PackedCode(s, MAX_EXP - 1, MAX_MAN);
  }

  lemma SubnormalBranch(s: nat, f: Format, w: Wide, tmp: nat)
    requires s < 2 && Usual(f) && InFormat(f, w) && f.bias - 24 <= w.exp <= f.bias - 15
    requires tmp == FullMan(f, w) * Pow2(w.exp - (f.bias - 24))
    ensures var m := RoundEven(tmp, Pow2(f.manLen));
            0 <= m <= HIDE_BIT && Assigned(Packed(s, 0, m), s, f, w)
  {
    hide Pow2, CodeValue, Nearest, FullMan, Packed, Numerator, Denominator, RoundEven;
    SubnormalRange(f, w, tmp);
    WideRoundStep(f, w, 1, tmp, w.exp - (f.bias - 24), f.manLen);
    RoundEvenBound(tmp, Pow2(f.manLen), HIDE_BIT);
    PackedCode(s, 0, RoundEven(tmp, Pow2(f.manLen)));
  }

  lemma SubnormalRange(f: Format, w: Wide, tmp: nat)
    requires Usual(f) && InFormat(f, w) && f.bias - 24 <= w.exp <= f.bias - 15
    requires tmp == FullMan(f, w) * Pow2(w.exp - (f.bias - 24))
    ensures tmp < HIDE_BIT * Pow2(f.manLen) && 0 <= tmp / Pow2(f.manLen) < HIDE_BIT
  {
    hide Pow2;
    Pow2Medium();
    var p, u := Pow2(f.manLen), Pow2(w.exp - (f.bias - 24));
    Pow2Monotone(w.exp - (f.bias - 24), 9);
    assert FullMan(f, w) < 2 * p;
    MulStrict(FullMan(f, w), 2 * p, u);
    MulMonotone(u, 512, 2 * p);
    QuotientBelow(tmp, p, HIDE_BIT);
  }

  lemma QuotientBelow(x: nat, p: nat, k: nat)
    requires p > 0 && x < k * p
    ensures 0 <= x / p < k
  {
    FloorBound(x, p);
    var q := x / p;
    assert x == q * p + x % p;
    if q >= k { MulMonotone(k, q, p); }
  }

  lemma RoundEvenBound(x: nat, p: nat, k: nat)
    requires p > 0 && x < k * p
    ensures 0 <= RoundEven(x, p) <= k
  {
    QuotientBelow(x, p, k);
  }

  lemma NormalBranch(s: nat, f: Format, w: Wide)
    requires s < 2 && Usual(f) && InFormat(f, w) && f.bias - 15 < w.exp < f.bias + 17
    ensures var e, m := w.exp - (f.bias - 15), RoundEven(w.man, Pow2(f.manLen - 10));
            0 <= m <= HIDE_BIT && Assigned(Packed(s, if m == HIDE_BIT then e + 1 else e, m), s, f, w)
  {
    hide Pow2, CodeValue, Nearest, Packed, Numerator, Denominator, RoundEven, FullMan;
    var e, m, q := w.exp - (f.bias - 15), RoundEven(w.man, Pow2(f.manLen - 10)), Pow2(f.manLen - 10);
    NormalMan(f, w);
    Pow2Small();
    WideRoundStep(f, w, e, FullMan(f, w), 0, f.manLen - 10);
    RoundEvenBound(w.man, q, HIDE_BIT);
    PackedCode(s, if m == HIDE_BIT then e + 1 else e, m);
  }

  /** Putting the hidden bit in front moves the rounded mantissa by 1024. */
  lemma NormalMan(f: Format, w: Wide)
    requires Usual(f) && InFormat(f, w) && w.exp > 0
    ensures var q := Pow2(f.manLen - 10);
            && w.man < HIDE_BIT * q
            && HIDE_BIT <= FullMan(f, w) / q < 2048
            && RoundEven(FullMan(f, w), q) == HIDE_BIT + RoundEven(w.man, q)
  {
    hide Pow2, RoundEven;
    Pow2Medium();
    var q := Pow2(f.manLen - 10);
    Pow2Sum(10, f.manLen - 10);
    QuotientBelow(w.man, q, HIDE_BIT);
    EvenShift(w.man, q);
  }

  lemma EvenShift(x: nat, q: nat)
    requires q > 0
    ensures (HIDE_BIT * q + x) / q == HIDE_BIT + x / q
    ensures RoundEven(HIDE_BIT * q + x, q) == HIDE_BIT + RoundEven(x, q)
  {
    var m, t := Floor(x, q), x % q;
    assert x == m * q + t;
    assert (HIDE_BIT + m) * q == HIDE_BIT * q + m * q;
    DivModUnique(HIDE_BIT * q + x, q, HIDE_BIT + m, t);
  }

  /** Below the subnormals: only a value above half the smallest one becomes the smallest one. */
  lemma TinyBranch(s: nat, f: Format, w: Wide)
    requires s < 2 && Usual(f) && InFormat(f, w) && w.exp < f.bias - 24
    ensures Assigned(Packed(s, 0, if w.exp == f.bias - 25 && w.man > 0 then 1 else 0), s, f, w)
  {
    hide Pow2, CodeValue, Nearest, Packed;
    var n, d := Numerator(f, w), Denominator(f);
    var e := if w.exp == 0 then 1 else w.exp;
    var q := Pow2(f.bias + f.manLen - 24 - e);
    Pow2Sum(e, f.bias + f.manLen - 24 - e);
    var m := FullMan(f, w);
    TinyCompare(f, w);
    Pow2Small();
    assert n * q == d * ((0 * q + m) * Pow2(0)) by {
      assert (m * Pow2(e)) * q == (Pow2(e) * q) * m;
    }
    RoundStep(1, 0, m, q, n, d);
    PackedCode(s, 0, if w.exp == f.bias - 25 && w.man > 0 then 1 else 0);
  }

  lemma TinyCompare(f: Format, w: Wide)
    requires Usual(f) && InFormat(f, w) && w.exp < f.bias - 24
    ensures var q := Pow2(f.bias + f.manLen - 24 - (if w.exp == 0 then 1 else w.exp));
            FullMan(f, w) < q && (RoundsUp(0, FullMan(f, w), q) <==> w.exp == f.bias - 25 && w.man > 0)
  {
    hide Pow2;
    var e := if w.exp == 0 then 1 else w.exp;
    var k := f.bias + f.manLen - 24 - e;
    Pow2Succ(f.manLen);
    if w.exp < f.bias - 25 {
      Pow2Succ(f.manLen + 1);
      Pow2Monotone(f.manLen + 2, k);
    }
  }

  // ----- the assignments and conversions

  function DoubleFields(bits: uint64): (w: Wide)
    ensures w.exp < 0x800 && w.man < 0x10_0000_0000_0000
  {
    Wide(bits / 0x10_0000_0000_0000 % 0x800, bits % 0x10_0000_0000_0000)
  }

  function DoubleSign(bits: uint64): (s: nat)
    ensures s < 2
  {
    bits / 0x8000_0000_0000_0000
  }

  function FloatFields(bits: uint32): (w: Wide)
    ensures w.exp < 0x100 && w.man < 0x80_0000
  {
    Wide(bits / 0x80_0000 % 0x100, bits % 0x80_0000)
  }

  function FloatSign(bits: uint32): (s: nat)
    ensures s < 2
  {
    bits / 0x8000_0000
  }

  function PackDouble(s: nat, e: nat, m: nat): (bits: uint64)
    requires s < 2 && e < 0x800 && m < 0x10_0000_0000_0000
    ensures DoubleFields(bits) == Wide(e, m) && DoubleSign(bits) == s
  {
    s * 0x8000_0000_0000_0000 + e * 0x10_0000_0000_0000 + m
  }

  function PackFloat(s: nat, e: nat, m: nat): (bits: uint32)
    requires s < 2 && e < 0x100 && m < 0x80_0000
    ensures FloatFields(bits) == Wide(e, m) && FloatSign(bits) == s
  {
    s * 0x8000_0000 + e * 0x80_0000 + m
  }

  /**
   * The binary64 format (section 3.4 of IEEE 754-2008): sign, eleven exponent bits, 52 fraction bits, and
   * the value they denote as a fraction in units of 2^-24.
   */
  lemma DoubleLayout(bits: uint64, s: nat, e: nat, m: nat)
    requires s < 2 && e < 0x800 && m < 0x10_0000_0000_0000
    ensures bits == s * 0x8000_0000_0000_0000 + e * 0x10_0000_0000_0000 + m
       <==> DoubleSign(bits) == s && DoubleFields(bits) == Wide(e, m)
    ensures Numerator(DOUBLE, Wide(e, m))
         == (if e == 0 then m * Pow2(1) else (0x10_0000_0000_0000 + m) * Pow2(e))
    ensures Denominator(DOUBLE) == Pow2(1023 + 52 - 24)
  {
    FormatSizes();
    hide Pow2;
    assert bits == DoubleSign(bits) * 0x8000_0000_0000_0000
                   + DoubleFields(bits).exp * 0x10_0000_0000_0000 + DoubleFields(bits).man;
  }

  /** The binary32 format: sign, eight exponent bits, 23 fraction bits. */
  lemma FloatLayout(bits: uint32, s: nat, e: nat, m: nat)
    requires s < 2 && e < 0x100 && m < 0x80_0000
    ensures bits == s * 0x8000_0000 + e * 0x80_0000 + m <==> FloatSign(bits) == s && FloatFields(bits) == Wide(e, m)
    ensures Numerator(FLOAT, Wide(e, m)) == (if e == 0 then m * Pow2(1) else (0x80_0000 + m) * Pow2(e))
    ensures Denominator(FLOAT) == Pow2(127 + 23 - 24)
  {
    FormatSizes();
    hide Pow2;
    assert bits == FloatSign(bits) * 0x8000_0000 + FloatFields(bits).exp * 0x80_0000 + FloatFields(bits).man;
  }

  lemma FormatSizes()
    ensures Pow2(23) == 0x80_0000 && Pow2(13) == 0x2000
    ensures Pow2(52) == 0x10_0000_0000_0000 && Pow2(42) == 0x400_0000_0000
  {
    PowersOfTwo();
    assert Pow2(13) == 32 * Pow2(8);
    assert Pow2(24) == 2 * Pow2(23);
    Pow2Sum(16, 16);
    Pow2Sum(32, 10);
    Pow2Sum(42, 10);
    assert Pow2(10) == 4 * Pow2(8);
  }

  /** The double has exactly the value of the half. */
  method Fp16ToDouble(h: uint16) returns (bits: uint64)
    ensures IsExactly(DoubleSign(bits), DOUBLE, DoubleFields(bits), h)
  {
    hide Pow2, Numerator, Denominator, CodeValue, ManField, EffectiveExp, Code, SignBit, FullMan;
    hide PackDouble, DoubleFields, DoubleSign, PackFloat, FloatFields, FloatSign, IsNormalised;
    var e, m := HalfNormalised(h);
    var eRet: nat, mRet: nat := 0, 0;
    if m != 0 {
      eRet := e - EXP_BIAS + 1023;
      mRet := m % 0x400 * 0x400_0000_0000;
    }
    bits := PackDouble(SignBit(h), eRet, mRet);
    FormatSizes();
    WidenExact(DOUBLE, h, e, m);
  }

  method Fp16ToFloat(h: uint16) returns (bits: uint32)
    ensures IsExactly(FloatSign(bits), FLOAT, FloatFields(bits), h)
  {
    hide Pow2, Numerator, Denominator, CodeValue, ManField, EffectiveExp, Code, SignBit, FullMan;
    hide PackDouble, DoubleFields, DoubleSign, PackFloat, FloatFields, FloatSign, IsNormalised;
    var e, m := HalfNormalised(h);
    var eRet: nat, mRet: nat := 0, 0;
    if m != 0 {
      eRet := e - EXP_BIAS + 127;
      mRet := m % 0x400 * 0x2000;
    }
    bits := PackFloat(SignBit(h), eRet, mRet);
    FormatSizes();
    WidenExact(FLOAT, h, e, m);
  }

  /** The wide float with sign `s` and fields `w` has the value of the half `h`. */
  ghost predicate IsExactly(s: nat, f: Format, w: Wide, h: uint16)
    requires 24 <= f.bias + f.manLen
  {
    s == SignBit(h) && Numerator(f, w) == Denominator(f) * CodeValue(Code(h))
  }

  /** Shifts a subnormal mantissa up until the hidden bit is set; zero stays zero. */
  method HalfNormalised(h: uint16) returns (e: int, m: nat)
    ensures IsNormalised(h, e, m)
    ensures m == 0 || (HIDE_BIT <= m < 2048 && -9 <= e <= 31)
  {
    hide Pow2, ManField, EffectiveExp;
    e, m := EffectiveExp(h), ManField(h);
    Pow2Small();
    MantissaRange(h);
    ghost var i := 0;
    while m != 0 && m / HIDE_BIT % 2 == 0
      invariant 0 <= i && e == EffectiveExp(h) - i && m < 2048
      invariant m == ManField(h) * Pow2(i)
      invariant i > 0 ==> EffectiveExp(h) == 1 && ManField(h) < HIDE_BIT
      decreases 2048 - m
    {
      Pow2Succ(i);
      assert ManField(h) * (2 * Pow2(i)) == 2 * (ManField(h) * Pow2(i));
      m, e := 2 * m, e - 1;
      i := i + 1;
    }
    if m != 0 { ShiftsBounded(ManField(h), i); }
  }

  ghost predicate IsNormalised(h: uint16, e: int, m: nat) {
    exists i: nat :: e == EffectiveExp(h) - i && m == ManField(h) * Pow2(i) && (m == 0 || (HIDE_BIT <= m < 2048 && -9 <= e))
  }

  lemma MantissaRange(h: uint16)
    ensures ManField(h) < 2048 && (EffectiveExp(h) > 1 ==> ManField(h) >= HIDE_BIT)
  {}

  lemma ShiftsBounded(m0: nat, i: nat)
    requires 0 < m0 * Pow2(i) < 2048
    ensures i < 11
  {
    Pow2Medium();
    if i >= 11 {
      Pow2Monotone(11, i);
      MulMonotone(1, m0, Pow2(i));
    }
  }

  lemma WidenExact(f: Format, h: uint16, e: int, m: nat)
    requires Usual(f) && IsNormalised(h, e, m)
    ensures var w := if m == 0 then Wide(0, 0) else Wide(e - EXP_BIAS + f.bias, m % 0x400 * Pow2(f.manLen - 10));
            IsExactly(SignBit(h), f, w, h)
  {
    hide Pow2, CodeValue, ManField, EffectiveExp, Code, SignBit;
    FieldsOfCode(h);
    var e0, m0 := EffectiveExp(h), ManField(h);
    var i: nat :| e == e0 - i && m == m0 * Pow2(i) && (m == 0 || (HIDE_BIT <= m < 2048 && -9 <= e));
    if m == 0 {
      if m0 > 0 { MulMonotone(1, m0, Pow2(i)); }
    } else {
      var x := e - EXP_BIAS + f.bias;
      var w := Wide(x, m % 0x400 * Pow2(f.manLen - 10));
      WidenMan(f, w, m);
      Pow2Sum(i, f.manLen - 10);
      Pow2Sum(i + f.manLen - 10, x);
      Pow2Sum(f.bias + f.manLen - 24, e0 - 1);
      Shuffle4(m0, Pow2(i), Pow2(f.manLen - 10), Pow2(x), Pow2(f.bias + f.manLen - 24), Pow2(e0 - 1));
    }
  }

  lemma WidenMan(f: Format, w: Wide, m: nat)
    requires Usual(f) && HIDE_BIT <= m < 2048 && w.exp > 0 && w.man == m % 0x400 * Pow2(f.manLen - 10)
    ensures FullMan(f, w) == m * Pow2(f.manLen - 10)
  {
    hide Pow2;
    Pow2Medium();
    Pow2Sum(10, f.manLen - 10);
    assert m % 0x400 == m - 1024;
    assert (m - 1024) * Pow2(f.manLen - 10) == m * Pow2(f.manLen - 10) - 1024 * Pow2(f.manLen - 10);
  }

  lemma Shuffle4(m: nat, a: nat, b: nat, c: nat, d: nat, e: nat)
    requires (a * b) * c == d * e
    ensures ((m * a) * b) * c == d * (m * e)
  {
    assert ((m * a) * b) * c == m * ((a * b) * c);
    assert d * (m * e) == m * (d * e);
  }

  /** Shift out `t` bits and add one when the mask test says so. */
  method DropBits(man: nat, t: nat) returns (m: nat)
    requires 2 <= t < 64
    ensures m == RoundEven(man, Pow2(t))
  {
    hide Pow2, IsRoundOne, RoundsUp;
    MaskForm(man, t);
    var needRound := IsRoundOne(man, t);
    m := Floor(man, Pow2(t));
    if needRound {
      m := m + 1;
    }
  }

  // ----- what follows for every float and every double

  const SATURATION: nat := 0x200_0000_0000  // 131072 in units of 2^-24

  lemma SaturationThreshold(f: Format, w: Wide)
    requires Usual(f) && InFormat(f, w)
    ensures w.exp >= f.bias + 17 <==> Numerator(f, w) >= Denominator(f) * SATURATION
  {
    hide Pow2;
    var p := Pow2(f.manLen);
    Pow2Sum(f.manLen, f.bias + 17);
    Pow2Sum(f.bias + f.manLen - 24, 41);
    SaturationPower();
    assert Denominator(f) * SATURATION == p * Pow2(f.bias + 17);
    if w.exp >= f.bias + 17 {
      Pow2Monotone(f.bias + 17, w.exp);
      ProductsOrdered(p, p + w.man, Pow2(f.bias + 17), Pow2(w.exp));
    } else {
      var e := if w.exp == 0 then 1 else w.exp;
      Pow2Succ(e);
      Pow2Monotone(e + 1, f.bias + 17);
      ProductsApart(FullMan(f, w), p, Pow2(e), Pow2(f.bias + 17));
    }
  }

  lemma SaturationPower()
    ensures Pow2(41) == SATURATION
  {
    PowersOfTwo();
    Pow2Sum(32, 9);
    assert Pow2(9) == 512;
  }

  lemma ProductsOrdered(a: nat, b: nat, u: nat, v: nat)
    requires a <= b && u <= v
    ensures a * u <= b * v
  {
    MulMonotone(a, b, u);
    MulMonotone(u, v, b);
  }

  lemma ProductsApart(m: nat, p: nat, u: nat, v: nat)
    requires m < 2 * p && 2 * u <= v && u > 0
    ensures m * u < p * v
  {
    MulStrict(m, 2 * p, u);
    MulMonotone(2 * u, v, p);
    assert (2 * p) * u == (2 * u) * p;
  }

  /**
   * Half to float or double and back is the identity on every finite half of either sign, and
   * on the overflow pattern itself; every other pattern with exponent 31 comes back as that one.
   */
  lemma RoundTrip(h: uint16, f: Format, w: Wide, h': uint16)
    requires Usual(f) && InFormat(f, w)
    requires IsExactly(SignBit(h), f, w, h) && Assigned(h', SignBit(h), f, w)
    ensures Code(h) < FIRST_INVALID ==> h' == h
    ensures Code(h) >= FIRST_INVALID ==> SignBit(h') == SignBit(h) && Code(h') == 0x7FFF
  {
    hide Pow2, Numerator, Denominator, CodeValue, Nearest;
    var n, d, c := Numerator(f, w), Denominator(f), Code(h);
    DenominatorPositive(f);
    SaturationThreshold(f, w);
    LargestCode();
    CodeMonotone(c, 0x7FFF);
    MulStrict(CodeValue(c), SATURATION, d);
    TopCodes();
    if c < FIRST_INVALID {
      CodeMonotone(c, 0x7BFF);
      MulStrict(CodeValue(c), OVERFLOW, d);
      NearestExact(c, n, d);
      NearestUnique(c, Code(h'), n, d);
    } else {
      CodeMonotone(FIRST_INVALID, c);
      MulMonotone(OVERFLOW, CodeValue(c), d);
    }
  }

  lemma DenominatorPositive(f: Format)
    requires 24 <= f.bias + f.manLen
    ensures Denominator(f) > 0
  {}

  lemma LargestCode()
    ensures CodeValue(0x7FFF) < SATURATION
  {
    CodeOfMantissa(31, 2047);
    PowersOfTwo();
  }

  /**
   * Assignment is monotone on magnitudes, except exactly across the step from the overflow
   * pattern (65520 up to 131072) down to the largest half (131072 and above).
   */
  lemma AssignMonotone(f: Format, s: nat, w: Wide, h: uint16, s': nat, w': Wide, h': uint16)
    requires Usual(f) && InFormat(f, w) && InFormat(f, w')
    requires Assigned(h, s, f, w) && Assigned(h', s', f, w')
    requires Numerator(f, w) <= Numerator(f, w')
    ensures Code(h) <= Code(h') <==>
            !(Denominator(f) * OVERFLOW <= Numerator(f, w) < Denominator(f) * SATURATION <= Numerator(f, w'))
  {
    hide Pow2, Numerator, Denominator, CodeValue, Nearest;
    var n, n', d := Numerator(f, w), Numerator(f, w'), Denominator(f);
    DenominatorPositive(f);
    SaturationThreshold(f, w);
    SaturationThreshold(f, w');
    MulStrict(OVERFLOW, SATURATION, d);
    if n < d * OVERFLOW {
      NearestIsFinite(Code(h), n, d);
      if n' < d * OVERFLOW {
        MulMonotone(n, n', d);
        NearestMonotone(Code(h), n, d, Code(h'), n', d);
      }
    }
  }

  lemma NearestIsFinite(c: nat, n: nat, d: nat)
    requires Nearest(c, n, d)
    ensures c < FIRST_INVALID
  {}
}
