/** Conversions between halves and integers (ge/common/fp16_t.cc). */
module HalfInteger {
  import opened Powers
  import opened Half
  import opened HalfArithmetic
  import opened HalfRounding

  const ONE: nat := 0x100_0000  // 1 in units of 2^-24

  function Clamp(x: int, lo: int, hi: int): int {
    if x < lo then lo else if x > hi then hi else x
  }

  /** The value of a half rounded to an integer, ties to even. */
  function RoundedValue(h: uint16): int {
    var r := RoundEven(CodeValue(Code(h)), ONE);
    if SignBit(h) == 1 then -r else r
  }

  // ----- half to integer

  /**
   * The loop shared by the conversions: brings the exponent to the bias, shifting the mantissa up
   * or counting the bits to drop, and stops early once the mantissa reaches `limit`.
   */
  method ShiftToUnits(exp: nat, man: nat, limit: nat) returns (long: nat, shiftOut: nat, overflow: bool)
    requires exp < 31 && man < 2048 <= limit
    ensures overflow <==> exp >= EXP_BIAS && man * Pow2(exp - EXP_BIAS) >= limit
    ensures !overflow && exp >= EXP_BIAS ==> long == man * Pow2(exp - EXP_BIAS) && shiftOut == 0
    ensures !overflow && exp < EXP_BIAS ==> long == man && shiftOut == EXP_BIAS - exp
  {
    hide Pow2;
    Pow2Small();
    var e := exp;
    long, shiftOut, overflow := man, 0, false;
    while e != EXP_BIAS
      invariant exp >= EXP_BIAS ==> EXP_BIAS <= e <= exp && shiftOut == 0 && long == man * Pow2(exp - e)
      invariant exp < EXP_BIAS ==> exp <= e <= EXP_BIAS && shiftOut == e - exp && long == man
      invariant long < limit && !overflow
      decreases if exp >= EXP_BIAS then e - EXP_BIAS else EXP_BIAS - e
    {
      if e > EXP_BIAS {
        e := e - 1;
        DoubleLong(man, exp - e - 1, exp - EXP_BIAS);
        long := 2 * long;
        if long >= limit {
          overflow := true;
          break;
        }
      } else {
        e := e + 1;
        shiftOut := shiftOut + 1;
      }
    }
  }

  lemma DoubleLong(man: nat, k: nat, last: nat)
    requires k < last
    ensures 2 * (man * Pow2(k)) == man * Pow2(k + 1) <= man * Pow2(last)
  {
    hide Pow2;
    Pow2Succ(k);
    Pow2Monotone(k + 1, last);
    MulMonotone(Pow2(k + 1), Pow2(last), man);
  }

  /** Rounding what the loop leaves is rounding the value of the half. */
  lemma UnitsRound(h: uint16, long: nat, shiftOut: nat)
    requires 0 < ExpField(h) < 31
    requires ExpField(h) >= EXP_BIAS ==> long == ManField(h) * Pow2(ExpField(h) - EXP_BIAS) && shiftOut == 0
    requires ExpField(h) < EXP_BIAS ==> long == ManField(h) && shiftOut == EXP_BIAS - ExpField(h)
    ensures RoundEven(long, Pow2(MAN_LEN + shiftOut)) == RoundEven(CodeValue(Code(h)), ONE)
  {
    FieldsOfCode(h);
    PowersOfTwo();
    hide Pow2, CodeValue, RoundEven, ManField, Code;
    var e, m := ExpField(h), ManField(h);
    var q := Pow2(MAN_LEN + shiftOut);
    if e >= EXP_BIAS {
      // value = (m * 2^(e - 15)) * 2^14
      Pow2Sum(e - EXP_BIAS, 14);
      Pow2Sum(10, 14);
      RoundEvenScaled(long, q, Pow2(14));
      MulAssoc(m, Pow2(e - EXP_BIAS), Pow2(14));
    } else {
      Pow2Sum(MAN_LEN + shiftOut, e - 1);
      RoundEvenScaled(long, q, Pow2(e - 1));
    }
  }

  lemma RoundEvenMonotone(x: nat, y: nat, q: nat)
    requires q > 0 && x <= y
    ensures RoundEven(x, q) <= RoundEven(y, q)
  {
    var f, t, f', t' := Floor(x, q), x % q, Floor(y, q), y % q;
    assert x == f * q + t && y == f' * q + t';
    assert (f' + 1) * q == f' * q + q;
    if f' < f {
      MulMonotone(f' + 1, f, q);
    }
  }

  /** Subnormal halves are far below one half. */
  lemma SubnormalRoundsToZero(h: uint16)
    requires ExpField(h) == 0
    ensures RoundedValue(h) == 0
  {
    assert Code(h) < HIDE_BIT && CodeValue(Code(h)) == Code(h);
    assert Floor(Code(h), ONE) == 0;
  }

  /** What the early stop means: the rounded value is at least the rounded limit. */
  lemma LimitReached(h: uint16, limit: nat, bound: nat)
    requires EXP_BIAS <= ExpField(h) < 31 && ManField(h) * Pow2(ExpField(h) - EXP_BIAS) >= limit
    requires RoundEven(limit, 0x400) >= bound
    ensures if SignBit(h) == 1 then RoundedValue(h) <= -(bound as int) else RoundedValue(h) >= bound
  {
    hide Pow2, CodeValue, ManField, RoundEven, Code;
    Pow2Medium();
    var long := ManField(h) * Pow2(ExpField(h) - EXP_BIAS);
    UnitsRound(h, long, 0);
    RoundEvenMonotone(limit, long, 0x400);
  }

  /** The floor and the rounding decision of what the loop leaves. */
  lemma UnitsSplit(h: uint16, long: nat, shiftOut: nat)
    requires 0 < ExpField(h) < 31
    requires ExpField(h) >= EXP_BIAS ==> long == ManField(h) * Pow2(ExpField(h) - EXP_BIAS) && shiftOut == 0
    requires ExpField(h) < EXP_BIAS ==> long == ManField(h) && shiftOut == EXP_BIAS - ExpField(h)
    ensures var f := Floor(long, Pow2(MAN_LEN + shiftOut));
            && 0x400 * f <= long
            && RoundedValue(h) == Signed(SignBit(h) == 1, f + (if IsRoundOne(long, shiftOut + MAN_LEN) then 1 else 0))
  {
    hide Pow2, CodeValue, ManField, Code, RoundsUp, IsRoundOne, SignBit;
    UnitsRound(h, long, shiftOut);
    MaskForm(long, MAN_LEN + shiftOut);
    TenBits(shiftOut);
    FloorScaled(long, Pow2(MAN_LEN + shiftOut));
  }

  lemma TenBits(shiftOut: nat)
    ensures Pow2(MAN_LEN + shiftOut) >= 0x400
  {
    Pow2Medium();
    Pow2Monotone(MAN_LEN, MAN_LEN + shiftOut);
  }

  lemma FloorScaled(x: nat, q: nat)
    requires q >= 0x400
    ensures 0x400 * Floor(x, q) <= x
  {
    var f := Floor(x, q);
    assert x == f * q + x % q;
    MulMonotone(0x400, q, f);
  }

  /** A word of the given modulus read as a two's complement number. */
  function AsSigned(v: int, modulus: nat): int {
    if 2 * v >= modulus then v - modulus else v
  }

  /** `(s << top) | m` where the sign bit may already be set in `m`. */
  function OrSign(s: nat, m: int, half: nat): int {
    if s == 1 && m < half then m + half else m
  }

  /** Two's complement within the modulus. */
  function Complement(m: int, modulus: nat): (c: int)
    requires 0 <= m <= modulus && 0 < modulus
    ensures c == if m == 0 || m == modulus then 0 else modulus - m
  {
    if m > 0 && m < modulus then ModSmall(modulus - m, modulus); (modulus - m) % modulus
    else if m == 0 then ModSelf(modulus); modulus % modulus
    else 0
  }

  lemma ModSmall(x: nat, m: nat)
    requires x < m
    ensures x % m == x
  {}

  lemma ModSelf(m: nat)
    requires m > 0
    ensures m % m == 0
  {
    DivModUnique(m, m, 1, 0);
  }

  /** Rounds within the limit, negates by complement and sets the sign bit. */
  function SignedBits(s: nat, f: nat, needRound: bool, modulus: nat, roundLimit: nat): (v: int)
    requires s < 2 && 2 <= modulus && modulus % 2 == 0 && f < modulus && roundLimit < modulus
    ensures var r := f + (if needRound && f < roundLimit then 1 else 0);
            r <= modulus / 2 - 1 + s ==> AsSigned(v, modulus) == Signed(s == 1, r)
  {
    var m := if needRound && f < roundLimit then f + 1 else f;
    var m' := if s == 1 then Complement(m, modulus) else m;
    OrSign(if m' == 0 then 0 else s, m', modulus / 2)
  }

  method Fp16ToInt8(h: uint16) returns (r: int)
    ensures r == Clamp(RoundedValue(h), -128, 127)
  {
    hide Pow2, CodeValue, ManField, IsRoundOne, RoundEven, RoundedValue, Code, Floor, SignedBits, SignBit, ExpField;
    var s, e := SignBit(h), ExpField(h);
    if e == 0 {
      SubnormalRoundsToZero(h);
      return 0;
    }
    if e == 31 {
      InvalidIsLarge(h);
      r := AsSigned(127 + s, 0x100);
    } else {
      LimitsRound();
      var limit := if s == 1 then 0x2_0000 else 0x1_FFFF;
      var long, shiftOut, overflow := ShiftToUnits(e, ManField(h), limit);
      if overflow {
        LimitReached(h, limit, 128);
        r := AsSigned(127 + s, 0x100);
      } else {
        UnitsSplit(h, long, shiftOut);
        var f := Floor(long, Pow2(MAN_LEN + shiftOut)) % 0x100;
        var needRound := IsRoundOne(long, shiftOut + MAN_LEN);
        r := AsSigned(SignedBits(s, f, needRound, 0x100, if s == 1 then 128 else 127), 0x100);
      }
    }
  }

  method Fp16ToInt16(h: uint16) returns (r: int)
    ensures r == Clamp(RoundedValue(h), -0x8000, 0x7FFF)
  {
    hide Pow2, CodeValue, ManField, IsRoundOne, RoundEven, RoundedValue, Code, Floor, SignedBits, SignBit, ExpField;
    var s, e := SignBit(h), ExpField(h);
    if e == 0 {
      SubnormalRoundsToZero(h);
      return 0;
    }
    if e == 31 {
      InvalidIsLarge(h);
      r := AsSigned(0x7FFF + s, 0x1_0000);
    } else {
      LimitsRound();
      var limit := if s == 1 then 0x200_0001 else 0x1FF_FFFF;
      var long, shiftOut, overflow := ShiftToUnits(e, ManField(h), limit);
      if overflow {
        LimitReached(h, limit, 0x8000);
        r := AsSigned(0x7FFF + s, 0x1_0000);
      } else {
        UnitsSplit(h, long, shiftOut);
        RoundedAreSmall(h, long, shiftOut);
        var f := Floor(long, Pow2(MAN_LEN + shiftOut)) % 0x1_0000;
        var needRound := IsRoundOne(long, shiftOut + MAN_LEN);
        r := AsSigned(SignedBits(s, f, needRound, 0x1_0000, 0x7FFF), 0x1_0000);
      }
    }
  }

  /** No early stop: the value always fits. Exponent 31 gives the extreme integers. */
  method Fp16ToInt32(h: uint16) returns (r: int)
    ensures r == if ExpField(h) < 31 then RoundedValue(h)
                 else if SignBit(h) == 1 then -0x8000_0000 else 0x7FFF_FFFF
  {
    hide Pow2, CodeValue, ManField, IsRoundOne, RoundEven, RoundedValue, Code, Floor, SignedBits, SignBit, ExpField;
    var s, e := SignBit(h), ExpField(h);
    if e == 31 {
      r := AsSigned(0x7FFF_FFFF + s, WORD);
    } else {
      var long, shiftOut := UnitsOf(h);
      var f := Floor(long, Pow2(MAN_LEN + shiftOut)) % WORD;
      var needRound := IsRoundOne(long, shiftOut + MAN_LEN);
      r := AsSigned(SignedBits(s, f, needRound, WORD, 0x7FFF_FFFF), WORD);
    }
  }

  method Fp16ToUInt8(h: uint16) returns (r: int)
    ensures r == Clamp(RoundedValue(h), 0, 0xFF)
  {
    hide Pow2, CodeValue, ManField, IsRoundOne, RoundEven, RoundedValue, Code, Floor, SignedBits, SignBit, ExpField;
    var s, e := SignBit(h), ExpField(h);
    if e == 0 {
      SubnormalRoundsToZero(h);
      return 0;
    }
    if e == 31 {
      InvalidIsLarge(h);
      r := 0xFF;
    } else {
      LimitsRound();
      var long, shiftOut, overflow := ShiftToUnits(e, ManField(h), 0x4_0000);
      if overflow {
        LimitReached(h, 0x4_0000, 256);
        r := 0xFF;
      } else {
        UnitsSplit(h, long, shiftOut);
        r := Floor(long, Pow2(MAN_LEN + shiftOut)) % 0x100;
        if IsRoundOne(long, shiftOut + MAN_LEN) && r != 0xFF {
          r := r + 1;
        }
      }
    }
    if s == 1 {
      r := 0;
    }
  }

  method Fp16ToUInt16(h: uint16) returns (r: int)
    ensures r == Clamp(RoundedValue(h), 0, 0xFFFF)
  {
    hide Pow2, CodeValue, ManField, IsRoundOne, RoundEven, RoundedValue, Code, Floor, SignBit, ExpField;
    if ExpField(h) == 0 {
      SubnormalRoundsToZero(h);
      return 0;
    }
    if ExpField(h) == 31 {
      InvalidIsLarge(h);
      r := 0xFFFF;
    } else {
      var long, shiftOut := UnitsOf(h);
      r := Floor(long, Pow2(MAN_LEN + shiftOut)) % 0x1_0000;
      if IsRoundOne(long, shiftOut + MAN_LEN) && r != 0xFFFF {
        r := r + 1;
      }
    }
    if SignBit(h) == 1 {
      r := 0;
    }
  }

  /** Exponent 31 gives the largest integer instead of a rounded value. */
  method Fp16ToUInt32(h: uint16) returns (r: int)
    ensures r == if SignBit(h) == 1 then 0 else if ExpField(h) < 31 then RoundedValue(h) else 0xFFFF_FFFF
  {
    hide Pow2, CodeValue, ManField, IsRoundOne, RoundEven, RoundedValue, Code, Floor, SignBit, ExpField;
    if ExpField(h) == 0 {
      SubnormalRoundsToZero(h);
      return 0;
    }
    if ExpField(h) == 31 {
      r := 0xFFFF_FFFF;
    } else {
      var long, shiftOut := UnitsOf(h);
      r := Floor(long, Pow2(MAN_LEN + shiftOut)) % WORD;
      if IsRoundOne(long, shiftOut + MAN_LEN) && r != 0xFFFF_FFFF {
        r := r + 1;
      }
    }
    if SignBit(h) == 1 {
      r := 0;
    }
  }

  /** The shared loop without an early stop, together with what its result means. */
  method UnitsOf(h: uint16) returns (long: nat, shiftOut: nat)
    requires ExpField(h) < 31
    ensures shiftOut < 16
    ensures var f := Floor(long, Pow2(MAN_LEN + shiftOut));
            && f < 0xFFFF
            && RoundedValue(h) == Signed(SignBit(h) == 1, f + (if IsRoundOne(long, shiftOut + MAN_LEN) then 1 else 0))
  {
    hide Pow2, CodeValue, ManField, IsRoundOne, RoundEven, RoundedValue, Code, Floor, SignBit, ExpField;
    var overflow;
    long, shiftOut, overflow := ShiftToUnits(ExpField(h), ManField(h), 0x400_0000);
    UnitsFit(h);
    if ExpField(h) == 0 {
      SubnormalRoundsToZero(h);
      SubnormalUnits(long);
    } else {
      UnitsSplit(h, long, shiftOut);
    }
  }

  lemma UnitsFit(h: uint16)
    requires ExpField(h) < 31
    ensures ExpField(h) >= EXP_BIAS ==> ManField(h) * Pow2(ExpField(h) - EXP_BIAS) <= 2047 * 0x8000
  {
    if ExpField(h) >= EXP_BIAS {
      assert Pow2(15) == 0x8000 by { assert Pow2(8) == 0x100; }
      Pow2Monotone(ExpField(h) - EXP_BIAS, 15);
      MulMonotone(Pow2(ExpField(h) - EXP_BIAS), 0x8000, ManField(h));
    }
  }

  lemma SubnormalUnits(long: nat)
    requires long < HIDE_BIT
    ensures Floor(long, Pow2(25)) == 0 && !IsRoundOne(long, 25)
  {
    assert Pow2(25) == 0x200_0000 by { PowersOfTwo(); }
    MaskForm(long, 25);
  }

  /** A half that is not an integer is below 1024, so rounding never meets the upper limits. */
  lemma RoundedAreSmall(h: uint16, long: nat, shiftOut: nat)
    requires 0 < ExpField(h) < 31
    requires ExpField(h) >= EXP_BIAS ==> long == ManField(h) * Pow2(ExpField(h) - EXP_BIAS) && shiftOut == 0
    requires ExpField(h) < EXP_BIAS ==> long == ManField(h) && shiftOut == EXP_BIAS - ExpField(h)
    ensures IsRoundOne(long, shiftOut + MAN_LEN) ==> Floor(long, Pow2(MAN_LEN + shiftOut)) < 1024
  {
    hide Pow2, ManField, IsRoundOne;
    Pow2Medium();
    var e, m := ExpField(h), ManField(h);
    TenBits(shiftOut);
    FloorScaled(long, Pow2(MAN_LEN + shiftOut));
    if e >= 25 {
      MaskForm(long, MAN_LEN);
      Pow2Sum(e - 25, 10);
      MulAssoc(m, Pow2(e - 25), 0x400);
      DivModUnique(long, 0x400, m * Pow2(e - 25), 0);
    } else if e >= EXP_BIAS {
      Pow2Monotone(e - EXP_BIAS, 9);
      MulMonotone(Pow2(e - EXP_BIAS), 0x200, m);
    }
  }

  lemma InvalidIsLarge(h: uint16)
    requires ExpField(h) == 31
    ensures if SignBit(h) == 1 then RoundedValue(h) <= -0x1_0000 else RoundedValue(h) >= 0x1_0000
  {
    assert RoundEven(0x100_0000_0000, ONE) == 0x1_0000;
    PowersOfTwo();
    CodeOfMantissa(31, 1024);
    hide CodeValue, RoundEven;
    CodeMonotone(FIRST_INVALID, Code(h));
    RoundEvenMonotone(0x100_0000_0000, CodeValue(Code(h)), ONE);
  }

  /** The early-stop limits of the source, rounded to integers. */
  lemma LimitsRound()
    ensures RoundEven(0x2_0000, 0x400) == 128 && RoundEven(0x1_FFFF, 0x400) == 128
    ensures RoundEven(0x200_0001, 0x400) == 0x8000 && RoundEven(0x1FF_FFFF, 0x400) == 0x8000
    ensures RoundEven(0x4_0000, 0x400) == 256
  {}

  // ----- integer to half

  method GetManBitLength(man: uint32) returns (len: nat)
    ensures man == 0 ==> len == 0
    ensures man > 0 ==> 1 <= len <= 32 && Pow2(len - 1) <= man < Pow2(len)
  {
    hide Pow2;
    Pow2Small();
    var m := man;
    len := 0;
    while m > 0
      invariant 0 <= m && m == Kept(man, len)
      invariant man == 0 ==> len == 0
      invariant m == 0 && man > 0 ==> len > 0 && Kept(man, len - 1) > 0
      decreases m
    {
      KeptHalves(man, len);
      m, len := m / 2, len + 1;
    }
    if man > 0 { BitLength(man, len); }
  }

  lemma KeptHalves(x: int, j: nat)
    ensures Kept(x, 0) == x && Kept(x, j) / 2 == Kept(x, j + 1)
  {
    Pow2Small();
    FloorHalves(x, Pow2(j));
  }

  lemma BitLength(man: uint32, len: nat)
    requires len > 0 && Kept(man, len) == 0 && Kept(man, len - 1) > 0
    ensures len <= 32 && Pow2(len - 1) <= man < Pow2(len)
  {
    PowersOfTwo();
    hide Pow2;
    assert man == Pow2(len) * Kept(man, len) + man % Pow2(len);
    assert man == Pow2(len - 1) * Kept(man, len - 1) + man % Pow2(len - 1);
    MulMonotone(1, Kept(man, len - 1), Pow2(len - 1));
    if len > 32 { Pow2Monotone(32, len - 1); }
  }

  /**
   * The body that `operator=(uint32_t)` and `SetValByUint32Val` have in common. A positive word
   * becomes the nearest finite half, so from 65520 on it saturates at 65504; the zero word, which
   * only reaches it for the smallest int32, becomes one half.
   */
  method SetValByWord(word: uint32, s: nat) returns (h: uint16)
    requires s < 2
    ensures SignBit(h) == s
    ensures word > 0 ==> Nearest(Code(h), word * ONE, 1)
    ensures word == 0 ==> Code(h) == 0x3800
  {
    hide Pow2, Nearest, CodeValue, Construct, SignBit, Code;
    var e: nat, m: nat;
    var len := GetManBitLength(word);
    if len > 11 {
      e, m := RoundLongWord(word, len);
    } else {
      e, m := EXP_BIAS, word;
      SmallWord(word, len);
      m := m * Pow2(11 - len);
      e := e + len - 1;
    }
    ConstructFields(s, e, m);
    h := Construct(s, e, m);
  }

  /** The branch for words of more than eleven bits: drop, round, carry, saturate. */
  method RoundLongWord(word: uint32, len: nat) returns (e: nat, m: nat)
    requires 11 < len <= 32 && Pow2(len - 1) <= word < Pow2(len)
    ensures 1 <= e < MAX_EXP && Nearest(e * 0x400 + m % 0x400, word * ONE, 1)
  {
    hide Pow2, Nearest, CodeValue, Kept, Dropped, RoundsUp, ManRoundToNearest, MaskedTrunc;
    e, m := EXP_BIAS + MAN_LEN, word;
    var t := len - 11;
    var mask := 1;
    Pow2Small();
    for i := 1 to t
      invariant mask + 1 == Pow2(i)
    {
      Pow2Succ(i);
      mask := 2 * mask + 1;
    }
    var trunc := MaskedTrunc(word, mask, t);
    KeptHalves(word, 0);
    for i := 0 to t
      invariant m == Kept(word, i) && e == EXP_BIAS + MAN_LEN + i
    {
      KeptHalves(word, i);
      KeptNonNegative(word, i + 1);
      m, e := m / 2, e + 1;
    }
    KeptRange(word, len);
    WordNearest(word, t);
    Rounding(m % 2 == 1, trunc >= TOP_BIT, trunc % TOP_BIT > 0, m, trunc, 0);
    m := ManRoundToNearest(m % 2 == 1, trunc >= TOP_BIT, trunc % TOP_BIT > 0, m, 0);
    ghost var m1 := m;
    while m >= 2048
      invariant (m == m1 && e == 25 + t) || (m1 == 2048 && m == 1024 && e == 26 + t)
      decreases m
    {
      m, e := m / 2, e + 1;
    }
    if e >= MAX_EXP {
      e, m := MAX_EXP - 1, MAX_MAN;
    }
  }

  /** `(man & mask) << (32 - t)` with a mask of `t` ones. */
  function MaskedTrunc(man: uint32, mask: nat, t: nat): (r: uint32)
    requires 1 <= t < 32 && mask + 1 == Pow2(t)
    ensures r == Dropped(man, t)
  {
    DroppedRange(man, t);
    ModSmall(Dropped(man, t), WORD);
    man % (mask + 1) * Pow2(32 - t) % WORD
  }

  lemma KeptNonNegative(x: nat, j: nat)
    ensures 0 <= Kept(x, j)
  {
    FloorBound(x, Pow2(j));
  }

  lemma KeptRange(word: uint32, len: nat)
    requires 11 < len && Pow2(len - 1) <= word < Pow2(len)
    ensures 1024 <= Kept(word, len - 11) < 2048
  {
    hide Pow2;
    Pow2Medium();
    Pow2Sum(10, len - 11);
    Pow2Sum(11, len - 11);
    QuotientRange(word, Pow2(len - 11), 1024, 2048);
  }

  lemma QuotientRange(x: nat, p: nat, lo: nat, hi: nat)
    requires p > 0 && lo * p <= x < hi * p
    ensures lo <= x / p < hi
  {
    var q := x / p;
    assert x == p * q + x % p;
    assert (q + 1) * p == p * q + p;
    if q >= hi { MulMonotone(hi, q, p); }
    if q < lo { MulMonotone(q + 1, lo, p); }
  }

  lemma WordNearest(word: uint32, t: nat)
    requires 1 <= t < 32 && 1024 <= Kept(word, t) < 2048
    ensures 0 <= Dropped(word, t) < WORD
    ensures var r := (24 + t) * 0x400 + RoundedMan(Kept(word, t), Dropped(word, t), 0);
            Nearest(if r < FIRST_INVALID then r else 0x7BFF, word * ONE, 1)
  {
    hide Pow2, Nearest, CodeValue, Kept, Dropped, RoundsUp;
    DroppedRange(word, t);
    WordScale(word, t);
    RoundStep(25 + t, Kept(word, t), Dropped(word, t), WORD, word * ONE, 1);
    if word * ONE >= OVERFLOW {
      NearestAboveMax(word * ONE);
    }
  }

  lemma WordScale(word: uint32, t: nat)
    requires 1 <= t < 32
    ensures (word * ONE) * WORD == (Kept(word, t) * WORD + Dropped(word, t)) * Pow2(24 + t)
  {
    hide Pow2;
    var p, k := Pow2(t), Pow2(32 - t);
    Pow2Sum(32 - t, t);
    Pow2Sum(24, t);
    PowersOfTwo();
    SplitWord(0, word, p, k);
    assert (k * word) * (ONE * p) == (word * ONE) * (k * p);
  }

  /** Above 65504 the nearest finite half is 65504. */
  lemma NearestAboveMax(n: nat)
    requires n >= OVERFLOW
    ensures Nearest(0x7BFF, n, 1)
  {
    hide CodeValue;
    TopCodes();
    forall k: nat | k < FIRST_INVALID && k != 0x7BFF
      ensures Distance(0x7BFF, n, 1) < Distance(k, n, 1)
    {
      Farther(0x7BFF, k, n, 1);
    }
  }

  lemma SmallWord(word: uint32, len: nat)
    requires len <= 11 && (word == 0 ==> len == 0)
    requires word > 0 ==> 1 <= len && Pow2(len - 1) <= word < Pow2(len)
    ensures word == 0 ==> word * Pow2(11 - len) % 0x400 == 0
    ensures word > 0 ==> 1024 <= word * Pow2(11 - len) < 2048
    ensures word > 0 ==> Nearest((len + 13) * 0x400 + word * Pow2(11 - len), word * ONE, 1)
  {
    hide Pow2, CodeValue, Nearest;
    Pow2Medium();
    PowersOfTwo();
    if word > 0 {
      var p := Pow2(11 - len);
      Pow2Sum(len - 1, 11 - len);
      Pow2Sum(len, 11 - len);
      MulMonotone(Pow2(len - 1), word, p);
      MulStrict(word, Pow2(len), p);
      Pow2Sum(11 - len, len + 13);
      CodeOfMantissa(len + 14, word * p);
      MulAssoc(word, p, Pow2(len + 13));
      NearestExact((len + 13) * 0x400 + word * p, word * ONE, 1);
    }
  }
}
