/**
 * Addition, subtraction and multiplication of halves (ge/common/fp16_t.cc, ge/common/fp16_t.h).
 *
 * Words are non-negative integers below their width; shifts and masks are written as
 * multiplication, division and remainder. The dropped low bits of a mantissa are collected in
 * a 32-bit word `trunc`, read as the fraction `trunc / 2^32`.
 */
module HalfArithmetic {
  import opened Powers
  import opened Half

  /**
   * The pattern `h` is the correctly rounded form of the exact value `n / d` with sign `s`. From
   * 65520 on the code gives exponent 31 with all mantissa bits set.
   */
  ghost predicate Rounded(h: uint16, s: nat, n: nat, d: nat) {
    && SignBit(h) == s
    && if n < d * OVERFLOW then Nearest(Code(h), n, d) else Code(h) == 0x7FFF
  }

  // ----- two's complement words

  function AsInt32(w: uint32): int {
    if w < TOP_BIT then w else w - WORD
  }

  function ReverseMan(negative: bool, man: uint32): (r: uint32)
    ensures man != TOP_BIT ==> AsInt32(r) == if negative then -AsInt32(man) else AsInt32(man)
  {
    if negative then (WORD - man) % WORD else man
  }

  function AddWords(x: uint32, y: uint32): (r: uint32)
    ensures -0x8000_0000 <= AsInt32(x) + AsInt32(y) < 0x8000_0000 ==> AsInt32(r) == AsInt32(x) + AsInt32(y)
  {
    (x + y) % WORD
  }

  function TopBit(w: uint32): (b: nat)
    ensures b == if w >= 0x8000_0000 then 1 else 0
  {
    w / TOP_BIT
  }

  function ShiftUp(w: uint32): (r: uint32)
    ensures r == 2 * w - WORD * TopBit(w) && r % 2 == 0
  {
    2 * w % WORD
  }

  function ShiftIn(bit: nat, w: uint32): (r: uint32)
    requires bit < 2
  {
    w / 2 + TOP_BIT * bit
  }

  function TimesEight(w: uint32): (r: uint32)
    ensures Abs(AsInt32(w)) < 0x1_0000 ==> AsInt32(r) == 8 * AsInt32(w)
  {
    w * 8 % WORD
  }

  lemma FloorHalves(x: int, p: nat)
    requires p > 0
    ensures x / p / 2 == x / (2 * p)
  {
    var q, r := x / p, x % p;
    assert x == p * q + r;
    var q2, r2 := q / 2, q % 2;
    assert p * q == (2 * p) * q2 + p * r2 by {
      assert q == 2 * q2 + r2;
      assert p * (2 * q2 + r2) == (2 * p) * q2 + p * r2;
    }
    assert r2 == 0 || r2 == 1;
    DivModUnique(x, 2 * p, q2, p * r2 + r);
  }

  /** The arithmetic shift computes the floor of the quotient, for negative words too. */
  method RightShift(man: uint32, shift: nat) returns (r: uint32)
    ensures AsInt32(r) == Kept(AsInt32(man), shift)
  {
    r := man;
    for i := 0 to shift
      invariant AsInt32(r) == AsInt32(man) / Pow2(i)
    {
      FloorHalves(AsInt32(man), Pow2(i));
      r := (if r >= TOP_BIT then TOP_BIT else 0) + r / 2;
    }
  }

  /** Mantissa sum after the one with the smaller exponent has been shifted down. */
  method GetManSum(ea: nat, ma: uint32, eb: nat, mb: uint32) returns (sum: uint32)
    requires Abs(AsInt32(ma)) < 2048 && Abs(AsInt32(mb)) < 2048
    ensures AsInt32(sum) == AlignedSum(ea, AsInt32(ma), eb, AsInt32(mb))
  {
    if ea != eb {
      if ea > eb {
        var t := RightShift(mb, ea - eb);
        FloorBound(AsInt32(mb), Pow2(ea - eb));
        sum := AddWords(ma, t);
      } else {
        var t := RightShift(ma, eb - ea);
        FloorBound(AsInt32(ma), Pow2(eb - ea));
        sum := AddWords(t, mb);
      }
    } else {
      sum := AddWords(ma, mb);
    }
  }

  /** What an arithmetic shift by `t` keeps. */
  function Kept(x: int, t: nat): int {
    x / Pow2(t)
  }

  /** What it drops, at the top of a word. */
  function Dropped(x: int, t: nat): int
    requires t <= 32
  {
    x % Pow2(t) * Pow2(32 - t)
  }

  /** Floor of the exact sum at the scale of the larger exponent. */
  function AlignedSum(ea: nat, a: int, eb: nat, b: int): int {
    if ea > eb then a + Kept(b, ea - eb)
    else if ea < eb then Kept(a, eb - ea) + b
    else a + b
  }

  lemma FloorBound(x: int, p: nat)
    requires p > 0
    ensures Abs(x / p) <= Abs(x)
    ensures x < 0 ==> x / p < 0
    ensures x >= 0 ==> 0 <= x / p <= x
  {
    var q, r := x / p, x % p;
    assert x == p * q + r;
    if q >= 1 { MulMonotone(1, p, q); }
    if q < 0 { MulMonotone(1, p, -q - 1); assert p * (-q - 1) == -(p * q) - p; }
    if x < 0 && q >= 0 { MulMonotone(0, q, p); }
    if x >= 0 && q < 0 { MulMonotone(q, -1, p); }
  }

  function Normalize(exp: nat, man: nat): (nat, nat) {
    if exp >= MAX_EXP then (MAX_EXP, MAX_MAN)
    else if exp == 0 && man == HIDE_BIT then (exp + 1, 0)
    else (exp, man)
  }

  function ManRoundToNearest(bit0: bool, bit1: bool, bitLeft: bool, man: nat, shift: nat): int {
    man / Pow2(shift) + (if bit1 && (bitLeft || bit0) then 1 else 0)
  }

  // ----- addition

  /**
   * Normalises, rounds once and packs. The ghost `n` is the exact magnitude in units of 2^-24:
   * mantissa, dropped bits and exponent denote it before and after every shift.
   */
  method Fp16AddCalVal(s: nat, exp: nat, man: uint16, tr: uint32, shift: nat, ghost n: nat) returns (h: uint16)
    requires s < 2 && 1 <= exp <= 31 && man < 4096 && tr % 2 == 0
    requires shift == 0 || (shift == 3 && tr == 0 && (man == 0 || man == 4))
    requires Denotes(man, tr, exp, shift, n)
    ensures Rounded(h, s, n, 1)
  {
    hide Nearest, CodeValue, Denotes, Pow2, Rounded, IsDoubling, ManRoundToNearest;
    hide TopBit, ShiftUp, ShiftIn, Construct, RoundsUp;
    var e: nat, m: uint16, trunc: uint32 := exp, man, tr;
    var min: uint16 := if shift == 3 then 0x2000 else 0x400;
    var max: uint16 := 2 * min;
    DoublingStart();
    while m < min && e > 0
      invariant e <= 31 && trunc % 2 == 0
      invariant m < 4 * min && (e < exp ==> m < max)
      invariant shift == 3 ==> trunc == 0 && IsDoubling(m)
      invariant Denotes(m, trunc, e, shift, n)
      decreases e
    {
      ShiftLeftKeeps(m, trunc, e, shift, n);
      DoublingStep(m);
      m, trunc, e := 2 * m + TopBit(trunc), ShiftUp(trunc), e - 1;
    }
    DoublingEnd(m);
    while m >= max
      invariant m < 2 * max
      invariant m < max || trunc % 2 == 0
      invariant min <= m || e == 0
      invariant shift == 3 ==> trunc == 0 && m <= min
      invariant Denotes(m, trunc, e, shift, n)
      decreases m
    {
      ShiftRightKeeps(m, trunc, e, shift, n);
      m, trunc, e := m / 2, ShiftIn(m % 2, trunc), e + 1;
    }
    var lastBit := m % 2 == 1;
    var truncHigh := trunc >= TOP_BIT;
    var truncLeft := trunc % TOP_BIT > 0;
    ghost var m0, e0 := m, e;
    Rounding(lastBit, truncHigh, truncLeft, m, trunc, shift);
    m := ManRoundToNearest(lastBit, truncHigh, truncLeft, m, shift);
    ghost var m1 := m;
    while m >= max
      invariant (m == m1 && e == e0) || (m1 == max && m == min && e == e0 + 1)
      decreases m
    {
      m, e := m / 2, e + 1;
    }
    if e == 0 && m <= max {
      m := m / 2;
    }
    var (e', m') := Normalize(e, m);
    h := Construct(s, e', m');
    PacksSum(s, e0, m0, trunc, shift, n, e, m);
  }

  /** The mantissa after rounding, before a carry is moved into the exponent. */
  function RoundedMan(m: nat, trunc: uint32, shift: nat): nat {
    if shift == 3 then m / 8 else m + (if RoundsUp(m, trunc, WORD) then 1 else 0)
  }

  lemma PacksSum(s: nat, e0: nat, m0: nat, trunc: uint32, shift: nat, n: nat, e: nat, m: nat)
    requires s < 2 && Denotes(m0, trunc, e0, shift, n)
    requires (shift == 0 && m0 < 0x800) || (shift == 3 && trunc == 0 && m0 <= 0x2000)
    requires e0 == 0 || (if shift == 3 then 0x2000 else 0x400) <= m0
    requires var m1 := RoundedMan(m0, trunc, shift);
             if shift == 0 && m1 == 0x800 then e == e0 + 1 && m == 0x400
             else e == e0 && m == if e0 == 0 then m1 / 2 else m1
    ensures Normalize(e, m).0 < 32
    ensures Rounded(Construct(s, Normalize(e, m).0, Normalize(e, m).1), s, n, 1)
  {
    hide Nearest, CodeValue, Rounded, Construct, Denotes;
    if e0 == 0 {
      PacksSubnormal(s, m0, trunc, shift, n);
    } else {
      PacksNormal(s, e0, m0, trunc, shift, n);
    }
  }

  lemma DoublingStart()
    ensures IsDoubling(0) && IsDoubling(4)
  {}

  lemma DoublingStep(m: nat)
    ensures IsDoubling(m) && m < 0x2000 ==> IsDoubling(2 * m) && 2 * m <= 0x2000
  {}

  lemma DoublingEnd(m: nat)
    ensures IsDoubling(m) ==> m <= 0x2000
  {}

  lemma Rounding(bit0: bool, bit1: bool, bitLeft: bool, m: nat, trunc: uint32, shift: nat)
    requires shift == 0 || (shift == 3 && trunc == 0)
    requires bit0 == (m % 2 == 1) && bit1 == (trunc >= TOP_BIT) && bitLeft == (trunc % TOP_BIT > 0)
    ensures ManRoundToNearest(bit0, bit1, bitLeft, m, shift) == RoundedMan(m, trunc, shift)
  {
    assert Pow2(0) == 1 && Pow2(3) == 8;
  }

  lemma ConstructFields(s: nat, e: nat, m: nat)
    requires s < 2 && e < 32
    ensures SignBit(Construct(s, e, m)) == s
    ensures Code(Construct(s, e, m)) == e * 0x400 + m % 0x400
  {}

  /** Exponent 0: nothing was dropped, and halving the mantissa gives the exact subnormal. */
  lemma PacksSubnormal(s: nat, m: nat, trunc: uint32, shift: nat, n: nat)
    requires s < 2 && ((shift == 0 && m < 0x800) || (shift == 3 && m < 0x4000))
    requires Denotes(m, trunc, 0, shift, n)
    ensures trunc == 0 && m == 2 * n * (if shift == 3 then 8 else 1)
    ensures Rounded(Construct(s, 0, n), s, n, 1)
  {
    hide Nearest, CodeValue, Construct, Code, SignBit;
    ExactAtZero(m, trunc, shift, n);
    CodeOfMantissa(1, n);
    assert Pow2(0) == 1;
    NearestExact(n, n, 1);
    ConstructFields(s, 0, n);
  }

  lemma ExactAtZero(m: nat, trunc: uint32, shift: nat, n: nat)
    requires shift == 0 || shift == 3
    requires Denotes(m, trunc, 0, shift, n)
    ensures trunc == 0 && m == 2 * n * (if shift == 3 then 8 else 1)
  {
    assert Pow2(0) == 1 && Pow2(3) == 8;
    if shift == 3 {
      assert m * WORD + trunc == 16 * n * WORD;
    } else {
      assert m * WORD + trunc == 2 * n * WORD;
    }
  }

  /** The pattern for a rounded mantissa at exponent `e`, with the carry moved into the exponent. */
  function PackCarry(s: nat, e: nat, m: nat): (h: uint16)
    requires s < 2 && 1 <= e && m <= 2048 && (e == 1 || HIDE_BIT <= m)
    ensures SignBit(h) == s
    ensures var r := (e - 1) * 0x400 + m; Code(h) == if r < FIRST_INVALID then r else 0x7FFF
  {
    var (e', m') := if m == 2048 then Normalize(e + 1, 1024)
                    else if m < HIDE_BIT then Normalize(0, m)
                    else Normalize(e, m);
    ConstructFields(s, e', m');
    Construct(s, e', m')
  }

  lemma PacksNormal(s: nat, e: nat, m: nat, trunc: uint32, shift: nat, n: nat)
    requires s < 2 && 1 <= e
    requires (shift == 0 && 0x400 <= m < 0x800) || (shift == 3 && trunc == 0 && m == 0x2000)
    requires Denotes(m, trunc, e, shift, n)
    ensures var m1 := RoundedMan(m, trunc, shift); m1 <= 2048 && Rounded(PackCarry(s, e, m1), s, n, 1)
  {
    hide Nearest, CodeValue, PackCarry, Code, SignBit;
    var p := Pow2(e - 1);
    NormalScale(e, m, trunc, shift, n);
    if shift == 0 {
      RoundStep(e, m, trunc, WORD, n, 1);
    } else {
      RoundStep(e, 1024, 0, 1, n, 1);
    }
  }

  lemma NormalScale(e: nat, m: nat, trunc: uint32, shift: nat, n: nat)
    requires 1 <= e && Denotes(m, trunc, e, shift, n)
    ensures shift == 0 ==> n * WORD == (m * WORD + trunc) * Pow2(e - 1)
    ensures shift == 3 && trunc == 0 && m == 0x2000 ==> n == 1024 * Pow2(e - 1)
  {
    assert Pow2(0) == 1 && Pow2(3) == 8 && Pow2(e) == 2 * Pow2(e - 1);
  }

  /** What a mantissa can be after an exact cancellation down to half a unit was shifted up. */
  predicate IsDoubling(m: nat) {
    m in {0, 4, 8, 16, 32, 64, 128, 256, 512, 1024, 2048, 4096, 8192}
  }

  /** The bits that alignment drops, at the top of a word. */
  function DroppedBits(ea: nat, a: int, eb: nat, b: int): int
    requires Abs(ea - eb) < 32
  {
    if ea > eb then Dropped(b, ea - eb)
    else if ea < eb then Dropped(a, eb - ea)
    else 0
  }

  function SumSign(v1: uint16, v2: uint16): (s: nat)
    ensures s < 2
  {
    var exact := Value(v1) + Value(v2);
    if exact < 0 || (exact == 0 && SignBit(v1) == 1 && SignBit(v2) == 1) then 1 else 0
  }

  /** The sign of a sum: that of the exact value, and for a zero sum negative only for two negative zeros. */
  lemma SumSignExact(v1: uint16, v2: uint16)
    ensures SumSign(v1, v2) == if Value(v1) + Value(v2) < 0 || v1 == v2 == 0x8000 then 1 else 0
  {
    ZeroValue(v1);
    ZeroValue(v2);
    hide CodeValue;
  }

  lemma ZeroValue(h: uint16)
    ensures CodeValue(Code(h)) == 0 <==> h == 0 || h == 0x8000
    ensures SignBit(h) == 1 <==> h >= 0x8000
  {
    var c := Code(h);
    if c >= HIDE_BIT {
      MulMonotone(1, Pow2(c / HIDE_BIT - 1), HIDE_BIT + c % HIDE_BIT);
    }
  }

  /** The sum of two halves is the exact sum, rounded once. */
  method Fp16Add(v1: uint16, v2: uint16) returns (h: uint16)
    ensures Rounded(h, SumSign(v1, v2), Abs(Value(v1) + Value(v2)), 1)
  {
    hide Nearest, CodeValue, Rounded, Denotes, Pow2, Code, AlignedSum, DroppedBits, ReverseMan, AddWords;
    hide EffectiveExp, ManField, SignBit, ExactSum, Value;
    var sa, ea, ma := SignBit(v1), EffectiveExp(v1), ManField(v1);
    var sb, eb, mb := SignBit(v2), EffectiveExp(v2), ManField(v2);
    ghost var n := Abs(Value(v1) + Value(v2));
    var wa: uint32, wb: uint32 := ma, mb;
    var sum: uint16, s: nat;
    MantissasOf(v1, v2);
    if sa != sb {
      wa, wb := ReverseMan(sa > 0, wa), ReverseMan(sb > 0, wb);
      var full := GetManSum(ea, wa, eb, wb);
      SumSignBit(ea, AsInt32(wa), eb, AsInt32(wb), full);
      sum := full % 0x1_0000;
      s := sum / 0x8000;
      Negated(ea, AsInt32(wa), eb, AsInt32(wb));
      wa, wb := ReverseMan(s > 0, wa), ReverseMan(s > 0, wb);
    } else {
      var full := GetManSum(ea, wa, eb, wb);
      SumSignBit(ea, AsInt32(wa), eb, AsInt32(wb), full);
      Negated(ea, AsInt32(wa), eb, AsInt32(wb));
      sum := full % 0x1_0000;
      s := sa;
    }
    h := AlignAndRound(s, ea, wa, eb, wb, sum == 0, n);
  }

  /**
   * The second half of the addition: aligns the mantissas, keeps what falls out in `trunc`, and
   * rounds. A sum whose floor is zero is first scaled up by eight.
   */
  method AlignAndRound(s: nat, ea: nat, ma: uint32, eb: nat, mb: uint32, zeroSum: bool, ghost n: nat)
    returns (h: uint16)
    requires s < 2 && 1 <= ea <= 31 && 1 <= eb <= 31
    requires IsMantissa(ea, AsInt32(ma)) && IsMantissa(eb, AsInt32(mb))
    requires ExactSum(ea, AsInt32(ma), eb, AsInt32(mb)) == n
    requires zeroSum ==> AlignedSum(ea, AsInt32(ma), eb, AsInt32(mb)) == 0
    ensures Rounded(h, s, n, 1)
  {
    hide Nearest, CodeValue, Rounded, Denotes, Pow2, Code, AddWords, ExactSum, Kept, Dropped, TimesEight, ShiftOut;
    var shift := 0;
    var wa, wb := ma, mb;
    if zeroSum {
      shift := 3;
      wa, wb := TimesEight(wa), TimesEight(wb);
    }
    ghost var a, b := AsInt32(wa), AsInt32(wb);
    AlignedFacts(ea, AsInt32(ma), eb, AsInt32(mb), zeroSum, n);
    var trunc: uint32 := 0;
    var e := if ea > eb then ea else eb;
    if ea > eb {
      KeptBound(b, ea - eb);
      trunc := ShiftOut(wb, ea - eb);
      wb := RightShift(wb, ea - eb);
    } else if ea < eb {
      KeptBound(a, eb - ea);
      trunc := ShiftOut(wa, eb - ea);
      wa := RightShift(wa, eb - ea);
    }
    assert trunc == DroppedBits(ea, a, eb, b);
    assert AsInt32(wa) + AsInt32(wb) == AlignedSum(ea, a, eb, b);
    var m := AddWords(wa, wb) % 0x1_0000;
    h := Fp16AddCalVal(s, e, m, trunc, shift, n);
  }

  /** A signed mantissa that is normalised for its exponent. */
  predicate IsMantissa(e: nat, m: int) {
    Abs(m) < 2048 && (e > 1 ==> Abs(m) >= HIDE_BIT)
  }

  /** Everything the last stage needs to know about the aligned mantissas. */
  lemma AlignedFacts(ea: nat, a: int, eb: nat, b: int, zeroSum: bool, n: nat)
    requires 1 <= ea <= 31 && 1 <= eb <= 31 && IsMantissa(ea, a) && IsMantissa(eb, b)
    requires ExactSum(ea, a, eb, b) == n
    requires zeroSum ==> AlignedSum(ea, a, eb, b) == 0
    ensures var k := if zeroSum then 8 else 1;
            var m, trunc := AlignedSum(ea, k * a, eb, k * b), DroppedBits(ea, k * a, eb, k * b);
            && 0 <= m < 4096 && 0 <= trunc < WORD && trunc % 2 == 0
            && Denotes(m, trunc, if ea > eb then ea else eb, if zeroSum then 3 else 0, n)
            && (zeroSum ==> trunc == 0 && (m == 0 || m == 4))
  {
    hide Pow2, Kept, Dropped, Denotes;
    DroppedRange(if zeroSum then 8 * a else a, 0);
    KeptAll(a);
    if ea > eb {
      AlignedPair(a, b, eb, ea - eb, zeroSum, n);
    } else {
      AlignedPair(b, a, ea, eb - ea, zeroSum, n);
    }
  }

  lemma AlignedPair(y: int, x: int, e: nat, t: nat, zeroSum: bool, n: nat)
    requires 1 <= e && e + t <= 31 && IsMantissa(e + t, y) && IsMantissa(e, x)
    requires y * Pow2(e + t - 1) + x * Pow2(e - 1) == n
    requires zeroSum ==> y + Kept(x, t) == 0
    ensures var k := if zeroSum then 8 else 1;
            var m, trunc := k * y + Kept(k * x, t), Dropped(k * x, t);
            && 0 <= m < 4096 && 0 <= trunc < WORD && trunc % 2 == 0
            && Denotes(m, trunc, e + t, if zeroSum then 3 else 0, n)
            && (zeroSum ==> trunc == 0 && (m == 0 || m == 4))
  {
    hide Pow2, Kept, Dropped, Denotes;
    DroppedRange(if zeroSum then 8 * x else x, t);
    FloorSign(y, x, e, t);
    KeptBound(x, t);
    if zeroSum {
      ZeroFloor(y, x, e, t);
      NothingDropped(y, x, t);
    }
    ScaledDenotes(y, x, e, t, zeroSum, n);
  }

  lemma ScaledDenotes(y: int, x: int, e: nat, t: nat, zeroSum: bool, n: nat)
    requires 1 <= e && e + t <= 31
    requires y * Pow2(e + t - 1) + x * Pow2(e - 1) == n
    requires 0 <= if zeroSum then 8 * y + Kept(8 * x, t) else y + Kept(x, t)
    requires 0 <= if zeroSum then Dropped(8 * x, t) else Dropped(x, t)
    ensures if zeroSum then Denotes(8 * y + Kept(8 * x, t), Dropped(8 * x, t), e + t, 3, n)
            else Denotes(y + Kept(x, t), Dropped(x, t), e + t, 0, n)
  {
    hide Pow2, Kept, Dropped;
    Pow2Small();
    if zeroSum {
      AlignExact(8 * y, 8 * x, e, t);
      ScaleBy8(y, Pow2(e + t - 1), x, Pow2(e - 1));
    } else {
      AlignExact(y, x, e, t);
    }
  }

  lemma ScaleBy8(y: int, p: nat, x: int, u: nat)
    ensures (8 * y) * p + (8 * x) * u == 8 * (y * p + x * u)
  {}

  lemma KeptBound(x: int, t: nat)
    ensures Abs(Kept(x, t)) <= Abs(x)
  {
    FloorBound(x, Pow2(t));
  }

  lemma DroppedRange(x: int, t: nat)
    requires t < 32
    ensures 0 <= Dropped(x, t) < WORD && Dropped(x, t) % 2 == 0
    ensures t == 0 ==> Dropped(x, t) == 0 && Kept(x, t) == x
  {
    hide Pow2;
    Pow2Small();
    Pow2Sum(32 - t, t);
    PowersOfTwo();
    Pow2Succ(31 - t);
    BelowProduct(x % Pow2(t), Pow2(t), Pow2(32 - t));
    EvenProduct(x % Pow2(t), Pow2(31 - t));
  }

  lemma BelowProduct(r: nat, p: nat, k: nat)
    requires r < p && k > 0
    ensures 0 <= r * k < k * p
  {
    MulStrict(r, p, k);
  }

  lemma EvenProduct(r: nat, k: nat)
    ensures r * (2 * k) % 2 == 0
  {
    assert r * (2 * k) == 2 * (r * k);
  }

  /** The floor of a sum is zero only for an exact zero or for 1024 - 2047 / 2. */
  lemma ZeroFloor(y: int, x: int, e: nat, t: nat)
    requires 1 <= e && IsMantissa(e + t, y) && IsMantissa(e, x) && y + Kept(x, t) == 0
    ensures t == 0 || (t == 1 && y == 1024 && x == -2047)
  {
    if t == 1 {
      assert Pow2(1) == 2;
    } else if t >= 2 {
      assert Pow2(2) == 4;
      Pow2Monotone(2, t);
      hide Pow2;
      KeptQuarter(x, Pow2(t));
    }
  }

  lemma KeptQuarter(x: int, p: nat)
    requires p >= 4 && Abs(x) < 2048
    ensures Abs(x / p) <= 512
  {
    var q := x / p;
    assert x == q * p + x % p;
    assert p * (-q - 1) == -(q * p) - p;
    if q > 0 { MulMonotone(4, p, q); }
    if q < 0 { MulMonotone(4, p, -q - 1); }
  }

  lemma NothingDropped(y: int, x: int, t: nat)
    requires t == 0 || (t == 1 && y == 1024 && x == -2047)
    requires y + Kept(x, t) == 0
    ensures Dropped(8 * x, t) == 0
    ensures 8 * y + Kept(8 * x, t) == 0 || 8 * y + Kept(8 * x, t) == 4
  {
    assert Pow2(0) == 1 && Pow2(1) == 2;
  }

  /** Shifting a word up leaves the low bits of its two's complement value at the top. */
  function ShiftOut(w: uint32, t: nat): (r: uint32)
    requires 1 <= t < 32
    ensures r == Dropped(AsInt32(w), t)
  {
    ShiftedOut(w, t);
    w * Pow2(32 - t) % WORD
  }

  lemma ShiftedOut(w: uint32, t: nat)
    requires 1 <= t < 32
    ensures w * Pow2(32 - t) % WORD == Dropped(AsInt32(w), t)
  {
    hide Pow2;
    var p, k := Pow2(t), Pow2(32 - t);
    Pow2Sum(32 - t, t);
    PowersOfTwo();
    var x := AsInt32(w);
    var c := if w < TOP_BIT then 0 else 1;
    var q, r := x / p, x % p;
    assert x == q * p + r;
    ProductSplit(q, p, r, k, c);
    assert r * k < WORD by { MulStrict(r, p, k); }
    DivModUnique(w * k, WORD, q + c * k, r * k);
  }

  lemma ProductSplit(q: int, p: nat, r: nat, k: nat, c: nat)
    requires k * p == WORD
    ensures (q * p + r + c * WORD) * k == (q + c * k) * WORD + r * k
  {
    assert (q * p) * k == q * (k * p);
    assert (c * WORD) * k == (c * k) * WORD;
  }

  lemma MantissasOf(v1: uint16, v2: uint16)
    ensures var a := Signed(SignBit(v1) == 1, ManField(v1));
            var b := Signed(SignBit(v2) == 1, ManField(v2));
            ExactSum(EffectiveExp(v1), a, EffectiveExp(v2), b) == Value(v1) + Value(v2)
    ensures IsMantissa(EffectiveExp(v1), ManField(v1)) && IsMantissa(EffectiveExp(v2), ManField(v2))
  {
    hide CodeValue, Pow2, ManField, EffectiveExp, Code, SignBit;
    FieldsOfCode(v1);
    FieldsOfCode(v2);
    SignedTimes(SignBit(v1) == 1, ManField(v1), Pow2(EffectiveExp(v1) - 1));
    SignedTimes(SignBit(v2) == 1, ManField(v2), Pow2(EffectiveExp(v2) - 1));
    Normalised(v1);
    Normalised(v2);
  }

  lemma SignedTimes(negative: bool, m: nat, p: nat)
    ensures Signed(negative, m) * p == Signed(negative, m * p)
  {}

  lemma Normalised(h: uint16)
    ensures IsMantissa(EffectiveExp(h), ManField(h))
  {}

  lemma Negated(ea: nat, a: int, eb: nat, b: int)
    requires 1 <= ea && 1 <= eb
    ensures ExactSum(ea, -a, eb, -b) == -ExactSum(ea, a, eb, b)
    ensures a >= 0 && b >= 0 ==> ExactSum(ea, a, eb, b) >= 0
  {
    hide Pow2;
  }

  /** The sign of the floored sum is the sign of the exact sum. */
  lemma SumSignBit(ea: nat, a: int, eb: nat, b: int, full: uint32)
    requires 1 <= ea && 1 <= eb && Abs(a) < 2048 && Abs(b) < 2048
    requires AsInt32(full) == AlignedSum(ea, a, eb, b)
    ensures full % 0x1_0000 / 0x8000 == if ExactSum(ea, a, eb, b) < 0 then 1 else 0
    ensures full % 0x1_0000 == 0 <==> AlignedSum(ea, a, eb, b) == 0
  {
    hide Pow2, Kept;
    if ea > eb {
      KeptBound(b, ea - eb);
      FloorSign(a, b, eb, ea - eb);
    } else {
      KeptBound(a, eb - ea);
      KeptAll(a);
      FloorSign(b, a, ea, eb - ea);
    }
    LowHalf(full);
  }

  lemma KeptAll(x: int)
    ensures Kept(x, 0) == x
  {
    assert Pow2(0) == 1;
  }

  lemma LowHalf(w: uint32)
    requires Abs(AsInt32(w)) < 0x8000
    ensures w % 0x1_0000 / 0x8000 == if AsInt32(w) < 0 then 1 else 0
    ensures w % 0x1_0000 == 0 <==> AsInt32(w) == 0
  {}

  lemma FloorSign(y: int, x: int, e: nat, t: nat)
    requires 1 <= e
    ensures y + Kept(x, t) < 0 <==> y * Pow2(e + t - 1) + x * Pow2(e - 1) < 0
  {
    hide Pow2;
    var p, u := Pow2(t), Pow2(e - 1);
    var q, r := x / p, x % p;
    Pow2Sum(t, e - 1);
    Distribute(y, p, x, u);
    assert y * p + x == (y + q) * p + r;
    if y + q < 0 {
      MulMonotone(y + q, -1, p);
      MulStrict(y * p + x, 0, u);
    } else {
      MulMonotone(0, y + q, p);
      MulMonotone(0, y * p + x, u);
    }
  }

  /** The exact sum of two mantissas at their exponents, in units of 2^-24. */
  function ExactSum(ea: nat, a: int, eb: nat, b: int): int
    requires 1 <= ea && 1 <= eb
  {
    a * Pow2(ea - 1) + b * Pow2(eb - 1)
  }

  /** Aligning loses nothing: floor and dropped bits together are the exact sum. */
  lemma AlignExact(y: int, x: int, e: nat, t: nat)
    requires 1 <= e && t < 32
    ensures ((y + Kept(x, t)) * WORD + Dropped(x, t)) * Pow2(e + t)
         == 2 * WORD * (y * Pow2(e + t - 1) + x * Pow2(e - 1))
  {
    hide Pow2;
    var p, u, k := Pow2(t), Pow2(e - 1), Pow2(32 - t);
    Pow2Sum(32 - t, t);
    PowersOfTwo();
    Pow2Sum(t, e - 1);
    Pow2Succ(e + t - 1);
    var z := y * p + x;
    SplitWord(y, x, p, k);
    Regroup(z, p, k, u);
    Distribute(y, p, x, u);
  }

  lemma Distribute(y: int, p: nat, x: int, u: nat)
    ensures (y * p + x) * u == y * (p * u) + x * u
  {}

  lemma SplitWord(y: int, x: int, p: nat, k: nat)
    requires p > 0 && k * p == WORD
    ensures (y + x / p) * WORD + x % p * k == k * (y * p + x)
  {
    var q, r := x / p, x % p;
    assert x == q * p + r;
    assert k * (y * p + x) == k * ((y + q) * p) + k * r;
    assert k * ((y + q) * p) == (k * p) * (y + q);
  }

  lemma Regroup(z: int, p: nat, k: nat, u: nat)
    requires k * p == WORD
    ensures (k * z) * (2 * (p * u)) == 2 * WORD * (z * u)
  {
    assert (k * z) * (2 * (p * u)) == 2 * ((k * p) * (z * u));
  }

  /** `(man + trunc / 2^32) * 2^(e - 1 - shift)` is the exact magnitude `n`. */
  ghost predicate Denotes(man: nat, trunc: nat, e: nat, shift: nat, n: nat) {
    (man * WORD + trunc) * Pow2(e) == 2 * n * WORD * Pow2(shift)
  }

  lemma ShiftLeftKeeps(m: nat, trunc: uint32, e: nat, shift: nat, n: nat)
    requires e > 0 && Denotes(m, trunc, e, shift, n)
    ensures Denotes(2 * m + TopBit(trunc), ShiftUp(trunc), e - 1, shift, n)
  {
    var x := m * WORD + trunc;
    assert (2 * m + TopBit(trunc)) * WORD + ShiftUp(trunc) == 2 * x;
    assert Pow2(e) == 2 * Pow2(e - 1);
    assert (2 * x) * Pow2(e - 1) == x * Pow2(e);
  }

  lemma ShiftRightKeeps(m: nat, trunc: uint32, e: nat, shift: nat, n: nat)
    requires trunc % 2 == 0 && Denotes(m, trunc, e, shift, n)
    ensures Denotes(m / 2, ShiftIn(m % 2, trunc), e + 1, shift, n)
  {
    var x := (m / 2) * WORD + ShiftIn(m % 2, trunc);
    assert m * WORD + trunc == 2 * x;
    assert Pow2(e + 1) == 2 * Pow2(e);
    assert x * Pow2(e + 1) == (2 * x) * Pow2(e);
  }

  // ----- subtraction

  /** Flips the sign and adds. */
  method Fp16Sub(v1: uint16, v2: uint16) returns (h: uint16)
    ensures var exact := Value(v1) - Value(v2);
            Rounded(h, if exact < 0 || (exact == 0 && SignBit(v1) == 1 && SignBit(v2) == 0) then 1 else 0,
                    Abs(exact), 1)
  {
    hide Nearest, CodeValue, Rounded;
    var tmp: uint16 := (1 - v2 / 0x8000) * 0x8000 + v2 % 0x8000;
    assert Code(tmp) == Code(v2) && SignBit(tmp) == 1 - SignBit(v2);
    h := Fp16Add(v1, tmp);
  }

  // ----- multiplication

  const PRODUCT_SCALE: nat := 0x100_0000  // 2^24: products of values are in units of 2^-48

  /** The product of two halves is the exact product, rounded once. */
  method Fp16Mul(v1: uint16, v2: uint16) returns (h: uint16)
    ensures Rounded(h, (SignBit(v1) + SignBit(v2)) % 2, Abs(Value(v1) * Value(v2)), PRODUCT_SCALE)
  {
    hide Nearest, CodeValue, Rounded, Pow2, Code, Value, EffectiveExp, ManField, SignBit;
    hide Kept, Dropped, TopBit, ShiftIn, Construct, RoundsUp, ManRoundToNearest;
    var sa, ea, ma := SignBit(v1), EffectiveExp(v1), ManField(v1);
    var sb, eb, mb := SignBit(v2), EffectiveExp(v2), ManField(v2);
    ghost var n := Abs(Value(v1) * Value(v2));
    var e: int := ea + eb - EXP_BIAS - 10;
    var mul: uint32 := ProductOf(ma, mb);
    var s := (sa + sb) % 2;
    ProductDenotes(v1, v2);
    while mul < HIDE_BIT && e > 1
      invariant -23 <= e && mul < 0x40_0000
      invariant mul * Pow2(e + 23) == n
      decreases e
    {
      DoubleKeeps(mul, e, n);
      mul, e := 2 * mul, e - 1;
    }
    ghost var product, e1, j := mul, e, 0;
    var trunc: uint32 := 0;
    KeptAll(product);
    DroppedRange(product, 0);
    while mul >= 2048 || e < 1
      invariant 0 <= j <= 24 && e == e1 + j && (e <= 1 || j <= 11)
      invariant mul == Kept(product, j) && trunc == Dropped(product, j)
      invariant mul >= HIDE_BIT || e <= 1
      decreases 24 - j
    {
      KeptSmall(product, j);
      ShiftRegister(product, j);
      mul, trunc, e := mul / 2, ShiftIn(mul % 2, trunc), e + 1;
      j := j + 1;
    }
    var lastBit := mul % 2 == 1;
    var truncHigh := trunc >= TOP_BIT;
    var truncLeft := trunc % TOP_BIT > 0;
    ghost var m0, e0 := mul, e;
    Rounding(lastBit, truncHigh, truncLeft, mul, trunc, 0);
    mul := ManRoundToNearest(lastBit, truncHigh, truncLeft, mul, 0);
    ghost var m1 := mul;
    while mul >= 2048 || e < 0
      invariant (mul == m1 && e == e0) || (m1 == 2048 && mul == 1024 && e == e0 + 1)
      decreases mul
    {
      mul, e := mul / 2, e + 1;
    }
    if e == 1 && mul < HIDE_BIT {
      e := 0;
    }
    var (e', m') := Normalize(e, mul);
    h := Construct(s, e', m');
    PacksProduct(s, product, e1, j, n);
  }

  function ProductOf(a: nat, b: nat): (p: uint32)
    requires a < 2048 && b < 2048
    ensures p < 0x40_0000 && p == a * b
  {
    MulMonotone(a, 2047, b);
    a * b
  }

  lemma ProductDenotes(v1: uint16, v2: uint16)
    ensures ManField(v1) * ManField(v2) * Pow2(EffectiveExp(v1) + EffectiveExp(v2) - 2)
         == Abs(Value(v1) * Value(v2))
  {
    hide CodeValue, Pow2, ManField, EffectiveExp, Code, SignBit;
    FieldsOfCode(v1);
    FieldsOfCode(v2);
    var (a, p, b, q) := (ManField(v1), Pow2(EffectiveExp(v1) - 1), ManField(v2), Pow2(EffectiveExp(v2) - 1));
    Pow2Sum(EffectiveExp(v1) - 1, EffectiveExp(v2) - 1);
    Exchange(a, p, b, q);
    SignedProduct(SignBit(v1) == 1, CodeValue(Code(v1)), SignBit(v2) == 1, CodeValue(Code(v2)));
  }

  lemma Exchange(a: nat, p: nat, b: nat, q: nat)
    ensures (a * p) * (b * q) == a * b * (p * q)
  {}

  lemma SignedProduct(s: bool, x: nat, t: bool, y: nat)
    ensures Abs(Signed(s, x) * Signed(t, y)) == x * y
  {}

  lemma DoubleKeeps(m: nat, e: int, n: nat)
    requires -23 < e && m * Pow2(e + 23) == n
    ensures (2 * m) * Pow2(e + 22) == n
  {
    Pow2Succ(e + 22);
  }

  lemma KeptSmall(x: nat, j: nat)
    requires x < 0x40_0000
    ensures 0 <= Kept(x, j) && (j >= 11 ==> Kept(x, j) < 2048)
  {
    FloorBound(x, Pow2(j));
    if j >= 11 {
      Pow2Medium();
      Pow2Monotone(11, j);
      hide Pow2;
      var p, q := Pow2(j), Kept(x, j);
      assert x == q * p + x % p;
      if q >= 2048 { MulMonotone(2048, q, p); }
    }
  }

  /**
   * Dropping one more bit into the trunc word. After `j` steps the register holds exactly the
   * low `j` bits, as long as it is wide enough.
   */
  lemma ShiftRegister(x: nat, j: nat)
    requires j < 32
    ensures 0 <= Kept(x, j) && 0 <= Dropped(x, j) < WORD
    ensures Kept(x, j) / 2 == Kept(x, j + 1)
    ensures ShiftIn(Kept(x, j) % 2, Dropped(x, j)) == Dropped(x, j + 1)
  {
    hide Pow2;
    var p, k, q, r := Pow2(j), Pow2(31 - j), x / Pow2(j), x % Pow2(j);
    Pow2Succ(j);
    Pow2Succ(31 - j);
    Pow2Sum(31 - j, j);
    PowersOfTwo();
    DroppedRange(x, j);
    FloorBound(x, p);
    FloorHalves(x, p);
    LowBits(x, p);
    NextDropped(r, q % 2, p, k);
  }

  lemma LowBits(x: int, p: nat)
    requires p > 0
    ensures x % (2 * p) == x / p % 2 * p + x % p
  {
    var q, r := x / p, x % p;
    assert x == q * p + r;
    assert q * p == q / 2 * (2 * p) + q % 2 * p by {
      assert q == 2 * (q / 2) + q % 2;
      assert (2 * (q / 2) + q % 2) * p == q / 2 * (2 * p) + q % 2 * p;
    }
    assert q % 2 == 0 || q % 2 == 1;
    DivModUnique(x, 2 * p, q / 2, q % 2 * p + r);
  }

  lemma NextDropped(r: nat, bit: nat, p: nat, k: nat)
    requires bit < 2 && k * p == TOP_BIT && r * (2 * k) < WORD
    ensures ShiftIn(bit, r * (2 * k)) == (bit * p + r) * k
  {
    assert r * (2 * k) == 2 * (r * k);
    assert (bit * p + r) * k == bit * (k * p) + r * k;
  }

  lemma PacksProduct(s: nat, product: nat, e1: int, j: nat, n: nat)
    requires s < 2 && j <= 24 && -23 <= e1 && 1 <= e1 + j
    requires product * Pow2(e1 + 23) == n
    requires 0 <= Kept(product, j) < 2048 && (e1 + j == 1 || Kept(product, j) >= HIDE_BIT)
    requires 0 <= Dropped(product, j) < WORD
    ensures var m1 := RoundedMan(Kept(product, j), Dropped(product, j), 0);
            m1 <= 2048 && Rounded(PackCarry(s, e1 + j, m1), s, n, PRODUCT_SCALE)
  {
    hide Nearest, CodeValue, PackCarry, Code, SignBit, Pow2, Kept, Dropped;
    ProductScale(product, e1, j, n);
    RoundStep(e1 + j, Kept(product, j), Dropped(product, j), WORD, n, PRODUCT_SCALE);
  }

  /** Mantissa, dropped bits and exponent still denote the exact product. */
  lemma ProductScale(product: nat, e1: int, j: nat, n: nat)
    requires j <= 24 && -23 <= e1 && 1 <= e1 + j && product * Pow2(e1 + 23) == n
    ensures n * WORD == PRODUCT_SCALE * ((Kept(product, j) * WORD + Dropped(product, j)) * Pow2(e1 + j - 1))
  {
    hide Pow2;
    var p, k := Pow2(j), Pow2(32 - j);
    Pow2Sum(32 - j, j);
    PowersOfTwo();
    SplitWord(0, product, p, k);
    var u, v := Pow2(e1 + j - 1), Pow2(e1 + 23);
    Pow2Sum(24, 32 - j);
    Pow2Sum(56 - j, e1 + j - 1);
    Pow2Sum(e1 + 23, 32);
    assert (PRODUCT_SCALE * k) * u == v * WORD;
    Reassociate(product, PRODUCT_SCALE, k, u, v);
  }

  lemma Reassociate(x: nat, c: nat, k: nat, u: nat, v: nat)
    requires (c * k) * u == v * WORD
    ensures (x * v) * WORD == c * ((k * x) * u)
  {
    assert (x * v) * WORD == x * (v * WORD);
    assert c * ((k * x) * u) == x * ((c * k) * u);
  }
}
