/**
 * The rounding forms used by the conversions of ge/common/fp16_t.cc, and the agreement between
 * them: each of the three drops `t` low bits and rounds to the nearest integer, ties to even.
 */
module HalfRounding {
  import opened Powers
  import opened Half
  import opened HalfArithmetic

  /** `n / q` rounded to an integer, ties to even. */
  function RoundEven(n: nat, q: nat): int
    requires q > 0
  {
    Floor(n, q) + (if RoundsUp(Floor(n, q), n % q, q) then 1 else 0)
  }

  function Floor(n: nat, q: nat): nat
    requires q > 0
  {
    FloorBound(n, q);
    n / q
  }

  /** `r` is the integer nearest to `n / q`; among two equally near ones it is the even one. */
  ghost predicate NearestInteger(r: int, n: nat, q: nat) {
    forall k: int :: k != r ==>
      Abs(n - q * r) <= Abs(n - q * k) && (Abs(n - q * r) == Abs(n - q * k) ==> r % 2 == 0)
  }

  lemma RoundEvenIsNearest(n: nat, q: nat)
    requires q > 0
    ensures NearestInteger(RoundEven(n, q), n, q)
  {
    var f, t := Floor(n, q), n % q;
    assert n == q * f + t;
    NearestAround(n, q, f, t);
  }

  lemma NearestAround(n: nat, q: nat, f: nat, t: nat)
    requires t < q && n == q * f + t
    ensures NearestInteger(f + (if RoundsUp(f, t, q) then 1 else 0), n, q)
  {
    assert q * (f + 1) == q * f + q;
    forall k: int
      ensures k < f ==> q * k <= q * f - q
      ensures k > f + 1 ==> q * k >= q * f + 2 * q
    {
      Outside(q, f, k);
    }
    forall k: int {
      NearerEnd(n, q, f, t, q * f, k, q * k);
    }
  }

  lemma Outside(q: nat, f: nat, k: int)
    ensures k < f ==> q * k <= q * f - q
    ensures k > f + 1 ==> q * k >= q * f + 2 * q
  {
    if k < f {
      MulMonotone(k + 1, f, q);
      assert (k + 1) * q == q * k + q;
    } else if k > f + 1 {
      MulMonotone(f, k - 2, q);
      assert (k - 2) * q == q * k - 2 * q;
    }
  }

  /** The same with the products `lo = q * f` and `x = q * k` as plain numbers. */
  lemma NearerEnd(n: nat, q: nat, f: nat, t: nat, lo: int, k: int, x: int)
    requires n == lo + t && t < q
    requires k < f ==> x <= lo - q
    requires k == f ==> x == lo
    requires k == f + 1 ==> x == lo + q
    requires k > f + 1 ==> x >= lo + 2 * q
    ensures RoundsUp(f, t, q) && k != f + 1 ==>
              Abs(n - (lo + q)) <= Abs(n - x) && (Abs(n - (lo + q)) == Abs(n - x) ==> (f + 1) % 2 == 0)
    ensures !RoundsUp(f, t, q) && k != f ==>
              Abs(n - lo) <= Abs(n - x) && (Abs(n - lo) == Abs(n - x) ==> f % 2 == 0)
  {}

  /** The mask test of the source: last kept bit, first dropped bit, any other dropped bit. */
  predicate IsRoundOne(man: nat, truncLen: nat)
    requires 2 <= truncLen
  {
    RoundBits(man, 4 * Pow2(truncLen - 2), 2 * Pow2(truncLen - 2))
  }

  predicate RoundBits(man: nat, mask0: nat, mask1: nat)
    requires mask0 > 0 && mask1 > 0
  {
    var lastBit := man / mask0 % 2 == 1;
    var truncHigh := man / mask1 % 2 == 1;
    var truncLeft := man % mask1 > 0;
    truncHigh && (truncLeft || lastBit)
  }

  lemma MaskForm(man: nat, t: nat)
    requires 2 <= t
    ensures IsRoundOne(man, t) <==> RoundsUp(Floor(man, Pow2(t)), man % Pow2(t), Pow2(t))
  {
    hide Pow2, RoundBits, RoundsUp, Floor;
    var p := Pow2(t - 1);
    Pow2Succ(t - 2);
    Pow2Succ(t - 1);
    BitForm(man, p);
    assert 4 * Pow2(t - 2) == 2 * p && Pow2(t) == 2 * p;
  }

  lemma BitForm(man: nat, p: nat)
    requires p > 0
    ensures RoundBits(man, 2 * p, p) <==> RoundsUp(Floor(man, 2 * p), man % (2 * p), 2 * p)
  {
    hide RoundsUp;
    LowBits(man, p);
    FloorBound(man, p);
    MaskBits(man / p % 2, p, man % p, man % (2 * p), Floor(man, 2 * p));
  }

  lemma MaskBits(bit: nat, p: nat, low: nat, t: nat, f: int)
    requires bit < 2 && low < p && t == bit * p + low && 0 <= f
    ensures bit == 1 && (low > 0 || f % 2 == 1) <==> RoundsUp(f, t, 2 * p)
  {
    assert bit * p == if bit == 1 then p else 0;
  }

  lemma WordForm(man: nat, t: nat)
    requires t <= 32
    ensures 0 <= Kept(man, t) && 0 <= Dropped(man, t) < WORD
    ensures RoundsUp(Kept(man, t), Dropped(man, t), WORD)
       <==> RoundsUp(Floor(man, Pow2(t)), man % Pow2(t), Pow2(t))
  {
    hide Pow2;
    var p, k, r := Pow2(t), Pow2(32 - t), man % Pow2(t);
    Pow2Sum(32 - t, t);
    PowersOfTwo();
    FloorBound(man, p);
    BelowProduct(r, p, k);
    ScaleCompare(r, p, k);
  }

  lemma ScaleCompare(r: nat, p: nat, k: nat)
    requires k > 0
    ensures 2 * (r * k) > k * p <==> 2 * r > p
    ensures 2 * (r * k) == k * p <==> 2 * r == p
  {
    assert 2 * (r * k) == (2 * r) * k && k * p == p * k;
    if 2 * r < p { MulStrict(2 * r, p, k); }
    if 2 * r > p { MulStrict(p, 2 * r, k); }
  }

  /** Mantissa and trunc word after `t` rounds of shifting the last bit out into the word. */
  function Register(man: nat, t: nat): (nat, uint32) {
    if t == 0 then (man, 0)
    else
      var (m, trunc) := Register(man, t - 1);
      (m / 2, ShiftIn(m % 2, trunc))
  }

  /** All 32 places of the register fill up without losing a bit. */
  lemma {:induction false} RegisterHolds(man: nat, t: nat)
    requires t <= 32
    ensures Register(man, t).0 == Kept(man, t) && Register(man, t).1 == Dropped(man, t)
  {
    hide ShiftIn;
    if t == 0 {
      assert Pow2(0) == 1;
    } else {
      hide Kept, Dropped;
      RegisterHolds(man, t - 1);
      ShiftRegister(man, t - 1);
    }
  }

  /** The bits of a trunc word that the rounding looks at: the top one, and whether any other is set. */
  function RoundByWord(man: nat, trunc: uint32): int {
    ManRoundToNearest(man % 2 == 1, trunc >= TOP_BIT, trunc % TOP_BIT > 0, man, 0)
  }

  lemma WordBits(man: nat, trunc: uint32)
    ensures RoundByWord(man, trunc) == man + (if RoundsUp(man, trunc, WORD) then 1 else 0)
  {
    Pow2Small();
  }

  /**
   * The three rounding forms of the source agree: the mask test, the trunc word filled bit by bit, and
   * the trunc word cut out by a mask and shifted up at once. Each gives the nearest integer.
   */
  lemma RoundingFormsAgree(man: nat, t: nat)
    requires 2 <= t <= 32
    ensures 0 <= Kept(man, t) && 0 <= Dropped(man, t) < WORD
    ensures Kept(man, t) + (if IsRoundOne(man, t) then 1 else 0) == RoundEven(man, Pow2(t))
    ensures RoundByWord(Register(man, t).0, Register(man, t).1) == RoundEven(man, Pow2(t))
    ensures RoundByWord(Kept(man, t), Dropped(man, t)) == RoundEven(man, Pow2(t))
    ensures NearestInteger(RoundEven(man, Pow2(t)), man, Pow2(t))
  {
    hide Pow2, IsRoundOne, NearestInteger, RoundsUp, RoundByWord, Register;
    MaskForm(man, t);
    WordForm(man, t);
    RegisterHolds(man, t);
    WordBits(Kept(man, t), Dropped(man, t));
    RoundEvenIsNearest(man, Pow2(t));
  }

  /** Rounding depends only on the rational number. */
  lemma RoundEvenScaled(n: nat, q: nat, c: nat)
    requires q > 0 && c > 0
    ensures q * c > 0
    ensures RoundEven(n * c, q * c) == RoundEven(n, q)
  {
    var f, t := Floor(n, q), n % q;
    assert n == f * q + t;
    assert n * c == f * (q * c) + t * c;
    assert 0 <= t * c < q * c by { MulStrict(t, q, c); }
    DivModUnique(n * c, q * c, f, t * c);
    ScaleCompare(t, q, c);
  }
}
