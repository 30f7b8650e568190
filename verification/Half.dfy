/**
 * The binary16 format: bit fields, exact values and what it means to be correctly rounded.
 *
 * Exact values are integers in units of 2^-24, the smallest positive half. A half without its
 * sign is a code in 0..0x7FFF; codes are ordered like the values they stand for, and parity
 * of the code is parity of the last mantissa bit.
 */
module Half {
  import opened Powers

  type uint16 = x: int | 0 <= x < 0x1_0000
  type uint32 = x: int | 0 <= x < 0x1_0000_0000
  type uint64 = x: int | 0 <= x < 0x1_0000_0000_0000_0000

  const HIDE_BIT: nat := 0x400
  const MAX_EXP: nat := 0x1F
  const MAX_MAN: nat := 0x3FF
  const EXP_BIAS: nat := 15
  const MAN_LEN: nat := 10
  const WORD: nat := 0x1_0000_0000
  const TOP_BIT: nat := 0x8000_0000

  /** First code that is not a finite half. */
  const FIRST_INVALID: nat := 0x7C00

  /** 65520 in units of 2^-24: half way between the largest half and the next power of two. */
  const OVERFLOW: nat := 4095 * 0x1000_0000

  // ----- bit fields

  function SignBit(h: uint16): (s: nat)
    ensures s < 2
  {
    h / 0x8000
  }

  function ExpField(h: uint16): (e: nat)
    ensures e < 32
  {
    h / 0x400 % 0x20
  }

  /** The mantissa with the hidden bit put in front when the exponent field is not zero. */
  function ManField(h: uint16): (m: nat)
    ensures m < 2048 && (ExpField(h) > 0 <==> HIDE_BIT <= m)
  {
    h % 0x400 + (if ExpField(h) > 0 then HIDE_BIT else 0)
  }

  function Construct(s: nat, e: nat, m: nat): (h: uint16)
    requires s < 2 && e < 32
  {
    s * 0x8000 + e * 0x400 + m % 0x400
  }

  function Code(h: uint16): (c: nat)
    ensures c < 0x8000
  {
    h % 0x8000
  }

  // ----- exact values

  /**
   * Value of a code in units of 2^-24. Exponent field 31 is read as one more binade, which is
   * what the arithmetic does with it.
   */
  function CodeValue(c: nat): nat {
    if c < HIDE_BIT then c else (HIDE_BIT + c % HIDE_BIT) * Pow2(c / HIDE_BIT - 1)
  }

  function Value(h: uint16): int {
    Signed(SignBit(h) == 1, CodeValue(Code(h)))
  }

  function Signed(negative: bool, magnitude: nat): int {
    if negative then -(magnitude as int) else magnitude
  }

  /** The exponent used in arithmetic: subnormal halves share exponent 1 with the lowest binade. */
  function EffectiveExp(h: uint16): (e: nat)
    ensures 1 <= e < 32
  {
    if ExpField(h) == 0 then 1 else ExpField(h)
  }

  /** A mantissa of up to eleven bits at exponent `e` has code `(e - 1) * 1024 + m`. */
  lemma CodeOfMantissa(e: nat, m: nat)
    requires 1 <= e && m <= 2048 && (e == 1 || HIDE_BIT <= m)
    ensures CodeValue((e - 1) * 0x400 + m) == m * Pow2(e - 1)
  {
    var c := (e - 1) * 0x400 + m;
    if m == 2048 {
      DivModUnique(c, 0x400, e + 1, 0);
      assert Pow2(e) == 2 * Pow2(e - 1);
    } else if HIDE_BIT <= m {
      DivModUnique(c, 0x400, e, m - HIDE_BIT);
    } else {
      assert Pow2(0) == 1;
    }
  }

  lemma FieldsOfCode(h: uint16)
    ensures Code(h) == (EffectiveExp(h) - 1) * 0x400 + ManField(h)
    ensures CodeValue(Code(h)) == ManField(h) * Pow2(EffectiveExp(h) - 1)
  {
    CodeOfMantissa(EffectiveExp(h), ManField(h));
  }

  /**
   * The binary16 format (section 3.4 of IEEE 754-2008): sign, five exponent bits, ten fraction bits, and
   * the value they denote in units of 2^-24.
   */
  lemma HalfLayout(h: uint16, s: nat, e: nat, f: nat)
    requires s < 2 && e < 32 && f < 1024
    ensures h == s * 0x8000 + e * 0x400 + f
       <==> SignBit(h) == s && ExpField(h) == e && ManField(h) == if e == 0 then f else 1024 + f
    ensures h == s * 0x8000 + e * 0x400 + f ==>
              var magnitude: int := if e == 0 then f else (1024 + f) * Pow2(e - 1);
              Value(h) == if s == 1 then -magnitude else magnitude
    ensures h == s * 0x8000 + e * 0x400 + f ==> Code(h) == e * 0x400 + f && Construct(s, e, f) == h
  {
    hide Pow2, CodeValue, EffectiveExp;
    BitFields(h, s, e, f);
    if h == s * 0x8000 + e * 0x400 + f {
      ValueOfFields(h);
    }
  }

  lemma BitFields(h: uint16, s: nat, e: nat, f: nat)
    requires s < 2 && e < 32 && f < 1024
    ensures h == s * 0x8000 + e * 0x400 + f <==> h / 0x8000 == s && h / 0x400 % 0x20 == e && h % 0x400 == f
    ensures h == s * 0x8000 + e * 0x400 + f ==> h % 0x8000 == e * 0x400 + f
  {
    assert h == h / 0x8000 * 0x8000 + h / 0x400 % 0x20 * 0x400 + h % 0x400;
  }

  lemma ValueOfFields(h: uint16)
    ensures CodeValue(Code(h)) == if ExpField(h) == 0 then ManField(h) else ManField(h) * Pow2(ExpField(h) - 1)
  {
    hide Pow2, CodeValue, ManField, ExpField, Code;
    FieldsOfCode(h);
    Pow2Small();
  }

  lemma CodeStep(c: nat)
    ensures CodeValue(c) < CodeValue(c + 1)
  {
    if c < HIDE_BIT {
      CodeOfMantissa(1, c + 1);
      assert Pow2(0) == 1;
    } else {
      var e, m := c / HIDE_BIT, HIDE_BIT + c % HIDE_BIT;
      assert c == (e - 1) * 0x400 + m;
      CodeOfMantissa(e, m);
      CodeOfMantissa(e, m + 1);
      MulStrict(m, m + 1, Pow2(e - 1));
    }
  }

  lemma {:induction false} CodeMonotone(a: nat, b: nat)
    requires a <= b
    ensures CodeValue(a) <= CodeValue(b)
    ensures a < b ==> CodeValue(a) < CodeValue(b)
  {
    if a < b {
      CodeMonotone(a, b - 1);
      CodeStep(b - 1);
    }
  }

  // ----- correct rounding

  function Abs(x: int): nat {
    if x < 0 then -x else x
  }

  /** Distance from the exact value `n / d` to the value of code `c`, scaled by `d`. */
  function Distance(c: nat, n: nat, d: nat): nat {
    Abs(n - d * CodeValue(c))
  }

  /**
   * `c` is the finite half nearest to `n / d`, and when another finite half is equally near, `c`
   * has an even last bit (section 4.3.1 of IEEE 754-2008).
   */
  ghost predicate Nearest(c: nat, n: nat, d: nat) {
    && c < FIRST_INVALID
    && forall k: nat :: k < FIRST_INVALID && k != c ==>
         Distance(c, n, d) <= Distance(k, n, d)
         && (Distance(c, n, d) == Distance(k, n, d) ==> c % 2 == 0)
  }

  /** Round up a quantity `m + t / q`, ties to even. */
  predicate RoundsUp(m: nat, t: nat, q: nat) {
    2 * t > q || (2 * t == q && m % 2 == 1)
  }

  /**
   * `r` is the nearer of the neighbouring codes `c` and `c + 1`, whose scaled values are `lo` and
   * `hi`; the even one on a tie.
   */
  predicate PicksNearer(c: nat, r: nat, n: nat, lo: nat, hi: nat) {
    && lo <= n <= hi
    && r == if 2 * n < lo + hi || (2 * n == lo + hi && c % 2 == 0) then c else c + 1
  }

  lemma Farther(c: nat, k: nat, n: nat, d: nat)
    requires d > 0 && c != k
    requires k < c ==> d * CodeValue(c) <= n
    requires c < k ==> n <= d * CodeValue(c)
    ensures Distance(c, n, d) < Distance(k, n, d)
  {
    hide CodeValue;
    if k < c {
      ScaledOrder(k, c, d);
    } else {
      ScaledOrder(c, k, d);
    }
  }

  /** Picking the nearer of the two codes around a value makes the choice nearest over all codes. */
  lemma NearestOfBracket(c: nat, r: nat, n: nat, d: nat)
    requires d > 0 && PicksNearer(c, r, n, d * CodeValue(c), d * CodeValue(c + 1))
    requires r < FIRST_INVALID
    ensures Nearest(r, n, d)
  {
    hide CodeValue;
    forall k: nat | k < FIRST_INVALID && k != r
      ensures Distance(r, n, d) <= Distance(k, n, d)
      ensures Distance(r, n, d) == Distance(k, n, d) ==> r % 2 == 0
    {
      if k < c {
        Farther(c, k, n, d);
      } else if k > c + 1 {
        Farther(c + 1, k, n, d);
      }
    }
  }

  /** Nearest determines the code. */
  lemma NearestUnique(a: nat, b: nat, n: nat, d: nat)
    requires d > 0 && Nearest(a, n, d) && Nearest(b, n, d)
    ensures a == b
  {
    hide CodeValue;
    if a < b {
      TwoNearest(a, b, n, d);
    } else if b < a {
      TwoNearest(b, a, n, d);
    }
  }

  /** Two even codes have a code between them, which would be nearer than both. */
  lemma TwoNearest(a: nat, b: nat, n: nat, d: nat)
    requires d > 0 && a < b
    ensures !(Nearest(a, n, d) && Nearest(b, n, d))
  {
    hide CodeValue;
    if Nearest(a, n, d) && Nearest(b, n, d) {
      var x, y, z := d * CodeValue(a), d * CodeValue(a + 1), d * CodeValue(b);
      Tie(a, b, n, d);
      ScaledOrder(a, a + 1, d);
      ScaledOrder(a + 1, b, d);
      Between(n, x, y, z);
    }
  }

  lemma Tie(a: nat, b: nat, n: nat, d: nat)
    requires a < b && Nearest(a, n, d) && Nearest(b, n, d)
    ensures a + 1 < b
    ensures Distance(a, n, d) == Distance(b, n, d) <= Distance(a + 1, n, d)
  {
    hide CodeValue;
    assert Distance(a, n, d) == Distance(b, n, d);
  }

  lemma ScaledOrder(a: nat, b: nat, d: nat)
    requires d > 0 && a < b
    ensures d * CodeValue(a) < d * CodeValue(b)
  {
    hide CodeValue;
    CodeMonotone(a, b);
    MulStrict(CodeValue(a), CodeValue(b), d);
  }

  lemma Between(n: int, x: int, y: int, z: int)
    requires x < y < z && Abs(n - x) == Abs(n - z)
    ensures Abs(n - y) < Abs(n - x)
  {}

  /** An exact half is nearest to itself. */
  lemma NearestExact(c: nat, n: nat, d: nat)
    requires d > 0 && c < FIRST_INVALID && n == d * CodeValue(c)
    ensures Nearest(c, n, d)
  {
    hide CodeValue;
    forall k: nat | k < FIRST_INVALID && k != c
      ensures Distance(c, n, d) < Distance(k, n, d)
    {
      Farther(c, k, n, d);
    }
  }

  /** Rounding is monotone: a larger exact value never rounds to a smaller half. */
  lemma NearestMonotone(a: nat, n: nat, d: nat, b: nat, n': nat, d': nat)
    requires d > 0 && d' > 0 && n * d' <= n' * d
    requires Nearest(a, n, d) && Nearest(b, n', d')
    ensures a <= b
  {
    hide CodeValue;
    if b < a {
      var s := CodeValue(a) + CodeValue(b);
      NotBelowMidpoint(a, b, n, d);
      NotAboveMidpoint(a, b, n', d');
      CrossEqual(n, d, n', d', s);
      CrossNearest(b, n, d, n', d');
      NearestUnique(a, b, n, d);
    }
  }

  lemma CrossEqual(n: nat, d: nat, n': nat, d': nat, s: nat)
    requires d > 0 && d' > 0 && n * d' <= n' * d
    requires 2 * n >= d * s && 2 * n' <= d' * s
    ensures n * d' == n' * d
  {
    MulMonotone(d * s, 2 * n, d');
    MulMonotone(2 * n', d' * s, d);
    assert (d * s) * d' == (d' * s) * d;
    assert (2 * n) * d' == 2 * (n * d') && (2 * n') * d == 2 * (n' * d);
  }

  /** What nearness to one of two codes says about the midpoint between them. */
  lemma NotBelowMidpoint(a: nat, b: nat, n: nat, d: nat)
    requires d > 0 && b < a && Nearest(a, n, d)
    ensures 2 * n >= d * (CodeValue(a) + CodeValue(b))
  {
    hide CodeValue;
    ScaledOrder(b, a, d);
    assert d * (CodeValue(a) + CodeValue(b)) == d * CodeValue(a) + d * CodeValue(b);
    assert Distance(a, n, d) <= Distance(b, n, d);
  }

  lemma NotAboveMidpoint(a: nat, b: nat, n: nat, d: nat)
    requires d > 0 && b < a < FIRST_INVALID && Nearest(b, n, d)
    ensures 2 * n <= d * (CodeValue(a) + CodeValue(b))
  {
    hide CodeValue;
    ScaledOrder(b, a, d);
    assert d * (CodeValue(a) + CodeValue(b)) == d * CodeValue(a) + d * CodeValue(b);
    assert Distance(b, n, d) <= Distance(a, n, d);
  }

  /** Nearness depends only on the rational number `n / d`. */
  lemma CrossNearest(c: nat, n: nat, d: nat, n': nat, d': nat)
    requires d > 0 && d' > 0 && n * d' == n' * d && Nearest(c, n', d')
    ensures Nearest(c, n, d)
  {
    hide CodeValue;
    forall k: nat
      ensures Distance(k, n, d) * d' == Distance(k, n', d') * d
    {
      var v := CodeValue(k);
      calc {
        (n - d * v) * d';
        n * d' - (d * v) * d';
        { assert (d * v) * d' == (d' * v) * d; }
        n' * d - (d' * v) * d;
        (n' - d' * v) * d;
      }
      AbsMul(n - d * v, d');
      AbsMul(n' - d' * v, d);
    }
    forall k: nat | k < FIRST_INVALID && k != c
      ensures Distance(c, n, d) <= Distance(k, n, d)
      ensures Distance(c, n, d) == Distance(k, n, d) ==> c % 2 == 0
    {
      var x, y := Distance(c, n, d), Distance(k, n, d);
      var x', y' := Distance(c, n', d'), Distance(k, n', d');
      assert x * d' == x' * d && y * d' == y' * d;
      assert x' <= y';
      MulMonotone(x', y', d);
      if y < x { MulStrict(y, x, d'); }
      if x == y && x' != y' { MulStrict(x', y', d); }
    }
  }

  lemma AbsMul(x: int, k: nat)
    ensures Abs(x * k) == Abs(x) * k
  {}

  /**
   * One rounding step. The exact value is `(m + t / q) * 2^(e - 1)` with `m` normalised for `e`;
   * the code picked is right as long as it is a finite half, and it fails to be one exactly
   * when the value reaches 65520.
   */
  lemma RoundStep(e: nat, m: nat, t: nat, q: nat, n: nat, d: nat)
    requires 1 <= e && m < 2048 && (e == 1 || HIDE_BIT <= m)
    requires t < q && d > 0
    requires n * q == d * ((m * q + t) * Pow2(e - 1))
    ensures var r := (e - 1) * 0x400 + m + (if RoundsUp(m, t, q) then 1 else 0);
            && (n < d * OVERFLOW <==> r < FIRST_INVALID)
            && (n < d * OVERFLOW ==> Nearest(r, n, d))
  {
    hide CodeValue;
    var c := (e - 1) * 0x400 + m;
    var r := if RoundsUp(m, t, q) then c + 1 else c;
    PicksByRemainder(e, m, t, q, n, d);
    if r < FIRST_INVALID {
      NearestOfBracket(c, r, n, d);
    }
    OverflowThreshold(c, r, n, d);
  }

  lemma PicksByRemainder(e: nat, m: nat, t: nat, q: nat, n: nat, d: nat)
    requires 1 <= e && m < 2048 && (e == 1 || HIDE_BIT <= m)
    requires t < q && d > 0
    requires n * q == d * ((m * q + t) * Pow2(e - 1))
    ensures var c := (e - 1) * 0x400 + m;
            PicksNearer(c, if RoundsUp(m, t, q) then c + 1 else c, n, d * CodeValue(c), d * CodeValue(c + 1))
  {
    hide CodeValue, Pow2, PicksNearer, RoundsUp;
    var c, p := (e - 1) * 0x400 + m, Pow2(e - 1);
    CodeOfMantissa(e, m);
    CodeOfMantissa(e, m + 1);
    Bracket(m, t, q, n, d, p);
    SameParity(e, m);
    PicksBetween(c, m, t, q, n, d * (m * p), d * ((m + 1) * p));
  }

  lemma SameParity(e: nat, m: nat)
    requires 1 <= e
    ensures ((e - 1) * 0x400 + m) % 2 == m % 2
  {}

  lemma PicksBetween(c: nat, m: nat, t: nat, q: nat, n: nat, lo: nat, hi: nat)
    requires lo <= n <= hi && c % 2 == m % 2
    requires 2 * t < q <==> 2 * n < lo + hi
    requires 2 * t == q <==> 2 * n == lo + hi
    ensures PicksNearer(c, if RoundsUp(m, t, q) then c + 1 else c, n, lo, hi)
  {}

  lemma Bracket(m: nat, t: nat, q: nat, n: nat, d: nat, p: nat)
    requires t < q && d > 0 && p > 0
    requires n * q == d * ((m * q + t) * p)
    ensures d * (m * p) <= n <= d * ((m + 1) * p)
    ensures 2 * t < q <==> 2 * n < d * (m * p) + d * ((m + 1) * p)
    ensures 2 * t == q <==> 2 * n == d * (m * p) + d * ((m + 1) * p)
  {
    // n * q == a * q + b * t where a = d * m * p is the lower end and b = d * p the spacing
    var a, b := d * (m * p), d * p;
    assert b > 0;
    calc {
      n * q;
      d * ((m * q + t) * p);
      { assert (m * q + t) * p == (m * p) * q + p * t; }
      d * ((m * p) * q + p * t);
      d * ((m * p) * q) + d * (p * t);
      { MulAssoc(d, m * p, q); MulAssoc(d, p, t); }
      a * q + b * t;
    }
    assert d * ((m + 1) * p) == a + b by { assert (m + 1) * p == m * p + p; }
    Scaled(n, a, b, t, q);
  }

  lemma Scaled(n: nat, a: nat, b: nat, t: nat, q: nat)
    requires t < q && b > 0 && n * q == a * q + b * t
    ensures a <= n < a + b
    ensures 2 * t < q <==> 2 * n < 2 * a + b
    ensures 2 * t == q <==> 2 * n == 2 * a + b
  {
    var k := n - a;
    assert k * q == b * t;
    assert b * t >= 0;
    if k < 0 { MulStrict(k, 0, q); }
    MulStrict(t, q, b);
    assert t * b == b * t && q * b == b * q;
    if k >= b { MulMonotone(b, k, q); }
    assert (2 * k) * q == b * (2 * t);
    if 2 * t < q {
      MulStrict(2 * t, q, b);
      if 2 * k >= b { MulMonotone(b, 2 * k, q); }
    } else if 2 * t == q {
      if 2 * k < b { MulStrict(2 * k, b, q); }
      if 2 * k > b { MulStrict(b, 2 * k, q); }
    } else {
      MulStrict(q, 2 * t, b);
      if 2 * k <= b { MulMonotone(2 * k, b, q); }
    }
  }

  lemma OverflowThreshold(c: nat, r: nat, n: nat, d: nat)
    requires d > 0 && PicksNearer(c, r, n, d * CodeValue(c), d * CodeValue(c + 1))
    ensures r < FIRST_INVALID <==> n < d * OVERFLOW
  {
    hide CodeValue;
    TopCodesScaled(d);
    if c < 0x7BFF {
      ScaledMonotone(c + 1, 0x7BFF, d);
    } else if c > 0x7BFF {
      ScaledMonotone(FIRST_INVALID, c, d);
    }
    ThresholdOrder(c, r, n, d * CodeValue(c), d * CodeValue(c + 1),
                   d * CodeValue(0x7BFF), d * CodeValue(FIRST_INVALID), d * OVERFLOW);
  }

  lemma ScaledMonotone(a: nat, b: nat, d: nat)
    requires a <= b
    ensures d * CodeValue(a) <= d * CodeValue(b)
  {
    hide CodeValue;
    CodeMonotone(a, b);
    MulMonotone(CodeValue(a), CodeValue(b), d);
  }

  lemma ThresholdOrder(c: nat, r: nat, n: nat, x: nat, y: nat, lo: nat, hi: nat, t: nat)
    requires PicksNearer(c, r, n, x, y) && lo + hi == 2 * t && lo < t < hi
    requires c < 0x7BFF ==> y <= lo
    requires c == 0x7BFF ==> x == lo && y == hi
    requires c > 0x7BFF ==> hi <= x
    ensures r < FIRST_INVALID <==> n < t
  {}

  lemma TopCodesScaled(d: nat)
    requires d > 0
    ensures d * CodeValue(0x7BFF) + d * CodeValue(FIRST_INVALID) == 2 * (d * OVERFLOW)
    ensures d * CodeValue(0x7BFF) < d * OVERFLOW < d * CodeValue(FIRST_INVALID)
  {
    hide CodeValue;
    TopCodes();
    MulStrict(CodeValue(0x7BFF), OVERFLOW, d);
    MulStrict(OVERFLOW, CodeValue(FIRST_INVALID), d);
    assert d * (CodeValue(0x7BFF) + CodeValue(FIRST_INVALID)) == d * (2 * OVERFLOW);
  }

  lemma TopCodes()
    ensures CodeValue(0x7BFF) + CodeValue(FIRST_INVALID) == 2 * OVERFLOW
    ensures CodeValue(0x7BFF) < OVERFLOW < CodeValue(FIRST_INVALID)
  {
    CodeOfMantissa(30, 2047);
    CodeOfMantissa(31, 1024);
    assert Pow2(29) == 0x2000_0000 && Pow2(30) == 0x4000_0000 by { PowersOfTwo(); }
  }
}
