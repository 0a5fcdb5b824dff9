/** The machine digit of BigDigits: 32 or 64 bits, with wrap-around arithmetic. */
module Digits {
  import opened Arith

  type HalfBits = h: nat | h == 16 || h == 32 witness 16

  /** BITS_PER_HALF_DIGIT: either build of the library. */
  const HALF_BITS: HalfBits
  const BITS: nat := 2 * HALF_BITS

  /** One more than MAX_HALF_DIGIT. */
  const B: nat := Pow2(HALF_BITS)
  /** One more than MAX_DIGIT. */
  const BASE: nat := Pow2(BITS)
  const MAX_DIGIT: Digit := BASE - 1

  type Digit = d: nat | d < BASE

  function Pow2(n: nat): (r: nat)
    ensures r >= 1
  {
    PowPos(2, n); Pow(2, n)
  }

  lemma BaseIsSquare()
    ensures BASE == B * B
  {
    PowAdd(2, HALF_BITS, HALF_BITS);
  }

  lemma Sizes()
    ensures B >= 65536 && BASE >= 65536 * B
  {
    BaseIsSquare();
    PowMono(2, 16, HALF_BITS);
    SixteenBits();
    MulLe(65536, B, B);
  }

  lemma SixteenBits()
    ensures Pow(2, 16) == 65536
  {
    PowAdd(2, 4, 4);
    PowAdd(2, 8, 8);
  }

  lemma BaseIsEven()
    ensures BASE == 2 * Pow(2, BITS - 1) && B == 2 * Pow(2, HALF_BITS - 1)
  {}

  /** Addition modulo 2^BITS. */
  function AddW(x: Digit, y: Digit): (r: Digit)
  {
    if x + y < BASE then x + y else x + y - BASE
  }

  /** Subtraction modulo 2^BITS. */
  function SubW(x: Digit, y: Digit): (r: Digit)
  {
    if x >= y then x - y else x - y + BASE
  }

  /** Multiplication modulo 2^BITS. */
  function MulW(x: nat, y: nat): (r: Digit)
    ensures 0 <= x * y < BASE ==> r == x * y
  {
    if 0 <= x * y < BASE then x * y else (x * y) % BASE
  }

  /** The three operations are reduction modulo the word size. */
  lemma WordArithmetic(x: Digit, y: Digit)
    ensures AddW(x, y) == (x + y) % BASE
    ensures SubW(x, y) == (x - y) % BASE
    ensures MulW(x, y) == (x * y) % BASE
  {
    DivModUnique(x + y, BASE, if x + y < BASE then 0 else 1, AddW(x, y));
    DivModUnique(x - y, BASE, if x >= y then 0 else -1, SubW(x, y));
    if 0 <= x * y < BASE { DivModUnique(x * y, BASE, 0, x * y); }
  }

  function LoHalf(x: Digit): (r: Digit)
    ensures r < B
  {
    Sizes(); x % B
  }

  function HiHalf(x: Digit): (r: Digit)
    ensures r < B && x == r * B + LoHalf(x)
  {
    HalfLess(x);
    x / B
  }

  lemma HalfLess(x: Digit)
    ensures 0 <= x / B < B < BASE
  {
    Sizes();
    BaseIsSquare();
    QuotientLess(x, B, B);
  }

  /** A digit below `B` is its own low half. */
  lemma SmallHalf(x: Digit)
    requires x < B
    ensures LoHalf(x) == x && HiHalf(x) == 0
  {
    DivModUnique(x, B, 0, x);
  }

  /** TOHIGH: a shift left by half a digit, dropping the high half. */
  function ToHigh(x: Digit): (r: Digit)
    ensures r == LoHalf(x) * B
  {
    ToHighIs(x);
    (x * B) % BASE
  }

  lemma ToHighIs(x: Digit)
    ensures (x * B) % BASE == LoHalf(x) * B < BASE
  {
    BaseIsSquare();
    ShiftHalf(HiHalf(x), LoHalf(x), B);
  }

  /** A half digit joined below another: the `TOHIGH(h) | l` of the source. */
  function Join(h: Digit, l: Digit): (r: Digit)
    requires l < B
    ensures r == LoHalf(h) * B + l
  {
    JoinIsSum(LoHalf(h), l);
    BitOr(ToHigh(h), l)
  }

  lemma JoinIsSum(h: nat, l: nat)
    requires h < B && l < B
    ensures 0 <= h * B && BitOr(h * B, l) == h * B + l < BASE
  {
    JoinFits(h, l);
    OrDisjoint(h, l, HALF_BITS, B);
  }

  lemma JoinFits(h: nat, l: nat)
    requires h < B && l < B
    ensures 0 <= h * B && h * B + l < BASE
  {
    hide Pow;
    BaseIsSquare();
    MulLe(0, h, B);
    MulLe(h, B - 1, B);
    Spread(B, -1, B);
  }

  lemma OrDigits(x: Digit, y: Digit)
    ensures BitOr(x, y) < BASE
  {
    assert BASE == Pow(2, BITS);
    OrBound(x, y, BITS);
  }

  /** The normalisation test `v & HIBITMASK`. */
  predicate HighBit(v: Digit) {
    Bit(v, BITS - 1)
  }

  lemma HighBitIs(v: Digit)
    ensures HighBit(v) <==> 2 * v >= BASE
  {
    BaseIsEven();
    var h := Pow(2, BITS - 1);
    DivModUnique(v, h, if v < h then 0 else 1, if v < h then v else v - h);
  }
}
