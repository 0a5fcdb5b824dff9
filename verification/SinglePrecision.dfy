/** Double-digit multiply and divide built from half digits (bigdigits.c, default routines). */
module SinglePrecision {
  import opened Arith
  import opened Digits

  lemma HalfProduct(x: nat, y: nat)
    requires x < B && y < B
    ensures 0 <= x * y <= (B - 1) * (B - 1) < BASE
  {
    Sizes();
    BaseIsSquare();
    MulLe(x, B - 1, y);
    MulLe(y, B - 1, B - 1);
    assert (B - 1) * (B - 1) == BASE - 2 * B + 1;
  }

  lemma DigitProduct(x: Digit, y: Digit)
    ensures 0 <= x * y <= (BASE - 1) * (BASE - 1) < BASE * BASE
  {
    MulLe(x, BASE - 1, y);
    MulLe(y, BASE - 1, BASE - 1);
  }

  /** A product of half digits does not wrap. */
  method HalfMul(x: Digit, y: Digit) returns (p: Digit)
    requires x < B && y < B
    ensures p == x as int * y as int && p <= (B - 1) * (B - 1)
  {
    HalfProduct(x, y);
    p := MulW(x, y);
  }

  /** The double digit `p1:p0` is the full product. */
  method SpMultiply(x: Digit, y: Digit) returns (p0: Digit, p1: Digit)
    ensures p1 * BASE + p0 == x * y
  {
    hide MulW, Pow2, LoHalf, HiHalf, ToHigh;
    Sizes();
    HalvesOf(x);
    HalvesOf(y);
    var x0, x1, y0, y1 := LoHalf(x), HiHalf(x), LoHalf(y), HiHalf(y);
    p0 := HalfMul(x0, y0);
    var t := HalfMul(x0, y1);
    var u := HalfMul(x1, y0);
    ghost var low, cross := p0 as int, t as int + u as int;
    t := AddW(t, u);
    var carry: Digit := if t < u then 1 else 0;
    ghost var top := carry;
    assert t + top * BASE == cross;
    CarryHalf(carry, t);
    carry := AddW(ToHigh(carry), HiHalf(t));
    ghost var hi, lo := HiHalf(t), LoHalf(t);
    HalvesOf(t);
    t := ToHigh(t);
    p0 := AddW(p0, t);
    if p0 < t {
      carry := AddW(carry, 1);
    }
    ghost var c := if p0 < t then 1 else 0;
    assert p0 + c * BASE == low + lo * B;
    p1 := HalfMul(x1, y1);
    ghost var q := p1 + carry;
    ProductSplit(x0, x1, y0, y1, hi, lo, top, c, p0);
    HighPart(x, y, q, p0);
    p1 := AddW(p1, carry);
  }

  lemma HalvesOf(x: Digit)
    ensures x == HiHalf(x) * B + LoHalf(x) && HiHalf(x) < B && LoHalf(x) < B
  {}

  lemma HighPart(x: Digit, y: Digit, q: int, p0: Digit)
    requires q * BASE + p0 == x as int * y as int
    ensures q < BASE
  {
    DigitProduct(x, y);
    CancelLt(q, BASE, BASE);
  }

  lemma CarryHalf(carry: Digit, t: Digit)
    requires carry <= 1
    ensures ToHigh(carry) == carry * B && carry * B + HiHalf(t) + 1 < BASE
  {
    Sizes();
    SmallHalf(carry);
    MulLe(carry, 1, B);
  }

  lemma ProductSplit(x0: int, x1: int, y0: int, y1: int, hi: int, lo: int, top: int, c: int, p0: int)
    requires hi * B + lo + top * BASE == x0 * y1 + x1 * y0
    requires p0 + c * BASE == x0 * y0 + lo * B
    ensures (x1 * y1 + top * B + hi + c) * BASE + p0 == (x1 * B + x0) * (y1 * B + y0)
  {
    BaseIsSquare();
    SplitPlain(x0, x1, y0, y1, hi, lo, top, c, p0, B, BASE);
  }

  lemma SplitPlain(x0: int, x1: int, y0: int, y1: int, hi: int, lo: int, top: int, c: int, p0: int, b: int, bb: int)
    requires hi * b + lo + top * bb == x0 * y1 + x1 * y0
    requires p0 + c * bb == x0 * y0 + lo * b && bb == b * b
    ensures (x1 * y1 + top * b + hi + c) * bb + p0 == (x1 * b + x0) * (y1 * b + y0)
  {
    HalvesProduct(x0, x1, y0, y1, b);
    Spread(hi * b + lo, top * bb, b);
    Spread(hi * b, lo, b);
    Assoc(hi, b, b);
    Assoc(top, bb, b);
    Assoc(top, b, bb);
    Spread(x1 * y1 + top * b + hi, c, bb);
    Spread(x1 * y1 + top * b, hi, bb);
    Spread(x1 * y1, top * b, bb);
  }

  lemma HalvesProduct(x0: int, x1: int, y0: int, y1: int, b: int)
    ensures (x1 * b + x0) * (y1 * b + y0) == x1 * y1 * (b * b) + (x0 * y1 + x1 * y0) * b + x0 * y0
  {
    var y := y1 * b + y0;
    Spread(x1 * b, x0, y);
    assert x1 * b * y == x1 * y1 * (b * b) + x1 * y0 * b;
    assert x0 * y == x0 * y1 * b + x0 * y0;
    Spread(x0 * y1, x1 * y0, b);
  }

  /** The carry out of the middle sum `t`, which the source drops. */
  function Dropped(qhat: nat, v1: nat, v0: nat): int {
    if qhat * v0 + ((qhat * v1) % B) * B < BASE then 0 else 1
  }

  /**
   * `u1:u0 - qhat * (v1:v0)` on half digits, modulo two digits: the high digit is one too large where the carry
   * out of `t` is dropped. Where the difference fits one digit, that digit is right all the same.
   */
  method SpMultSub(u0: Digit, u1: Digit, qhat: Digit, v1: Digit, v0: Digit) returns (r0: Digit, r1: Digit)
    requires qhat < B && v1 < B && v0 < B
    ensures r1 * BASE + r0 ==
            (u1 * BASE + u0 - qhat * (v1 * B + v0) + Dropped(qhat, v1, v0) * BASE) % (BASE * BASE)
    ensures 0 <= u1 * BASE + u0 - qhat * (v1 * B + v0) < BASE ==>
              r0 == u1 * BASE + u0 - qhat * (v1 * B + v0) && r1 == Dropped(qhat, v1, v0)
  {
    HalfProduct(qhat, v0);
    HalfProduct(qhat, v1);
    var p0, p1 := MulW(qhat, v0), MulW(qhat, v1);
    var t := AddW(p0, ToHigh(LoHalf(p1)));
    assert LoHalf(LoHalf(p1)) == LoHalf(p1) by { SmallHalf(LoHalf(p1)); }
    ghost var dropped := if p0 + LoHalf(p1) * B < BASE then 0 else 1;
    assert t + dropped * BASE == p0 + LoHalf(p1) * B;
    assert dropped == Dropped(qhat, v1, v0);
    r0 := SubW(u0, t);
    r1 := u1;
    ghost var borrow := if u0 < t then 1 else 0;
    assert r0 == u0 - t + borrow * BASE;
    if r0 > MAX_DIGIT - t {
      r1 := SubW(r1, 1);
    }
    r1 := SubW(r1, HiHalf(p1));
    ghost var e := TopWraps(u1, borrow, HiHalf(p1), r1);
    MultSubTop(u0, u1, qhat, v1, v0, HiHalf(p1), LoHalf(p1), dropped, borrow, r0, r1, e);
  }

  /** How often the high digit wraps. */
  ghost function TopWraps(u1: Digit, k: int, hi: Digit, r1: Digit): (e: int)
    requires k == 0 || k == 1
    requires r1 == SubW(if k == 1 then SubW(u1, 1) else u1, hi)
    ensures r1 == u1 - k - hi + e * BASE
  {
    (if k == 1 && u1 < 1 then 1 else 0) + (if (if k == 1 then SubW(u1, 1) else u1) < hi then 1 else 0)
  }

  lemma MultSubTop(u0: int, u1: int, qhat: int, v1: int, v0: int, hi: int, lo: int, c: int, k: int, r0: Digit,
                   r1: Digit, e: int)
    requires qhat * v1 == hi * B + lo
    requires r0 == u0 - (qhat * v0 + lo * B - c * BASE) + k * BASE
    requires r1 == u1 - k - hi + e * BASE && 0 <= c <= 1
    ensures var r := u1 * BASE + u0 - qhat * (v1 * B + v0);
      && r1 * BASE + r0 == (r + c * BASE) % (BASE * BASE)
      && (0 <= r < BASE ==> r0 == r && r1 == c)
  {
    hide Pow, Pow2;
    HalvesTimes(qhat, v1, v0, hi, lo);
    var r := u1 * BASE + u0 - qhat * (v1 * B + v0);
    FourWords(u1, k, hi, c);
    TwoDigitWrap(u1, k, hi, c, e, r0, r1, r);
  }

  lemma HalvesTimes(q: int, v1: int, v0: int, hi: int, lo: int)
    requires q * v1 == hi * B + lo
    ensures q * (v1 * B + v0) == hi * BASE + lo * B + q * v0
  {
    hide Pow, Pow2;
    BaseIsSquare();
    Assoc(q, v1, B);
    Spread(hi * B, lo, B);
    Assoc(hi, B, B);
    assert q * (v1 * B + v0) == q * (v1 * B) + q * v0;
  }

  lemma FourWords(a: int, b: int, c: int, d: int)
    ensures (a - b - c - d) * BASE == a * BASE - b * BASE - c * BASE - d * BASE
  {}

  lemma TwoDigitWrap(u1: int, k: int, hi: int, c: int, e: int, r0: Digit, r1: Digit, r: int)
    requires r1 == u1 - k - hi + e * BASE && 0 <= c <= 1
    requires r == (u1 - k - hi - c) * BASE + r0
    ensures r1 * BASE + r0 == (r + c * BASE) % (BASE * BASE)
    ensures 0 <= r < BASE ==> r0 == r && r1 == c
  {
    hide Pow, Pow2;
    Sizes();
    var d := u1 - k - hi - c;
    WordWrap(d, c, e, r0, r1, r);
    if 0 <= r < BASE {
      NoTopDigit(d, r0, r);
      NoTopDigit(e, c, r1);
    }
  }

  lemma WordWrap(d: int, c: int, e: int, r0: Digit, r1: Digit, r: int)
    requires r1 == d + c + e * BASE && r == d * BASE + r0
    ensures r1 * BASE + r0 == (r + c * BASE) % (BASE * BASE)
  {
    hide Pow, Pow2;
    Spread(d, c, BASE);
    Spread(d + c, e * BASE, BASE);
    Assoc(e, BASE, BASE);
    MulLe(r1, BASE - 1, BASE);
    Spread(BASE, -1, BASE);
    NegatedWraps(e);
    DivModUnique(r + c * BASE, BASE * BASE, -e, r1 * BASE + r0);
  }

  lemma NegatedWraps(e: int)
    ensures -e * (BASE * BASE) == -(e * (BASE * BASE))
  {}

  lemma NoTopDigit(d: int, x: int, r: int)
    requires r == d * BASE + x && 0 <= x < BASE && 0 <= r < BASE
    ensures d == 0 && r == x
  {
    if d >= 1 { MulLe(1, d, BASE); } else if d <= -1 { MulLe(d, -1, BASE); }
  }

  /** The test of the trial quotient is exact: it fires just when the quotient is too large. */
  lemma TrialTest(w: int, u: int, v1: int, v0: int, b: int, qhat: int, rhat: int)
    requires w == qhat * v1 + rhat
    ensures qhat * v0 > rhat * b + u <==> qhat * (v1 * b + v0) > w * b + u
  {
    assert qhat * (v1 * b + v0) == (qhat * v1) * b + qhat * v0;
    assert w * b == (qhat * v1) * b + rhat * b;
  }

  /** When the partial remainder is at least `b` the test cannot fire. */
  lemma LargeRemainder(w: int, u: int, v1: int, v0: int, b: int, qhat: int, rhat: int)
    requires w == qhat * v1 + rhat && 0 <= qhat <= b && 0 <= v0 < b <= rhat && 0 <= u
    ensures qhat * (v1 * b + v0) <= w * b + u
  {
    TrialTest(w, u, v1, v0, b, qhat, rhat);
    MulLe(qhat, b, v0);
    MulLe(v0, rhat, b);
  }

  /** An unreduced trial quotient is never too small. */
  lemma TrialNotSmall(w: int, u: int, v1: int, v0: int, b: int, qhat: int)
    requires w < (qhat + 1) * v1 && 0 <= u < b && 0 <= v0 && 0 <= qhat
    ensures w * b + u < (qhat + 1) * (v1 * b + v0)
  {
    MulLe(w + 1, (qhat + 1) * v1, b);
    assert (qhat + 1) * (v1 * b + v0) == (qhat + 1) * v1 * b + (qhat + 1) * v0;
    MulLe(0, qhat + 1, v0);
  }

  /** The unreduced trial quotient is at most `B + 1`, so its product with a half digit fits. */
  lemma TrialFits(w: int, v1: int, v0: int, qhat: int)
    requires w < v1 * B + v0 && v0 < B <= 2 * v1 && 0 <= qhat && qhat * v1 <= w
    ensures qhat <= B + 1
  {
    if qhat >= B + 2 {
      MulLe(B + 2, qhat, v1);
    }
  }

  lemma TrialProductFits(qhat: int, v0: int)
    requires 0 <= qhat <= B + 1 && 0 <= v0 < B
    ensures 0 <= qhat * v0 < BASE
  {
    BaseIsSquare();
    MulLe(qhat, B + 1, v0);
    MulLe(v0, B - 1, B + 1);
  }

  /** What the estimate `qhat` with partial remainder `rhat` satisfies while it is being corrected. */
  ghost predicate Trial(w: int, u: int, v1: int, v0: int, qhat: int, rhat: int) {
    && w == qhat * v1 + rhat && 0 <= rhat
    && 0 <= qhat <= B + 1
    && w * B + u < (qhat + 1) * (v1 * B + v0)
  }

  lemma TrialStart(w: int, u: int, v1: int, v0: int)
    requires 0 <= w < v1 * B + v0 && 0 <= v0 < B <= 2 * v1 && 0 <= u < B
    ensures Trial(w, u, v1, v0, w / v1, w % v1)
  {
    hide Pow2;
    var qhat, rhat := w / v1, w % v1;
    TrialDivision(w, v1, qhat, rhat);
    TrialNotSmall(w, u, v1, v0, B, qhat);
    TrialFits(w, v1, v0, qhat);
  }

  lemma TrialDivision(w: int, v1: int, qhat: int, rhat: int)
    requires 0 <= w && 0 < v1 && qhat == w / v1 && rhat == w % v1
    ensures w == qhat * v1 + rhat && 0 <= qhat && 0 <= rhat && w < (qhat + 1) * v1
  {
    Spread(qhat, 1, v1);
  }

  /** A trial quotient of `B` or more is too large. */
  lemma TrialTooLarge(w: int, u: int, v: int, qhat: int)
    requires w < v && qhat >= B && u < B && v > 0
    ensures qhat * v > w * B + u
  {
    MulLe(w, v - 1, B);
    MulLe(B, qhat, v);
  }

  lemma TrialStep(w: int, u: int, v1: int, v0: int, qhat: int, rhat: int)
    requires Trial(w, u, v1, v0, qhat, rhat) && 0 <= v1 && 0 <= v0 && 0 <= w && 0 <= u
    requires qhat * (v1 * B + v0) > w * B + u
    ensures Trial(w, u, v1, v0, qhat - 1, rhat + v1)
  {
    if qhat == 0 { assert 0 * (v1 * B + v0) == 0; MulLe(0, w, B); }
  }

  /** Two corrections always suffice: the half-digit quotient is exact. */
  method TrialQuotient(w: Digit, u: Digit, v1: Digit, v0: Digit) returns (qhat: Digit)
    requires u < B && v1 < B && v0 < B && 2 * v1 >= B
    requires w < v1 * B + v0
    ensures qhat < B && qhat * (v1 * B + v0) <= w * B + u < (qhat + 1) * (v1 * B + v0)
  {
    hide Join, LoHalf, MulW;
    Sizes();
    TrialStart(w, u, v1, v0);
    qhat := w / v1;
    var rhat: Digit := w - qhat * v1;
    TrialProductFits(qhat, v0);
    TrialTest(w, u, v1, v0, B, qhat, rhat);
    SmallHalf(rhat);
    if qhat == B || MulW(qhat, v0) > Join(rhat, u) {
      if qhat == B { TrialTooLarge(w, u, v1 * B + v0, qhat); }
      TrialStep(w, u, v1, v0, qhat, rhat);
      qhat := qhat - 1;
      rhat := rhat + v1;
      if qhat == B { TrialTooLarge(w, u, v1 * B + v0, qhat); }
      TrialProductFits(qhat, v0);
      TrialTest(w, u, v1, v0, B, qhat, rhat);
      if rhat < B { SmallHalf(rhat); } else { LargeRemainder(w, u, v1, v0, B, qhat, rhat); }
      if rhat < B && MulW(qhat, v0) > Join(rhat, u) {
        TrialStep(w, u, v1, v0, qhat, rhat);
        qhat := qhat - 1;
        LargeRemainder(w, u, v1, v0, B, qhat, rhat + v1);
      }
    }
    if qhat >= B { TrialTooLarge(w, u, v1 * B + v0, qhat); }
  }

  lemma Rejoin(w: int, hi: int, lo: int, u: int)
    requires w == hi * B + lo
    ensures hi * BASE + (lo * B + u) == w * B + u
  {
    BaseIsSquare();
  }

  /** Rounds 2 and 3 of spDivide: one half digit of quotient. The add-back branch is dead. */
  method DivideRound(w: Digit, u: Digit, v1: Digit, v0: Digit, v: Digit) returns (qhat: Digit, r: Digit)
    requires u < B && v1 < B && v0 < B && v == v1 * B + v0 && 2 * v1 >= B
    requires w < v
    ensures qhat < B && r < v && w * B + u == qhat * v + r
  {
    hide Join, LoHalf, HiHalf;
    qhat := TrialQuotient(w, u, v1, v0);
    var top := HiHalf(w);
    SmallHalf(LoHalf(w));
    var low := Join(LoHalf(w), u);
    Rejoin(w, top, LoHalf(w), u);
    assert (qhat + 1) * v == qhat * v + v;
    r, top := SpMultSub(low, top, qhat, v1, v0);
    assert top < B by { Sizes(); }
    SmallHalf(top);
    if HiHalf(top) != 0 {
      assert false;
    }
  }

  /** Quotient and remainder of a double digit by a normalised digit; returns the quotient's high digit. */
  method SpDivide(u0: Digit, u1: Digit, v: Digit) returns (q: Digit, r: Digit, q2: Digit)
    ensures 2 * v < BASE ==> q == 0 && r == 0 && q2 == MAX_DIGIT
    ensures 2 * v >= BASE ==> q2 <= 1 && r < v && u1 * BASE + u0 == (q2 * BASE + q) * v + r
  {
    hide Join, LoHalf, HiHalf, HighBit;
    HighBitIs(v);
    if !HighBit(v) {
      return 0, 0, MAX_DIGIT;
    }
    var v0, v1 := LoHalf(v), HiHalf(v);
    var h0, h1 := LoHalf(u0), HiHalf(u0);
    NormalHalf(v, v1, v0);
    var w;
    q2, w := FirstQuotient(u1, v1, v0, v);
    var q1, w1 := DivideRound(w, h1, v1, v0, v);
    var q0, w0 := DivideRound(w1, h0, v1, v0, v);
    SmallHalf(q1);
    SmallHalf(q0);
    q := Join(q1, LoHalf(q0));
    r := w0;
    QuotientAssembly(u0, u1, v, h1, h0, q2, q1, q0, w, w1, r);
  }

  /** Round 1 of spDivide: the high quotient digit, 0 or 1. */
  method FirstQuotient(u1: Digit, v1: Digit, v0: Digit, v: Digit) returns (qhat: Digit, w: Digit)
    requires v1 < B && v0 < B && v == v1 * B + v0 && 2 * v >= BASE
    ensures qhat <= 1 && u1 == qhat * v + w && w < v
  {
    hide Join, LoHalf, HiHalf;
    Sizes();
    var u2, u3 := LoHalf(u1), HiHalf(u1);
    FirstRound(u1, u3, u2, v1, v0);
    qhat := if u3 < v1 then 0 else 1;
    if qhat > 0 && v0 > Join(u3 - v1, u2) {
      qhat := qhat - 1;
    }
    w := u1;
    if qhat > 0 {
      var top;
      w, top := SpMultSub(w, 0, qhat, v1, v0);
      SmallHalf(top);
      if HiHalf(top) != 0 {
        assert false;
      }
    }
  }

  lemma NormalHalf(v: Digit, v1: int, v0: int)
    requires 2 * v >= BASE && v == v1 * B + v0 && 0 <= v0 < B
    ensures 2 * v1 >= B
  {
    hide Pow2, Pow;
    BaseIsEven();
    BaseIsSquare();
    if 2 * v1 < B {
      MulLe(2 * v1, B - 2, B);
      Spread(B - 2, 2, B);
      Assoc(2, v1, B);
    }
  }

  lemma FirstRound(u1: Digit, h3: Digit, h2: Digit, v1: Digit, v0: Digit)
    requires u1 == h3 * B + h2 && h2 < B && v0 < B && v1 < B && h3 < B
    ensures u1 >= v1 * B + v0 <==> h3 >= v1 && v0 <= Join(h3 - v1, h2)
  {
    hide Pow2, Join;
    if h3 >= v1 {
      SmallHalf(h3 - v1);
      Spread(h3 - v1, v1, B);
    } else {
      MulLe(h3 + 1, v1, B);
      Spread(h3, 1, B);
    }
  }

  lemma QuotientAssembly(u0: int, u1: int, v: int, h1: int, h0: int, q2: int, q1: int, q0: int, w: int, w1: int, r: int)
    requires u1 == q2 * v + w && u0 == h1 * B + h0
    requires w * B + h1 == q1 * v + w1 && w1 * B + h0 == q0 * v + r
    ensures u1 * BASE + u0 == (q2 * BASE + (q1 * B + q0)) * v + r
  {
    BaseIsSquare();
    AssemblyPlain(u0, u1, v, h1, h0, q2, q1, q0, w, w1, r, B);
  }

  lemma AssemblyPlain(u0: int, u1: int, v: int, h1: int, h0: int, q2: int, q1: int, q0: int, w: int, w1: int, r: int,
                      b: int)
    requires u1 == q2 * v + w && u0 == h1 * b + h0
    requires w * b + h1 == q1 * v + w1 && w1 * b + h0 == q0 * v + r
    ensures u1 * (b * b) + u0 == (q2 * (b * b) + (q1 * b + q0)) * v + r
  {
    AssembleTwo(w, h1, q1, v, w1, b);
    Spread(q2 * v, w, b * b);
    Spread(q2 * (b * b), q1 * b + q0, v);
    Spread(q1 * b, q0, v);
    Exchange(q2, v, b * b);
    Exchange(q1, v, b);
  }

  lemma AssembleTwo(w: int, h1: int, q1: int, v: int, w1: int, b: int)
    requires w * b + h1 == q1 * v + w1
    ensures w * (b * b) + h1 * b == q1 * v * b + w1 * b
  {
    Spread(w * b, h1, b);
    Spread(q1 * v, w1, b);
    Assoc(w, b, b);
  }
}
