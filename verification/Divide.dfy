/** mpDivide: Knuth's Algorithm D (volume 2, section 4.3.1) on digit arrays. */
module Divide {
  import opened Arith
  import opened Digits
  import opened Value
  import opened Linear
  import opened Shift
  import opened SinglePrecision
  import opened ShortDivide

  lemma MultSubStep(w: seq<Digit>, w': seq<Digit>, w0: seq<Digit>, wo: nat, v: seq<Digit>, i: nat, q: int, k: int,
                    k': int)
    requires wo + i < |w| == |w'| == |w0| && i < |v|
    requires forall a | wo <= a < wo + i :: w[a] == w'[a]
    requires Val(w, wo, wo + i) - k * P(i) == Val(w0, wo, wo + i) - q * Val(v, 0, i)
    requires w'[wo + i] - k' * BASE == w0[wo + i] - (k + q * v[i])
    ensures Val(w', wo, wo + i + 1) - k' * P(i + 1) == Val(w0, wo, wo + i + 1) - q * Val(v, 0, i + 1)
  {
    hide Val, P;
    ValExtend(w, w', wo, wo + i);
    ValExtend(w0, w0, wo, wo + i);
    ValExtend(v, v, 0, i);
    PStep(i);
    Negate(k, P(i));
    Negate(k', P(i + 1));
    Negate(k', BASE);
    var x := Val(w0, wo, wo + i) - q * Val(v, 0, i);
    CarryStep(Val(w, wo, wo + i), -k, x, w'[wo + i], -k', w0[wo + i] - q * v[i], P(i));
    MultSubArith(Val(v, 0, i), v[i], P(i), q, w0[wo + i]);
  }

  lemma MultSubArith(a: int, d: int, p: int, q: int, e: int)
    ensures e * p - q * (a + d * p) == (e - q * d) * p - q * a
  {
    Spread(a, d * p, q);
    Assoc(a + d * p, q, 1);
    Assoc(a, q, 1);
    Assoc(q, d, p);
    Assoc(d * p, q, 1);
    SpreadDifference(e, q * d, p);
  }

  lemma BorrowFits(w: Digit, w': Digit, q: Digit, v: Digit, k: Digit, k': int)
    requires w' - k' * BASE == w - (k + q * v)
    ensures 0 <= k' < BASE
  {
    DigitProduct(q, v);
    assert (BASE - 1) * (BASE - 1) == (BASE - 1) * BASE - BASE + 1;
    if k' >= BASE { MulLe(BASE, k', BASE); }
    if k' < 0 { MulLe(k', -1, BASE); }
  }

  /** One digit of mpMultSub: borrow first, then the low product word. */
  method MultSubDigit(w: Digit, q: Digit, v: Digit, k: Digit) returns (w': Digit, k': Digit)
    ensures w' - k' * BASE == w - (k + q * v)
  {
    Sizes();
    var t0, t1 := SpMultiply(q, v);
    w' := SubW(w, k);
    k' := if w' > MAX_DIGIT - k then 1 else 0;
    w' := SubW(w', t0);
    if w' > MAX_DIGIT - t0 {
      k' := k' + 1;
    }
    assert (k' + t1) * BASE == k' * BASE + t1 * BASE;
    BorrowFits(w, w', q, v, k, k' + t1);
    k' := AddW(k', t1);
  }

  /** mpMultSub: subtract `q * v` from the digits at `w + wo` and the borrow `k` from `wn`. */
  method MpMultSub(wn: Digit, w: array<Digit>, wo: nat, v: array<Digit>, q: Digit, n: nat)
    returns (r: Digit, ghost k: Digit)
    requires w != v && wo + n <= w.Length && n <= v.Length
    modifies w
    ensures Val(w[..], wo, wo + n) - k * P(n) == old(Val(w[..], wo, wo + n)) - q * Val(v[..], 0, n)
    ensures r == SubW(wn, k)
    ensures SameOutside(w[..], old(w[..]), wo, wo + n)
  {
    hide Val, P;
    ghost var w0, vs := w[..], v[..];
    Sizes();
    if q == 0 {
      return wn, 0;
    }
    ValEmpty(w0, wo);
    ValEmpty(vs, 0);
    var c: Digit := 0;
    for i := 0 to n
      invariant Val(w[..], wo, wo + i) - c * P(i) == Val(w0, wo, wo + i) - q * Val(vs, 0, i)
      invariant SameOutside(w[..], w0, wo, wo + i)
    {
      ghost var before, c0 := w[..], c;
      assert w[wo + i] == w0[wo + i] && v[i] == vs[i];
      w[wo + i], c := MultSubDigit(w[wo + i], q, v[i], c);
      MultSubStep(before, w[..], w0, wo, vs, i, q, c0, c);
    }
    k := c;
    r := SubW(wn, c);
  }

  /** QhatTooBig: whether `qhat * v[n-2] > rhat * b + u[j+n-2]`. */
  method QhatTooBig(qhat: Digit, rhat: Digit, vn2: Digit, ujn2: Digit) returns (big: bool)
    ensures big <==> qhat * vn2 > rhat * BASE + ujn2
  {
    var t0, t1 := SpMultiply(qhat, vn2);
    CompareWords(t1, t0, rhat, ujn2);
    if t1 < rhat {
      return false;
    } else if t1 > rhat {
      return true;
    } else if t0 > ujn2 {
      return true;
    }
    return false;
  }

  /** Two-digit numbers compare by the high digit first. */
  lemma CompareWords(h: Digit, l: Digit, h': Digit, l': Digit)
    ensures h * BASE + l > h' * BASE + l' <==> h > h' || (h == h' && l > l')
  {
    if h < h' {
      MulLe(h + 1, h', BASE);
      Spread(h, 1, BASE);
    } else if h > h' {
      MulLe(h' + 1, h, BASE);
      Spread(h', 1, BASE);
    }
  }

  /** The test of step D3 taken on exact numbers. */
  ghost predicate TooLarge(w: int, u2: int, vtop: int, v2: int, qhat: int) {
    qhat * (vtop * BASE + v2) > w * BASE + u2
  }

  /** A trial digit with its remainder: never below the largest digit that passes the test. */
  ghost predicate Estimate(w: int, u2: int, vtop: int, v2: int, qhat: int, rhat: int) {
    && w == qhat * vtop + rhat && 0 <= rhat && 0 <= qhat < BASE
    && (qhat == MAX_DIGIT || TooLarge(w, u2, vtop, v2, qhat + 1))
  }

  lemma EstimateTest(w: int, u2: Digit, vtop: Digit, v2: Digit, qhat: int, rhat: int)
    requires Estimate(w, u2, vtop, v2, qhat, rhat)
    ensures TooLarge(w, u2, vtop, v2, qhat) <==> qhat * v2 > rhat * BASE + u2
    ensures rhat >= BASE || qhat == 0 ==> !TooLarge(w, u2, vtop, v2, qhat)
    ensures TooLarge(w, u2, vtop, v2, qhat) ==> Estimate(w, u2, vtop, v2, qhat - 1, rhat + vtop)
  {
    TrialTest(w, u2, vtop, v2, BASE, qhat, rhat);
    if rhat >= BASE { LargeRemainder(w, u2, vtop, v2, BASE, qhat, rhat); }
    if qhat == 0 { assert 0 * v2 == 0; MulLe(0, rhat, BASE); }
    assert (qhat - 1) * vtop == qhat * vtop - vtop;
  }

  /** Step D3: the trial digit from the top three digits of the window and the top two of the divisor. */
  method EstimateDigit(t1: Digit, x: Digit, u2: Digit, vtop: Digit, v2: Digit) returns (qhat: Digit)
    requires 2 * vtop >= BASE && t1 <= vtop
    ensures !TooLarge(t1 * BASE + x, u2, vtop, v2, qhat)
    ensures qhat == MAX_DIGIT || TooLarge(t1 * BASE + x, u2, vtop, v2, qhat + 1)
  {
    hide TooLarge;
    Sizes();
    ghost var w := t1 * BASE + x;
    var rhat, overflow;
    var qhatOK := false;
    qhat, rhat, overflow := SpDivide(x, t1, vtop);
    EstimateStart(t1, x, u2, vtop, v2, qhat, rhat, overflow);
    ghost var r: int := rhat;
    if overflow != 0 {
      qhat := MAX_DIGIT;
      rhat := AddW(x, vtop);
      r := x + vtop;
      if rhat < vtop {
        qhatOK := true;
      }
    }
    EstimateTest(w, u2, vtop, v2, qhat, r);
    var big := QhatTooBig(qhat, rhat, v2, u2);
    if qhat != 0 && !qhatOK && big {
      qhat := qhat - 1;
      rhat := AddW(rhat, vtop);
      r := r + vtop;
      EstimateTest(w, u2, vtop, v2, qhat, r);
      if !(rhat < vtop) {
        var again := QhatTooBig(qhat, rhat, v2, u2);
        if again {
          qhat := qhat - 1;
          EstimateTest(w, u2, vtop, v2, qhat, r + vtop);
        }
      }
    }
  }

  lemma EstimateStart(t1: Digit, x: Digit, u2: Digit, vtop: Digit, v2: Digit, q: Digit, r: Digit, q2: Digit)
    requires 0 < vtop && t1 <= vtop && q2 <= 1 && r < vtop
    requires t1 * BASE + x == (q2 * BASE + q) * vtop + r
    ensures if q2 == 0 then Estimate(t1 * BASE + x, u2, vtop, v2, q, r)
      else Estimate(t1 * BASE + x, u2, vtop, v2, MAX_DIGIT, x + vtop)
  {
    if q2 == 0 {
      EstimateLow(t1 * BASE + x, u2, vtop, v2, q, r);
    } else if t1 < vtop {
      QuotientFits(x, t1, vtop, q2 * BASE + q, r);
    } else {
      EstimateHigh(x, u2, vtop, v2);
    }
  }

  lemma EstimateLow(w: int, u2: Digit, vtop: Digit, v2: Digit, q: Digit, r: Digit)
    requires 0 < vtop && w == q * vtop + r && r < vtop
    ensures Estimate(w, u2, vtop, v2, q, r)
  {
    Spread(q, 1, vtop);
    TrialNotSmall(w, u2, vtop, v2, BASE, q);
  }

  lemma EstimateHigh(x: Digit, u2: Digit, vtop: Digit, v2: Digit)
    requires 0 < vtop
    ensures Estimate(vtop * BASE + x, u2, vtop, v2, MAX_DIGIT, x + vtop)
  {
    Spread(MAX_DIGIT, 1, vtop);
    Assoc(BASE, vtop, 1);
  }

  /** A digit that fails the test one higher exceeds what the window holds. */
  lemma TrialDigitUpper(top3: int, ulow: int, vtop2: int, vlow: int, p: int, qhat: int)
    requires 0 <= ulow < p && 0 <= vlow && 0 <= qhat && top3 < (qhat + 1) * vtop2
    ensures top3 * p + ulow < (qhat + 1) * (vtop2 * p + vlow)
  {
    MulLe(top3 + 1, (qhat + 1) * vtop2, p);
    assert (qhat + 1) * (vtop2 * p + vlow) == (qhat + 1) * vtop2 * p + (qhat + 1) * vlow;
    MulLe(0, qhat + 1, vlow);
  }

  /** A digit that passes the test is at most one too large (Knuth's theorem B). */
  lemma TrialDigitLower(top3: int, ulow: int, vtop2: int, vlow: int, p: int, qhat: int)
    requires 0 <= ulow && 0 <= vlow < p && vtop2 >= BASE && 1 <= qhat < BASE
    requires qhat * vtop2 <= top3
    ensures (qhat - 1) * (vtop2 * p + vlow) <= top3 * p + ulow
  {
    MulLe(vtop2 * p + vlow, (vtop2 + 1) * p, qhat - 1);
    assert (qhat - 1) * (vtop2 + 1) == qhat * vtop2 - vtop2 + qhat - 1;
    MulLe((qhat - 1) * (vtop2 + 1), top3, p);
    assert (vtop2 + 1) * p * (qhat - 1) == (qhat - 1) * (vtop2 + 1) * p;
  }

  /** The top two digits of a stretch split off. */
  lemma TopTwo(s: seq<Digit>, lo: nat, n: nat)
    requires n >= 2 && lo + n <= |s|
    ensures Val(s, lo, lo + n) == (s[lo + n - 1] * BASE + s[lo + n - 2]) * P(n - 2) + Val(s, lo, lo + n - 2)
    ensures P(n) == BASE * BASE * P(n - 2)
  {
    PStep(n - 2);
    PStep(n - 1);
    hide P, Val;
    var p := P(n - 2);
    ValExtend(s, s, lo, lo + n - 2);
    ValExtend(s, s, lo, lo + n - 1);
    Spread(s[lo + n - 1] * BASE, s[lo + n - 2], p);
    Assoc(s[lo + n - 1], BASE, p);
    Assoc(BASE, BASE, p);
  }

  /** On entry to step D4 the digit is right or one too large. */
  lemma DigitEstimated(t1: Digit, uu: seq<Digit>, j: nat, n: nat, v: seq<Digit>, qhat: Digit)
    requires n >= 2 && j + n <= |uu| && n <= |v| && 2 * v[n - 1] >= BASE
    requires t1 * P(n) + Val(uu, j, j + n) < BASE * Val(v, 0, n)
    requires !TooLarge(t1 * BASE + uu[j + n - 1], uu[j + n - 2], v[n - 1], v[n - 2], qhat)
    requires qhat == MAX_DIGIT || TooLarge(t1 * BASE + uu[j + n - 1], uu[j + n - 2], v[n - 1], v[n - 2], qhat + 1)
    ensures (qhat - 1) * Val(v, 0, n) <= t1 * P(n) + Val(uu, j, j + n) < (qhat + 1) * Val(v, 0, n)
    ensures qhat == 0 ==> (qhat - 1) * Val(v, 0, n) < 0
  {
    hide Val, P, Pow, Pow2, TooLarge;
    TopTwo(uu, j, n);
    TopTwo(v, 0, n);
    ValBound(uu, j, j + n - 2);
    ValBound(v, 0, n - 2);
    WindowSplit(t1, uu[j + n - 1], uu[j + n - 2], P(n - 2), Val(uu, j, j + n - 2));
    NormalTop(v[n - 1], v[n - 2]);
    var vtop2, top3 := v[n - 1] * BASE + v[n - 2], (t1 * BASE + uu[j + n - 1]) * BASE + uu[j + n - 2];
    ThreeDigits(t1, uu[j + n - 1], uu[j + n - 2]);
    TooLargeIs(t1 * BASE + uu[j + n - 1], uu[j + n - 2], v[n - 1], v[n - 2], qhat);
    TooLargeIs(t1 * BASE + uu[j + n - 1], uu[j + n - 2], v[n - 1], v[n - 2], qhat + 1);
    WindowDigit(top3, Val(uu, j, j + n - 2), vtop2, Val(v, 0, n - 2), P(n - 2), qhat,
                t1 * P(n) + Val(uu, j, j + n), Val(v, 0, n));
  }

  lemma ThreeDigits(a: Digit, b: Digit, c: Digit)
    ensures 0 <= (a * BASE + b) * BASE + c
  {
    MulLe(0, a, BASE);
    MulLe(0, a * BASE + b, BASE);
  }

  lemma TooLargeIs(w: int, u2: int, vtop: int, v2: int, qhat: int)
    ensures TooLarge(w, u2, vtop, v2, qhat) <==> qhat * (vtop * BASE + v2) > w * BASE + u2
  {}

  lemma WindowDigit(top3: int, ulow: int, vtop2: int, vlow: int, p: int, qhat: Digit, r: int, d: int)
    requires 0 <= ulow < p && 0 <= vlow < p && BASE <= vtop2 && 0 <= top3
    requires r == top3 * p + ulow && d == vtop2 * p + vlow
    requires qhat * vtop2 <= top3 && (qhat == MAX_DIGIT || (qhat + 1) * vtop2 > top3)
    requires r < BASE * d
    ensures (qhat - 1) * d <= r < (qhat + 1) * d
    ensures qhat == 0 ==> (qhat - 1) * d < 0
  {
    hide Pow, Pow2;
    MulLe(1, vtop2, p);
    MulLe(0, top3, p);
    if qhat != MAX_DIGIT {
      TrialDigitUpper(top3, ulow, vtop2, vlow, p, qhat);
    }
    if qhat != 0 {
      TrialDigitLower(top3, ulow, vtop2, vlow, p, qhat);
    }
  }

  lemma NormalTop(v1: Digit, v2: Digit)
    requires 2 * v1 >= BASE
    ensures v1 * BASE + v2 >= BASE
  {
    Sizes();
    MulLe(1, v1, BASE);
  }

  lemma WindowSplit(t1: int, x: int, u2: int, p: int, ulow: int)
    ensures t1 * (BASE * BASE * p) + ((x * BASE + u2) * p + ulow) == ((t1 * BASE + x) * BASE + u2) * p + ulow
  {
    assert ((t1 * BASE + x) * BASE + u2) * p == (t1 * (BASE * BASE) + (x * BASE + u2)) * p;
    assert (t1 * (BASE * BASE)) * p == t1 * (BASE * BASE * p);
  }

  /** After multiply-and-subtract the top digit is 0 when the result is non-negative and -1 when add-back is needed. */
  lemma BorrowSign(t1: Digit, k: Digit, w: int, d: int, v: int, p: int)
    requires 0 <= w < p && 0 < v < p && -v <= d < v
    requires d == (t1 - k) * p + w
    ensures t1 - k == if d < 0 then -1 else 0
    ensures SubW(t1, k) != 0 <==> d < 0
  {
    Sizes();
    var e := t1 - k;
    if e >= 1 { MulLe(1, e, p); }
    if e <= -2 { MulLe(e, -2, p); }
  }

  /** The window as seen from step D3: top digit and the digits below it. */
  lemma WindowBound(t1: int, uu: seq<Digit>, j: nat, n: nat, v: seq<Digit>)
    requires n >= 2 && j + n <= |uu| && n <= |v| && 0 <= t1
    requires t1 * P(n - 1) + Val(uu, j + 1, j + n) < Val(v, 0, n)
    ensures t1 * P(n) + Val(uu, j, j + n) == BASE * (t1 * P(n - 1) + Val(uu, j + 1, j + n)) + uu[j]
    ensures t1 * P(n) + Val(uu, j, j + n) < BASE * Val(v, 0, n)
    ensures t1 <= v[n - 1]
  {
    hide Val, P, Pow, Pow2;
    PStep(n - 1);
    ValLow(uu, j, j + n);
    var p, h := P(n - 1), Val(uu, j + 1, j + n);
    WindowShift(t1, p, h);
    NextBelow(t1 * p + h, Val(v, 0, n), uu[j]);
    TopAtMost(t1, h, v, n);
  }

  lemma NextBelow(x: int, y: int, d: Digit)
    requires x < y
    ensures BASE * x + d < BASE * y
  {
    hide Pow, Pow2;
    MulLe(x + 1, y, BASE);
    Spread(x, 1, BASE);
    Assoc(BASE, x, 1);
    Assoc(BASE, y, 1);
  }

  lemma TopAtMost(t: int, h: nat, v: seq<Digit>, n: nat)
    requires 0 < n <= |v| && t * P(n - 1) + h < Val(v, 0, n)
    ensures t <= v[n - 1]
  {
    hide Val, P, Pow, Pow2;
    var p := P(n - 1);
    ValBound(v, 0, n - 1);
    ValExtend(v, v, 0, n - 1);
    DigitBelow(Val(v, 0, n - 1), v[n - 1], v[n - 1] as int + 1, p);
    CancelLt(t, v[n - 1] as int + 1, p);
  }

  lemma WindowShift(t: int, p: int, h: int)
    ensures t * (BASE * p) + BASE * h == BASE * (t * p + h)
  {
    Assoc(BASE, t, p);
    Assoc(t, BASE, p);
  }

  /** Step D3: the digit estimated from the window. */
  method EstimateWindow(uu: array<Digit>, j: nat, n: nat, v: array<Digit>, t1: Digit) returns (qhat: Digit)
    requires n >= 2 && j + n <= uu.Length && n <= v.Length && 2 * v[n - 1] >= BASE
    requires t1 * P(n - 1) + Val(uu[..], j + 1, j + n) < Num(v, n)
    ensures var r := t1 * P(n) + Val(uu[..], j, j + n);
      (qhat - 1) * Num(v, n) <= r < (qhat + 1) * Num(v, n) && (qhat == 0 ==> (qhat - 1) * Num(v, n) < 0)
  {
    hide Val, P, TooLarge, Pow, Pow2;
    ghost var u0, vs := uu[..], v[..];
    WindowBound(t1, u0, j, n, vs);
    assert v[n - 1] == vs[n - 1] && v[n - 2] == vs[n - 2];
    qhat := EstimateDigit(t1, uu[j + n - 1], uu[j + n - 2], v[n - 1], v[n - 2]);
    DigitEstimated(t1, u0, j, n, vs, qhat);
  }

  /** Steps D3 to D6 for one quotient digit; the window's top digit `t1` is not in the array. */
  method DivideDigit(uu: array<Digit>, j: nat, n: nat, v: array<Digit>, t1: Digit) returns (qj: Digit)
    requires uu != v && n >= 2 && j + n <= uu.Length && n <= v.Length && 2 * v[n - 1] >= BASE
    requires t1 * P(n - 1) + Val(uu[..], j + 1, j + n) < Num(v, n)
    modifies uu
    ensures old(t1 * P(n) + Val(uu[..], j, j + n)) == qj * Num(v, n) + Val(uu[..], j, j + n)
    ensures Val(uu[..], j, j + n) < Num(v, n)
    ensures SameOutside(uu[..], old(uu[..]), j, j + n)
  {
    hide Val, P, Pow, Pow2;
    ghost var u0, vs := uu[..], v[..];
    ghost var r, d := t1 * P(n) + Val(u0, j, j + n), Val(vs, 0, n);
    var qhat := EstimateWindow(uu, j, n, v, t1);
    WindowNonNegative(t1, P(n), Val(u0, j, j + n));
    var overflow;
    ghost var k;
    overflow, k := MpMultSub(t1, uu, j, v, qhat, n);
    ghost var w := Val(uu[..], j, j + n);
    ValBound(uu[..], j, j + n);
    ValBound(vs, 0, n);
    DigitDifference(r, qhat, d, t1, k, P(n), w, Val(u0, j, j + n));
    qj := qhat;
    if overflow != 0 {
      qj := SubW(qj, 1);
      var c := MpAdd(uu, j, uu, j, v, n);
      ValBound(uu[..], j, j + n);
      AddBack(r, qhat, d, w, P(n), c, Val(uu[..], j, j + n));
    }
  }

  lemma WindowNonNegative(t: Digit, p: int, u: int)
    requires p >= 0 && u >= 0
    ensures t * p + u >= 0
  {
    MulLe(0, t, p);
  }

  lemma AddBack(r: int, q: int, d: int, w: int, p: int, c: int, w': int)
    requires r - q * d == w - p && 0 <= w' < p && 0 < d && 0 <= r - (q - 1) * d < d < p
    requires w' + c * p == w + d
    ensures r == (q - 1) * d + w' && w' < d
  {
    assert (q - 1) * d == q * d - d;
    if c >= 2 { MulLe(2, c, p); }
    if c <= 0 { MulLe(c, 0, p); }
  }

  /** What the borrow tells: a non-zero top digit is equivalent to the digit being one too large. */
  lemma DigitDifference(r: int, q: Digit, d: int, t1: Digit, k: Digit, p: int, w: int, u: int)
    requires r == t1 * p + u && w - k * p == u - q * d && 0 <= w < p && 0 <= d < p
    requires (q - 1) * d <= r < (q + 1) * d && (q == 0 ==> (q - 1) * d < 0)
    requires 0 <= r
    ensures 0 < d
    ensures SubW(t1, k) == 0 ==> r == q * d + w && w < d
    ensures SubW(t1, k) != 0 ==> q != 0 && r - q * d == w - p && 0 <= r - (q - 1) * d < d
  {
    assert (t1 - k) * p == t1 * p - k * p;
    assert (q - 1) * d == q * d - d && (q + 1) * d == q * d + d;
    BorrowSign(t1, k, w, r - q * d, d, p);
    if t1 == k { assert 0 * p == 0; } else { assert (t1 - k) * p == -p; }
    if q == 0 { assert q * d == 0; }
  }

  /**
   * The digits of the dividend at and above `j` are `q[j..]` times the divisor plus the window,
   * whose top digit `t0` is carried outside the array.
   */
  ghost predicate Divided(x: seq<Digit>, top: int, q: seq<Digit>, uu: seq<Digit>, t0: int, j: nat, m: nat, n: nat,
                          v: nat)
    requires n >= 2 && m + n <= |x| && m < |q| && j <= m + 1 && m + n <= |uu|
  {
    && top * P(m + n - j) + Val(x, j, m + n) == Val(q, j, m + 1) * v + (t0 * P(n - 1) + Val(uu, j, j + n - 1))
    && t0 * P(n - 1) + Val(uu, j, j + n - 1) < v
  }

  lemma DividedStart(x: seq<Digit>, top: int, q: seq<Digit>, m: nat, n: nat, v: nat, p: int, low: int)
    requires n >= 2 && m + n <= |x| && m < |q|
    requires 0 < p && P(n - 1) * p <= v
    requires top * P(m + n) + Val(x, 0, m + n) == low * p && low < P(m + n)
    ensures Divided(x, top, q, x, top, m + 1, m, n, v)
  {
    hide Val, P;
    ValSplit(x, 0, m + 1, m + n);
    PAdd(m + 1, n - 1);
    ValEmpty(q, m + 1);
    assert Val(q, m + 1, m + 1) * v == 0;
    StartBound(top, P(m + 1), P(n - 1), Val(x, m + 1, m + n), Val(x, 0, m + 1), low, p, v);
  }

  lemma StartBound(top: int, a: int, b: int, hi: int, lo: int, x: int, p: int, v: int)
    requires a > 0 && 0 <= lo && 0 < p && b * p <= v
    requires top * (a * b) + (lo + a * hi) == x * p && x < a * b
    ensures top * b + hi < v
  {
    MulLt(x, a * b, p);
    assert a * (top * b + hi) == top * (a * b) + a * hi;
    assert a * b * p == a * (b * p);
    MulLe(b * p, v, a);
    CancelLt(top * b + hi, v, a);
  }

  lemma DividedNext(x: seq<Digit>, top: int, q: seq<Digit>, q': seq<Digit>, uu: seq<Digit>, uu': seq<Digit>, t0: int,
                    j: nat, m: nat, n: nat, v: nat)
    requires n >= 2 && m + n <= |x| && m < |q| == |q'| && j <= m && m + n <= |uu| == |uu'|
    requires Divided(x, top, q, uu, t0, j + 1, m, n, v)
    requires uu[j] == x[j]
    requires forall i | j < i <= m :: q[i] == q'[i]
    requires t0 * P(n) + Val(uu, j, j + n) == q'[j] * v + Val(uu', j, j + n)
    requires Val(uu', j, j + n) < v
    ensures Divided(x, top, q', uu', uu'[j + n - 1], j, m, n, v)
  {
    hide Val, P;
    PStep(m + n - j - 1);
    PStep(n - 1);
    ValLow(x, j, m + n);
    ValLow(q', j, m + 1);
    ValLow(uu, j, j + n);
    ValSame(q, j + 1, q', j + 1, m - j);
    ValExtend(uu', uu', j, j + n - 1);
    NextArith(top, P(m + n - j - 1), Val(x, j + 1, m + n), x[j], Val(q, j + 1, m + 1), q'[j], v, t0, P(n - 1),
      Val(uu, j + 1, j + n), Val(uu', j, j + n));
  }

  lemma NextArith(top: int, p: int, h: int, d: int, q: int, e: int, v: int, t0: int, r: int, g: int, w: int)
    requires top * p + h == q * v + (t0 * r + g)
    requires t0 * (BASE * r) + (d + BASE * g) == e * v + w
    ensures top * (BASE * p) + (d + BASE * h) == (e + BASE * q) * v + w
  {
    assert BASE * (top * p + h) == top * (BASE * p) + BASE * h;
    assert BASE * (q * v + (t0 * r + g)) == BASE * q * v + (t0 * (BASE * r) + BASE * g);
  }

  /** Steps D2 to D7: all quotient digits; the remainder is left in the low `n` digits of `uu`. */
  method DivideLoop(q: array<Digit>, uu: array<Digit>, v: array<Digit>, m: nat, n: nat, top: Digit, ghost x: nat,
                    ghost p: nat)
    requires q != uu && q != v && uu != v
    requires n >= 2 && m + n <= uu.Length && m < q.Length && n <= v.Length && 2 * v[n - 1] >= BASE
    requires top * P(m + n) + Val(uu[..], 0, m + n) == x * p && x < P(m + n)
    requires 0 < p && P(n - 1) * p <= Num(v, n)
    modifies q, uu
    ensures x * p == Num(q, m + 1) * Num(v, n) + Num(uu, n)
    ensures Num(uu, n) < Num(v, n)
    ensures SameOutside(q[..], old(q[..]), 0, m + 1)
    ensures SameOutside(uu[..], old(uu[..]), 0, m + n)
  {
    hide Val, P, Divided;
    ghost var xs, vv := uu[..], Num(v, n);
    var t0 := top;
    DividedStart(xs, top, q[..], m, n, vv, p, x);
    var j: nat := m + 1;
    while j != 0
      invariant j <= m + 1 && (j <= m ==> t0 == uu[..][j + n - 1])
      invariant Divided(xs, top, q[..], uu[..], t0, j, m, n, vv)
      invariant forall i | 0 <= i < j && i < m + n :: uu[..][i] == xs[i]
      invariant SameOutside(q[..], old(q[..]), j, m + 1)
      invariant SameOutside(uu[..], xs, 0, m + n)
    {
      j := j - 1;
      ghost var q0, u0, t1 := q[..], uu[..], t0;
      WindowOf(xs, top, q0, u0, t1, j + 1, m, n, vv);
      var qj := DivideDigit(uu, j, n, v, t0);
      q[j] := qj;
      t0 := uu[j + n - 1];
      DividedNext(xs, top, q0, q[..], u0, uu[..], t1, j, m, n, vv);
    }
    DividedEnd(xs, top, q[..], uu[..], t0, m, n, vv);
  }

  lemma WindowOf(x: seq<Digit>, top: int, q: seq<Digit>, uu: seq<Digit>, t0: int, j: nat, m: nat, n: nat, v: nat)
    requires n >= 2 && m + n <= |x| && m < |q| && j <= m + 1 && m + n <= |uu|
    requires Divided(x, top, q, uu, t0, j, m, n, v)
    ensures t0 * P(n - 1) + Val(uu, j, j + n - 1) < v
  {}

  lemma DividedEnd(x: seq<Digit>, top: int, q: seq<Digit>, uu: seq<Digit>, t0: int, m: nat, n: nat, v: nat)
    requires n >= 2 && m + n <= |x| && m < |q| && m + n <= |uu|
    requires Divided(x, top, q, uu, t0, 0, m, n, v)
    requires t0 == uu[n - 1]
    ensures top * P(m + n) + Val(x, 0, m + n) == Val(q, 0, m + 1) * v + Val(uu, 0, n)
    ensures Val(uu, 0, n) < v
  {}

  /** Normalising the divisor loses nothing and sets its high bit. */
  lemma NormalDivisor(v: seq<Digit>, w: seq<Digit>, n: nat, p: nat, q: nat, carry: Digit)
    requires 0 < n <= |v| && n <= |w| && BASE == p * q && v[n - 1] < q
    requires BASE <= 2 * (v[n - 1] * p) && carry < p
    requires Val(w, 0, n) + carry * P(n) == Val(v, 0, n) * p
    ensures Val(w, 0, n) == Val(v, 0, n) * p && 2 * w[n - 1] >= BASE
    ensures P(n - 1) * p <= Val(w, 0, n)
  {
    hide Val, P;
    var a, b, d, x := Val(v, 0, n - 1), P(n - 1), v[n - 1], Val(v, 0, n);
    ValExtend(v, v, 0, n - 1);
    ValBound(v, 0, n - 1);
    ValBound(w, 0, n);
    PStep(n - 1);
    NormalBounds(a, b, d, p, q, x);
    CancelLt(carry, 1, P(n));
    ValExtend(w, w, 0, n - 1);
    ValBound(w, 0, n - 1);
    TopHalf(Val(w, 0, n - 1), w[n - 1], b, d * p);
  }

  lemma NormalBounds(a: int, b: int, d: int, p: int, q: int, x: int)
    requires 0 <= a < b && 1 <= d < q && 0 < p && x == a + d * b && p * q == BASE
    ensures x * p < BASE * b && d * p * b <= x * p && b * p <= x * p
  {
    MulLe(x + 1, (d + 1) * b, p);
    MulLe((d + 1) * p, BASE, b) by { MulLe(d + 1, q, p); }
    MulLe(d * b, x, p);
    MulLe(1, d, b * p);
  }

  lemma TopHalf(a: int, d: int, b: int, h: int)
    requires 0 <= a < b && h * b <= a + d * b && BASE <= 2 * h
    ensures BASE <= 2 * d
  {
    DigitBelow(a, d, d + 1, b);
    CancelLt(h, d + 1, b);
  }

  /** The in-place normalisation is undone digit for digit. */
  lemma Restored(v: seq<Digit>, v0: seq<Digit>, n: nat, p: nat)
    requires n <= |v0| == |v| && p > 0
    requires Val(v, 0, n) == (Val(v0, 0, n) * p) / p
    requires forall i | n <= i < |v| :: v[i] == v0[i]
    ensures v == v0
  {
    DivModUnique(Val(v0, 0, n) * p, p, Val(v0, 0, n), 0);
    ValInjective(v, v0, n);
  }

  /** Step D1: normalise the divisor in place and the dividend into `r`. */
  method Normalise(r: array<Digit>, u: array<Digit>, v: array<Digit>, m: nat, n: nat)
    returns (shift: nat, overflow: Digit)
    requires r != u && r != v && u != v
    requires 0 < n <= v.Length && m + n <= r.Length && m + n <= u.Length
    requires v[n - 1] != 0
    modifies r, v
    ensures shift < BITS && Num(v, n) == old(Num(v, n)) * Pow2(shift) && 2 * v[n - 1] >= BASE
    ensures P(n - 1) * Pow2(shift) <= Num(v, n)
    ensures overflow * P(m + n) + Num(r, m + n) == Num(u, m + n) * Pow2(shift)
    ensures SameOutside(r[..], old(r[..]), 0, m + n)
    ensures SameOutside(v[..], old(v[..]), 0, n)
  {
    hide Val, P, Pow2;
    ghost var v0 := v[..];
    assert v[n - 1] == v0[n - 1];
    shift := FindShift(v[n - 1]);
    DivModUnique(shift, BITS, 0, shift);
    overflow := MpShiftLeft(v, v, shift, n);
    BitSplit(shift);
    NormalDivisor(v0, v[..], n, Pow2(shift), Pow2(BITS - shift), overflow);
    assert v[n - 1] == v[..][n - 1];
    overflow := MpShiftLeft(r, u, shift, n + m);
  }

  method ClearDigits(r: array<Digit>, lo: nat, hi: nat)
    requires lo <= hi <= r.Length
    modifies r
    ensures forall i | lo <= i < hi :: r[i] == 0
    ensures SameOutside(r[..], old(r[..]), lo, hi)
  {
    Sizes();
    for j := lo to hi
      invariant forall i | lo <= i < j :: r[..][i] == 0
      invariant SameOutside(r[..], old(r[..]), lo, hi)
    {
      r[j] := 0;
    }
    assert forall i | lo <= i < hi :: r[i] == r[..][i];
  }

  /** Step D8: clear the spent dividend digits and shift remainder and divisor back. */
  method Unnormalised(r: array<Digit>, v: array<Digit>, shift: nat, m: nat, n: nat, ghost v0: seq<Digit>, ghost x: nat,
                      ghost q: nat)
    requires r != v && n <= v.Length == |v0| && m + n <= r.Length && shift < BITS
    requires SameOutside(v[..], v0, 0, n)
    requires Num(v, n) == Val(v0, 0, n) * Pow2(shift)
    requires x * Pow2(shift) == q * Num(v, n) + Num(r, n) && Num(r, n) < Num(v, n)
    modifies r, v
    ensures v[..] == v0
    ensures x == q * Val(v0, 0, n) + Num(r, n) && Num(r, n) < Val(v0, 0, n)
    ensures forall i | n <= i < m + n :: r[i] == 0
    ensures SameOutside(r[..], old(r[..]), 0, m + n)
  {
    hide Val, P, Pow2;
    ghost var r0 := r[..];
    ClearDigits(r, n, m + n);
    ValSame(r0, 0, r[..], 0, n);
    Unnormalise(x, Val(v0, 0, n), Pow2(shift), q, Val(r0, 0, n));
    DivModUnique(shift, BITS, 0, shift);
    assert forall i | n <= i < m + n :: r[..][i] == 0;
    var k := MpShiftRight(r, r, shift, n);
    assert forall i | n <= i < m + n :: r[i] == r[..][i];
    k := MpShiftRight(v, v, shift, n);
    Restored(v[..], v0, n, Pow2(shift));
  }

  /** mpDivide once the dividend has at least the divisor's `n >= 2` significant digits. */
  method DivideLong(q: array<Digit>, r: array<Digit>, u: array<Digit>, v: array<Digit>, m: nat, n: nat)
    requires q != r && q != u && q != v && r != u && r != v && u != v
    requires n >= 2 && m + n <= r.Length && m < q.Length && m + n <= u.Length && n <= v.Length
    requires v[n - 1] != 0
    modifies q, r, v
    ensures v[..] == old(v[..])
    ensures Num(u, m + n) == Num(q, m + 1) * Num(v, n) + Num(r, n) && Num(r, n) < Num(v, n)
    ensures forall i | n <= i < m + n :: r[i] == 0
    ensures SameOutside(q[..], old(q[..]), 0, m + 1)
    ensures SameOutside(r[..], old(r[..]), 0, m + n)
  {
    hide Val, P, Pow2;
    ghost var v0, x := v[..], Num(u, m + n);
    var shift, overflow := Normalise(r, u, v, m, n);
    ValBound(u[..], 0, m + n);
    DivideLoop(q, r, v, m, n, overflow, x, Pow2(shift));
    Unnormalised(r, v, shift, m, n, v0, x, Num(q, m + 1));
  }

  /** mpDivide: exact quotient and remainder; the divisor is restored; -1 for a zero divisor. */
  method MpDivide(q: array<Digit>, r: array<Digit>, u: array<Digit>, udigits: nat, v: array<Digit>, vdigits: nat)
    returns (code: int)
    requires q != r && q != u && q != v && r != u && r != v && (u == v ==> udigits == vdigits)
    requires udigits <= q.Length && udigits <= r.Length && udigits <= u.Length && vdigits <= v.Length && 1 <= r.Length
    modifies q, r, v
    ensures v[..] == old(v[..])
    ensures code == if Num(v, vdigits) == 0 then -1 else 0
    ensures Num(v, vdigits) == 0 ==> Num(q, udigits) == 0 && Num(r, udigits) == 0
    ensures Num(v, vdigits) != 0 ==> Num(u, udigits) == Num(q, udigits) * Num(v, vdigits) + Num(r, udigits)
    ensures Num(v, vdigits) != 0 ==> Num(r, udigits) < Num(v, vdigits)
    ensures SameOutside(q[..], old(q[..]), 0, udigits)
    ensures SameOutside(r[..], old(r[..]), 0, if udigits == 0 then 1 else udigits)
    ensures udigits == 0 ==> r[0] == 0 || r[0] == old(r[0])
  {
    hide Val, P;
    Sizes();
    ghost var u0, v0 := u[..], v[..];
    MpSetZero(q, udigits);
    MpSetZero(r, udigits);
    var n := MpSizeof(v, vdigits);
    var un := MpSizeof(u, udigits);
    var m := un as int - n as int;
    if n == 0 {
      ValEmpty(v[..], 0);
      return -1;
    }
    NonZero(v[..], n);
    if n == 1 {
      var rem := MpShortDiv(q, u, v[0], udigits);
      ghost var r0 := r[..];
      r[0] := rem;
      if udigits == 0 {
        ValEmpty(u[..], 0);
        ValEmpty(q[..], 0);
        ValEmpty(r[..], 0);
      } else {
        OneDigit(r[..], udigits);
      }
      OneDigit(v[..], 1);
      return 0;
    }
    if u == v { SameSize(u[..], un, n); }
    if m < 0 {
      SmallerBySize(u[..], un, v[..], n);
      MpSetEqual(r, u, udigits);
      return 0;
    }
    if m == 0 {
      var cmp := MpCompare(u, v, n);
      if cmp < 0 {
        MpSetEqual(r, u, udigits);
        return 0;
      } else if cmp == 0 {
        MpSetDigit(q, 1, udigits);
        return 0;
      }
    }
    DivideCleared(q, r, u, udigits, v, m, n);
    return 0;
  }

  /** The long division, into a quotient and remainder already cleared. */
  method DivideCleared(q: array<Digit>, r: array<Digit>, u: array<Digit>, udigits: nat, v: array<Digit>, m: nat, n: nat)
    requires q != r && q != u && q != v && r != u && r != v && u != v
    requires n >= 2 && m + n <= udigits && udigits <= q.Length && udigits <= r.Length && udigits <= u.Length
    requires n <= v.Length && v[n - 1] != 0 && Num(u, udigits) == Num(u, m + n)
    requires forall i | 0 <= i < udigits :: q[i] == 0 && r[i] == 0
    modifies q, r, v
    ensures v[..] == old(v[..])
    ensures Num(u, udigits) == Num(q, udigits) * Num(v, n) + Num(r, udigits) && Num(r, udigits) < Num(v, n)
    ensures SameOutside(q[..], old(q[..]), 0, udigits) && SameOutside(r[..], old(r[..]), 0, udigits)
  {
    hide Val, P;
    assert forall i | 0 <= i < udigits :: q[..][i] == q[i] && r[..][i] == r[i];
    DivideLong(q, r, u, v, m, n);
    assert forall i | n <= i < m + n :: r[..][i] == r[i];
    ValTrim(q[..], 0, m + 1, udigits);
    ValTrim(r[..], 0, n, udigits);
  }

  /** The significant digits of a number are determined. */
  lemma SameSize(s: seq<Digit>, m: nat, n: nat)
    requires m <= |s| && n <= |s| && Val(s, 0, m) == Val(s, 0, n)
    requires (m > 0 ==> s[m - 1] != 0) && (n > 0 ==> s[n - 1] != 0)
    ensures m == n
  {
    if m < n { SmallerBySize(s, m, s, n); }
    if n < m { SmallerBySize(s, n, s, m); }
  }

  lemma NonZero(v: seq<Digit>, n: nat)
    requires 0 < n <= |v| && v[n - 1] != 0
    ensures Val(v, 0, n) > 0
  {
    ValTop(v, 0, n);
  }

  lemma OneDigit(r: seq<Digit>, n: nat)
    requires 1 <= n <= |r| && forall i | 1 <= i < n :: r[i] == 0
    ensures Val(r, 0, n) == r[0]
  {
    ValLow(r, 0, n);
    ValZero(r, 1, n);
  }

  /** Fewer significant digits means a smaller number. */
  lemma SmallerBySize(u: seq<Digit>, un: nat, v: seq<Digit>, n: nat)
    requires un < n <= |v| && un <= |u| && v[n - 1] != 0
    ensures Val(u, 0, un) < Val(v, 0, n)
  {
    ValTop(v, 0, n);
    ValBound(u, 0, un);
    PMono(un, n - 1);
  }

  lemma PMono(m: nat, n: nat)
    requires m <= n
    ensures P(m) <= P(n)
  {
    PowMono(BASE, m, n);
  }
}
