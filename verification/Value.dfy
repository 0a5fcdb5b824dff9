/** The natural number held in a little-endian stretch of digits. */
module Value {
  import opened Arith
  import opened Digits

  /** The weight BASE^n of the digit at position n. */
  function P(n: nat): (r: nat)
    ensures r >= 1
  {
    PowPos(BASE, n); Pow(BASE, n)
  }

  /** Value of the digits `s[lo..hi]`, least significant first. */
  function Val(s: seq<Digit>, lo: nat, hi: nat): nat
    requires lo <= hi <= |s|
    decreases hi
  {
    if lo == hi then 0 else Val(s, lo, hi - 1) + s[hi - 1] * P(hi - 1 - lo)
  }

  lemma PStep(n: nat)
    ensures P(n + 1) == BASE * P(n)
    ensures P(0) == 1 && P(1) == BASE
  {}

  lemma PAdd(m: nat, n: nat)
    ensures P(m + n) == P(m) * P(n)
  {
    PowAdd(BASE, m, n);
  }

  /** Equal digits have equal value, wherever they are stored. */
  lemma {:induction false} ValSame(s: seq<Digit>, a: nat, t: seq<Digit>, b: nat, n: nat)
    requires a + n <= |s| && b + n <= |t|
    requires forall i | a <= i < a + n :: s[i] == t[i - a + b]
    ensures Val(s, a, a + n) == Val(t, b, b + n)
  {
    if n != 0 {
      ValSame(s, a, t, b, n - 1);
    }
  }

  /** Writing the digit at `hi` extends the value of the digits below it. */
  lemma ValExtend(s: seq<Digit>, t: seq<Digit>, lo: nat, hi: nat)
    requires lo <= hi < |s| == |t|
    requires forall i | lo <= i < hi :: s[i] == t[i]
    ensures Val(t, lo, hi + 1) == Val(s, lo, hi) + t[hi] * P(hi - lo)
  {
    ValSame(s, lo, t, lo, hi - lo);
  }

  lemma {:induction false} ValSplit(s: seq<Digit>, lo: nat, mid: nat, hi: nat)
    requires lo <= mid <= hi <= |s|
    ensures Val(s, lo, hi) == Val(s, lo, mid) + P(mid - lo) * Val(s, mid, hi)
    decreases hi
  {
    if mid != hi {
      ValSplit(s, lo, mid, hi - 1);
      PAdd(mid - lo, hi - 1 - mid);
      SplitStep(Val(s, lo, mid), P(mid - lo), Val(s, mid, hi - 1), s[hi - 1], P(hi - 1 - mid));
    }
  }

  lemma SplitStep(a: int, p: int, v: int, d: int, q: int)
    ensures a + p * v + d * (p * q) == a + p * (v + d * q)
  {
    assert p * (v + d * q) == p * v + p * (d * q);
    assert p * (d * q) == d * (p * q);
  }

  /** The lowest digit splits off. */
  lemma ValLow(s: seq<Digit>, lo: nat, hi: nat)
    requires lo < hi <= |s|
    ensures Val(s, lo, hi) == s[lo] + BASE * Val(s, lo + 1, hi)
  {
    ValSplit(s, lo, lo + 1, hi);
    PStep(0);
    assert Val(s, lo, lo + 1) == Val(s, lo, lo) + s[lo] * P(0);
  }

  lemma {:induction false} ValBound(s: seq<Digit>, lo: nat, hi: nat)
    requires lo <= hi <= |s|
    ensures Val(s, lo, hi) < P(hi - lo)
    decreases hi
  {
    if lo != hi {
      ValBound(s, lo, hi - 1);
      PStep(hi - 1 - lo);
      DigitBelow(Val(s, lo, hi - 1), s[hi - 1], BASE, P(hi - 1 - lo));
    }
  }

  lemma DigitBelow(a: int, d: int, e: int, p: int)
    requires 0 <= a < p && d < e
    ensures a + d * p < e * p
  {
    MulLe(d + 1, e, p);
  }

  lemma {:induction false} ValZero(s: seq<Digit>, lo: nat, hi: nat)
    requires lo <= hi <= |s|
    ensures Val(s, lo, hi) == 0 <==> forall i | lo <= i < hi :: s[i] == 0
    decreases hi
  {
    if lo != hi {
      ValZero(s, lo, hi - 1);
      var d, p := s[hi - 1], P(hi - 1 - lo);
      if d != 0 { MulLe(1, d, p); } else { assert d * p == 0; }
    }
  }

  /** High zero digits do not count. */
  lemma ValTrim(s: seq<Digit>, lo: nat, mid: nat, hi: nat)
    requires lo <= mid <= hi <= |s|
    requires forall i | mid <= i < hi :: s[i] == 0
    ensures Val(s, lo, hi) == Val(s, lo, mid)
  {
    ValSplit(s, lo, mid, hi);
    ValZero(s, mid, hi);
  }

  /** A non-zero top digit gives the value its full size. */
  lemma ValTop(s: seq<Digit>, lo: nat, hi: nat)
    requires lo < hi <= |s| && s[hi - 1] != 0
    ensures Val(s, lo, hi) >= P(hi - 1 - lo)
  {
    MulLe(1, s[hi - 1], P(hi - 1 - lo));
  }

  /** Numbers compare as their most significant differing digits do. */
  lemma ValLess(s: seq<Digit>, t: seq<Digit>, k: nat, n: nat)
    requires k < n <= |s| && n <= |t|
    requires s[k] < t[k]
    requires forall i | k < i < n :: s[i] == t[i]
    ensures Val(s, 0, n) < Val(t, 0, n)
  {
    ValSplit(s, 0, k + 1, n);
    ValSplit(t, 0, k + 1, n);
    ValSame(s, k + 1, t, k + 1, n - k - 1);
    ValBound(s, 0, k);
    DigitBelow(Val(s, 0, k), s[k], t[k], P(k));
  }

  /** The representation is unique at a given length. */
  lemma {:induction false} ValInjective(s: seq<Digit>, t: seq<Digit>, n: nat)
    requires n <= |s| && n <= |t|
    requires Val(s, 0, n) == Val(t, 0, n)
    ensures forall i | 0 <= i < n :: s[i] == t[i]
  {
    if n != 0 {
      var k := n - 1;
      if s[k] < t[k] { ValLess(s, t, k, n); }
      if t[k] < s[k] { ValLess(t, s, k, n); }
      ValInjective(s, t, k);
    }
  }

  /** One step of a carry chain: digit `d` and carry `k'` absorb `y` and carry `k` at weight `p`. */
  lemma CarryStep(a: int, k: int, x: int, d: int, k': int, y: int, p: int)
    requires a + k * p == x && d + k' * BASE == y + k
    ensures (a + d * p) + k' * (BASE * p) == x + y * p
  {
    assert d * p + k' * (BASE * p) == (d + k' * BASE) * p;
    assert (y + k) * p == y * p + k * p;
  }
}
