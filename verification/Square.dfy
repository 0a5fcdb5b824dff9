/**
 * mpSquare: squaring with each cross product doubled and a double-precision carry whose
 * overflow is remembered for the next round (Menezes, algorithm 14.16 with errata).
 */
module Square {
  import opened Arith
  import opened Digits
  import opened Value
  import opened Linear
  import opened SinglePrecision
  import opened Multiply

  /** A three-word number `k:p1:p0`. */
  function Words(p0: Digit, p1: Digit, k: int): int {
    p0 + p1 * BASE + k * (BASE * BASE)
  }

  lemma CarryInto(p1: int, k: int)
    ensures (p1 + BASE) * BASE + k * (BASE * BASE) == p1 * BASE + (k + 1) * (BASE * BASE)
  {
    Spread(p1, BASE, BASE);
    Spread(k, 1, BASE * BASE);
  }

  /** Add a digit at the bottom of three words, as `p[0] += d` with its carries. */
  method AddLow(p0: Digit, p1: Digit, k: Digit, d: Digit) returns (r0: Digit, r1: Digit, r2: Digit)
    requires k < 16
    ensures r2 <= k + 1 && Words(r0, r1, r2) == Words(p0, p1, k) + d
  {
    Sizes();
    r0, r1, r2 := AddW(p0, d), p1, k;
    if r0 < d {
      r1 := AddW(r1, 1);
      if r1 == 0 {
        r2 := r2 + 1;
      }
    }
    CarryInto(0, k);
    assert (p1 + 1) * BASE == p1 * BASE + BASE;
  }

  /** Add a digit at the middle of three words, as `p[1] += d` with its carry. */
  method AddMiddle(p0: Digit, p1: Digit, k: Digit, d: Digit) returns (r1: Digit, r2: Digit)
    requires k < 16
    ensures r2 <= k + 1 && Words(p0, r1, r2) == Words(p0, p1, k) + d * BASE
  {
    Sizes();
    r1, r2 := AddW(p1, d), k;
    if r1 < d {
      r2 := r2 + 1;
    }
    CarryInto(r1, k);
    assert (p1 + d) * BASE == p1 * BASE + d * BASE;
  }

  /** Double a two-word product into three words. */
  method DoubleProduct(p0: Digit, p1: Digit) returns (r0: Digit, r1: Digit, k: Digit)
    ensures k <= 1 && Words(r0, r1, k) == 2 * (p1 * BASE + p0)
  {
    hide Pow2, Pow, HighBit, BitOr;
    Sizes();
    HighBitIs(p0);
    HighBitIs(p1);
    DoubledEven(p1);
    var cbit := if HighBit(p0) then 1 else 0;
    k := if HighBit(p1) then 1 else 0;
    r0, r1 := AddW(p0, p0), AddW(p1, p1);
    assert r1 % 2 == 0;
    OrOne(r1, cbit);
    r1 := BitOr(r1, cbit);
    DoubleWords(p0, p1, cbit, k);
  }

  lemma DoubledEven(x: Digit)
    ensures AddW(x, x) % 2 == 0
  {
    hide Pow, Pow2;
    BaseIsEven();
    var h := Pow(2, BITS - 1);
    Twice(if x + x < BASE then x else x - h);
  }

  lemma Twice(x: int)
    ensures (2 * x) % 2 == 0
  {}

  lemma OrOne(x: Digit, c: Digit)
    requires x % 2 == 0 && c <= 1
    ensures BitOr(x, c) == x + c < BASE
  {
    hide BitOr, Pow2, Pow;
    BaseIsEven();
    PowOne(2);
    OrDisjoint(x / 2, c, 1, 2);
  }

  lemma DoubleWords(p0: int, p1: int, c: int, k: int)
    ensures (2 * p0 - c * BASE) + (2 * p1 - k * BASE + c) * BASE + k * (BASE * BASE) == 2 * (p1 * BASE + p0)
  {
    Spread(2 * p1 - k * BASE, c, BASE);
    Spread(2 * p1, -k * BASE, BASE);
    Assoc(k, BASE, BASE);
    Negate(k, BASE);
    Negate(k * BASE, BASE);
  }

  /** Two words `u1:u0` as carried between columns. */
  function Pair(u0: Digit, u1: Digit): int {
    u0 + u1 * BASE
  }

  lemma WordsIsPair(p0: Digit, p1: Digit, k: Digit)
    ensures Words(p0, p1, k) == p0 + BASE * Pair(p1, k)
  {}

  /** Step 2.1: the diagonal term, taking in the remembered overflow when it falls here. */
  method DiagonalTerm(x: Digit, w: Digit, carry: Digit) returns (p0: Digit, p1: Digit, k: Digit)
    ensures k <= 1 && Words(p0, p1, k) == x * x + w + carry * BASE
  {
    Sizes();
    p0, p1 := SpMultiply(x, x);
    ProductRoom(x, x, p0, p1);
    p0, p1, k := AddLow(p0, p1, 0, w);
    NoThirdWord(x, w, p0, p1, k);
    p1, k := AddMiddle(p0, p1, k, carry);
  }

  lemma NoThirdWord(x: Digit, w: Digit, p0: Digit, p1: Digit, k: Digit)
    requires Words(p0, p1, k) == x * x + w
    ensures k == 0
  {
    hide Words, Pow, Pow2;
    LargestProduct(x, x);
    WordsAre(p0, p1, k);
    MulLe(0, p1, BASE);
    CancelLt(k, 1, BASE * BASE);
  }

  /** Step 2.2 for one column: twice the cross product, the carry, the old digit and any remembered overflow. */
  method CrossTerm(x: Digit, y: Digit, u0: Digit, u1: Digit, w: Digit, carry: Digit)
    returns (p0: Digit, p1: Digit, k: Digit)
    ensures Words(p0, p1, k) == 2 * (x * y) + Pair(u0, u1) + w + carry * BASE
    ensures u1 <= 1 && carry == 0 ==> k <= 1
  {
    hide Words, Pair;
    p0, p1 := SpMultiply(x, y);
    p0, p1, k := DoubleProduct(p0, p1);
    p0, p1, k := AddLow(p0, p1, k, u0);
    p1, k := AddMiddle(p0, p1, k, u1);
    PairIs(u0, u1);
    p0, p1, k := AddLow(p0, p1, k, w);
    if carry != 0 {
      p1, k := AddMiddle(p0, p1, k, carry);
    } else if u1 <= 1 {
      PlainColumn(x, y, u0, u1, w, p0, p1, k);
    }
  }

  /** Without a remembered overflow, a column passes on a third word of at most 1 if it was given one. */
  lemma PlainColumn(x: Digit, y: Digit, u0: Digit, u1: Digit, w: Digit, p0: Digit, p1: Digit, k: Digit)
    requires Words(p0, p1, k) == 2 * (x * y) + Pair(u0, u1) + w && u1 <= 1
    ensures k <= 1
  {
    hide Words, Pair, Pow, Pow2;
    WordsAre(p0, p1, k);
    PairIs(u0, u1);
    LargestProduct(x, y);
    MulLe(u1, 1, BASE);
    MulLe(0, p1, BASE);
    ColumnBelow(x * y, u1 * BASE, p1 * BASE, k * (BASE * BASE), BASE * BASE, u0, w, p0);
    CancelLt(k, 2, BASE * BASE);
  }

  lemma WordsAre(p0: Digit, p1: Digit, k: Digit)
    ensures Words(p0, p1, k) == p0 + p1 * BASE + k * (BASE * BASE)
  {}

  lemma LargestProduct(x: Digit, y: Digit)
    ensures 0 <= x * y <= BASE * BASE - 2 * BASE + 1 && 0 < BASE * BASE
  {
    DigitProduct(x, y);
    Spread(BASE, -1, BASE - 1);
  }

  lemma ColumnBelow(xy: int, u: int, p: int, k: int, bb: int, u0: Digit, w: Digit, p0: Digit)
    requires p0 + p + k == 2 * xy + (u0 + u) + w && xy <= bb - 2 * BASE + 1 && u <= BASE && 0 <= p
    ensures k < 2 * bb
  {}

  lemma PairIs(u0: Digit, u1: Digit)
    ensures Pair(u0, u1) == u0 + u1 * BASE
  {}

  /** What round `i` has accumulated once its columns below `i + j` are written. */
  ghost predicate RowSoFar(w: seq<Digit>, w0: seq<Digit>, x: seq<Digit>, t: nat, i: nat, j: nat, u: int, c: int,
                           c0: int)
    requires i < j <= t <= |x| && 2 * t <= |w| == |w0|
  {
    Val(w, 2 * i, i + j) + u * P(j - i) + c * P(t - i)
    == Val(w0, 2 * i, i + j) + c0 * P(t - i) + x[i] * (x[i] + 2 * BASE * Val(x, i + 1, j))
  }

  lemma RowStart(w: seq<Digit>, w0: seq<Digit>, x: seq<Digit>, t: nat, i: nat, u: int, c: int, c0: int)
    requires i < t <= |x| && 2 * t <= |w| == |w0|
    requires w[2 * i] + BASE * u == x[i] * x[i] + w0[2 * i] + (c0 - c) * BASE
    requires c != c0 ==> i + 1 == t
    ensures RowSoFar(w, w0, x, t, i, i + 1, u, c, c0)
  {
    PStep(0);
    ValEmpty(w, 2 * i);
    ValEmpty(w0, 2 * i);
    ValEmpty(x, i + 1);
    ValExtend(w, w, 2 * i, 2 * i);
    ValExtend(w0, w0, 2 * i, 2 * i);
    if c != c0 { assert (c0 - c) * P(t - i) == (c0 - c) * BASE; }
  }

  lemma RowNext(w: seq<Digit>, w': seq<Digit>, w0: seq<Digit>, x: seq<Digit>, t: nat, i: nat, j: nat, u: int, u': int,
                c: int, c': int, c0: int)
    requires i < j < t <= |x| && 2 * t <= |w| == |w0| == |w'|
    requires forall a | 2 * i <= a < i + j :: w[a] == w'[a]
    requires RowSoFar(w, w0, x, t, i, j, u, c, c0)
    requires w'[i + j] + BASE * u' == 2 * (x[j] * x[i]) + u + w0[i + j] + (c - c') * BASE
    requires c != c' ==> j + 1 == t
    ensures RowSoFar(w', w0, x, t, i, j + 1, u', c', c0)
  {
    hide Val, P, Pow, Pow2;
    ValExtend(w, w', 2 * i, i + j);
    ValExtend(w0, w0, 2 * i, i + j);
    ValExtend(x, x, i + 1, j);
    PStep(j - i);
    PStep(j - i - 1);
    var p, q := P(j - i), P(j - i - 1);
    OverflowWeight(c - c', P(t - i), BASE * p);
    RowArith(p, q, u, u', w'[i + j], w0[i + j], x[j], x[i], c - c', Val(x, i + 1, j));
    SpreadDifference(c, c', P(t - i));
  }

  lemma OverflowWeight(c: int, p: int, q: int)
    requires c != 0 ==> p == q
    ensures c * p == c * q
  {}

  /** The third word of the running carry is at most 1 in every column, also where the overflow is taken in. */
  lemma ThirdWord(w: seq<Digit>, w0: seq<Digit>, x: seq<Digit>, t: nat, i: nat, j: nat, u0: Digit, u1: Digit, c: int,
                  c0: int)
    requires i < j <= t <= |x| && 2 * t <= |w| == |w0|
    requires RowSoFar(w, w0, x, t, i, j, Pair(u0, u1), c, c0)
    requires 0 <= c <= c0 <= 1 && (c != c0 ==> j == t)
    ensures u1 <= 1
  {
    hide Val, P, Pow, Pow2, Pair;
    var p, q := P(j - i), P(j - i - 1);
    ValBound(w0, 2 * i, i + j);
    ValBound(x, i + 1, j);
    PStep(j - i - 1);
    OverflowTaken(c, c0, P(t - i), p);
    var y := x[i] * (x[i] + 2 * BASE * Val(x, i + 1, j));
    CrossBound(x[i], Val(x, i + 1, j), q);
    BelowTwice(Val(w, 2 * i, i + j), Pair(u0, u1) * p, c * P(t - i), Val(w0, 2 * i, i + j), c0 * P(t - i), y, p);
    CancelLt(Pair(u0, u1), 2 * BASE, p);
    PairIs(u0, u1);
    if u1 >= 2 { MulLe(2, u1, BASE); }
  }

  lemma BelowTwice(a: int, u: int, c: int, b: int, c0: int, y: int, p: int)
    requires a + u + c == b + c0 + y && 0 <= a && b < p && c0 - c <= p && y <= 2 * (BASE * p) - 2 * p
    ensures u < (2 * BASE) * p
  {
    Assoc(2, BASE, p);
  }

  lemma OverflowTaken(c: int, c0: int, q: int, p: int)
    requires 0 <= c <= c0 <= 1 && 0 <= p && (c != c0 ==> q == p)
    ensures c0 * q - c * q <= p
  {}

  lemma CrossBound(d: Digit, v: nat, q: nat)
    requires v < q
    ensures d * (d + 2 * BASE * v) <= 2 * (BASE * (BASE * q)) - 2 * (BASE * q)
  {
    hide Pow, Pow2;
    var b := BASE * q;
    RoomAbove(v, q);
    ProductAtMost(d, BASE - 1, d + 2 * BASE * v, 2 * b);
    Spread(BASE, -1, 2 * b);
  }

  lemma RoomAbove(v: nat, q: nat)
    requires v < q
    ensures 0 <= 2 * BASE * v <= 2 * (BASE * q) - 2 * BASE
  {
    MulLe(v + 1, q, BASE);
    MulLe(0, v, BASE);
  }

  lemma ProductAtMost(d: int, m: int, e: int, f: int)
    requires 0 <= d <= m && 0 <= e <= f
    ensures d * e <= m * f
  {
    MulLe(d, m, e);
    MulLe(e, f, m);
  }

  lemma RowArith(p: int, q: int, u: int, u': int, d: int, e: int, y: int, x: int, c: int, v: int)
    requires p == BASE * q
    requires d + BASE * u' == 2 * (y * x) + u + e + c * BASE
    ensures d * p + u' * (BASE * p)
      == e * p + u * p + c * (BASE * p) + x * (x + 2 * BASE * (v + y * q)) - x * (x + 2 * BASE * v)
  {
    assert d * p + u' * (BASE * p) == (d + BASE * u') * p;
    assert (2 * (y * x) + u + e + c * BASE) * p == 2 * (y * x) * p + u * p + e * p + c * (BASE * p);
    assert x * (x + 2 * BASE * (v + y * q)) - x * (x + 2 * BASE * v) == x * (2 * (BASE * (y * q)));
    assert BASE * (y * q) == y * p;
    assert x * (2 * (y * p)) == 2 * (y * x) * p;
  }

  /** Round `i` of the squaring; the overflow `carry` of the round before sits at column `i + t`. */
  method SquareRow(w: array<Digit>, x: array<Digit>, t: nat, i: nat, cpos: int, carry: Digit) returns (carry': Digit)
    requires w != x && i < t <= x.Length && 2 * t <= w.Length
    requires carry == 0 || cpos + 1 == i + t
    modifies w
    ensures carry <= 1 ==> carry' <= 1
    ensures Val(w[..], 2 * i, i + t + 1) + carry' * P(t - i + 1)
      == old(Val(w[..], 2 * i, i + t)) + carry * P(t - i) + x[i] * (x[i] + 2 * BASE * Val(x[..], i + 1, t))
    ensures SameOutside(w[..], old(w[..]), 2 * i, i + t + 1)
  {
    hide Val, P, Words, Pair, RowSoFar;
    ghost var w0, xs := w[..], x[..];
    carry' := carry;
    var p0, p1, k;
    if 2 * i == cpos && carry' != 0 {
      p0, p1, k := DiagonalTerm(x[i], w[2 * i], carry');
      carry' := 0;
    } else {
      p0, p1, k := DiagonalTerm(x[i], w[2 * i], 0);
    }
    w[2 * i] := p0;
    var u0, u1 := p1, k;
    WordsIsPair(p0, p1, k);
    RowStart(w[..], w0, xs, t, i, Pair(u0, u1), carry', carry);
    for j := i + 1 to t
      invariant carry' == if j == t then 0 else carry
      invariant carry <= 1 ==> u1 <= 1
      invariant RowSoFar(w[..], w0, xs, t, i, j, Pair(u0, u1), carry', carry)
      invariant SameOutside(w[..], w0, 2 * i, i + j)
    {
      ghost var before, u, c := w[..], Pair(u0, u1), carry';
      assert w[i + j] == w0[i + j] && x[j] == xs[j];
      if i + j == cpos && carry' != 0 {
        p0, p1, k := CrossTerm(x[j], x[i], u0, u1, w[i + j], carry');
        carry' := 0;
      } else {
        p0, p1, k := CrossTerm(x[j], x[i], u0, u1, w[i + j], 0);
      }
      w[i + j] := p0;
      u0, u1 := p1, k;
      WordsIsPair(p0, p1, k);
      RowNext(before, w[..], w0, xs, t, i, j, u, Pair(u0, u1), c, carry', carry);
      if carry <= 1 { ThirdWord(w[..], w0, xs, t, i, j + 1, u0, u1, carry', carry); }
    }
    ghost var done := w[..];
    w[i + t] := u0;
    RowEnd(done, w[..], w0, xs, t, i, u0, u1, carry);
    carry' := u1;
  }

  lemma RowEnd(w: seq<Digit>, w': seq<Digit>, w0: seq<Digit>, x: seq<Digit>, t: nat, i: nat, u0: Digit, u1: Digit,
               c0: int)
    requires i < t <= |x| && 2 * t <= |w| == |w0| == |w'|
    requires RowSoFar(w, w0, x, t, i, t, Pair(u0, u1), 0, c0)
    requires w' == w[i + t := u0]
    ensures Val(w', 2 * i, i + t + 1) + u1 * P(t - i + 1)
      == Val(w0, 2 * i, i + t) + c0 * P(t - i) + x[i] * (x[i] + 2 * BASE * Val(x, i + 1, t))
  {
    hide Val, P;
    ValExtend(w, w', 2 * i, i + t);
    PStep(t - i);
    TopPair(Val(w, 2 * i, i + t), u0, u1, P(t - i));
  }

  lemma TopPair(a: int, u0: int, u1: int, p: int)
    ensures a + u0 * p + u1 * (BASE * p) == a + (u0 + u1 * BASE) * p
  {}

  /** The part of `x * x` whose lower index is below `i`: what the first `i` rounds have added. */
  function Partial(x: seq<Digit>, i: nat, t: nat): int
    requires i <= t <= |x|
  {
    Val(x, 0, i) * (Val(x, 0, t) + P(i) * Val(x, i, t))
  }

  lemma PartialStep(x: seq<Digit>, i: nat, t: nat)
    requires i < t <= |x|
    ensures Partial(x, i + 1, t) == Partial(x, i, t) + P(2 * i) * (x[i] * (x[i] + 2 * BASE * Val(x, i + 1, t)))
  {
    hide Val, P;
    ValSplit(x, 0, i, t);
    ValSplit(x, 0, i + 1, t);
    ValLow(x, i, t);
    ValExtend(x, x, 0, i);
    PStep(i);
    PAdd(i, i);
    PartialArith(Val(x, 0, i), P(i), x[i], Val(x, i + 1, t));
  }

  lemma PartialArith(a: int, p: int, d: int, h: int)
    ensures (a + d * p) * (a + d * p + 2 * (BASE * p * h))
      == a * (a + 2 * (p * (d + BASE * h))) + p * p * (d * (d + 2 * BASE * h))
  {
    var e, g := d * p, BASE * p * h;
    assert p * (d + BASE * h) == e + g;
    assert (a + e) * (a + e + 2 * g) == a * (a + 2 * (e + g)) + e * (e + 2 * g);
    assert e * (e + 2 * g) == p * p * (d * (d + 2 * BASE * h)) by {
      assert e * e == p * p * (d * d);
      assert e * (2 * g) == p * p * (d * (2 * BASE * h));
      assert d * (d + 2 * BASE * h) == d * d + d * (2 * BASE * h);
      assert p * p * (d * d + d * (2 * BASE * h)) == p * p * (d * d) + p * p * (d * (2 * BASE * h));
    }
  }

  /** After any number of rounds the overflow above column `i + t` is at most 1. */
  lemma PartialBound(x: seq<Digit>, i: nat, t: nat, low: int, carry: int)
    requires i <= t <= |x| && 0 <= low && low + carry * P(i + t) == Partial(x, i, t)
    ensures carry <= 1 && (i == t ==> carry <= 0)
  {
    hide Val, P;
    ValSplit(x, 0, i, t);
    ValBound(x, 0, i);
    ValBound(x, 0, t);
    PAdd(i, t);
    var a, v, h := Val(x, 0, i), Val(x, 0, t), P(i) * Val(x, i, t);
    BelowProduct(a, v, h, P(i), P(t));
    CancelLt(carry, 2, P(i + t));
    if i == t {
      ValEmpty(x, t);
      assert h == 0;
      MulLt(v, P(t), P(t));
      MulLe(v, P(t), v);
      CancelLt(carry, 1, P(i + t));
    }
  }

  lemma BelowProduct(a: int, v: int, h: int, p: int, q: int)
    requires 0 <= a < p && 0 <= h <= v < q
    ensures a * (v + h) < 2 * (p * q)
  {
    MulLe(a, p, v + h);
    MulLt(v + h, 2 * q, p);
  }

  lemma SquareStep(w0: seq<Digit>, w: seq<Digit>, x: seq<Digit>, i: nat, t: nat, c0: int, c: int)
    requires i < t <= |x| && 2 * t <= |w0| == |w|
    requires forall a | 0 <= a < 2 * i :: w0[a] == w[a]
    requires Val(w0, 0, i + t) + c0 * P(i + t) == Partial(x, i, t)
    requires Val(w, 2 * i, i + t + 1) + c * P(t - i + 1)
      == Val(w0, 2 * i, i + t) + c0 * P(t - i) + x[i] * (x[i] + 2 * BASE * Val(x, i + 1, t))
    ensures Val(w, 0, i + 1 + t) + c * P(i + 1 + t) == Partial(x, i + 1, t)
  {
    hide Val, P, Partial;
    ValSplit(w0, 0, 2 * i, i + t);
    ValSplit(w, 0, 2 * i, i + t + 1);
    ValSame(w0, 0, w, 0, 2 * i);
    PAdd(2 * i, t - i);
    PAdd(2 * i, t - i + 1);
    PartialStep(x, i, t);
    var r := x[i] * (x[i] + 2 * BASE * Val(x, i + 1, t));
    SquareArith(Val(w0, 0, 2 * i), P(2 * i), Val(w0, 2 * i, i + t), c0, P(t - i), r, Val(w, 2 * i, i + t + 1), c,
      P(t - i + 1));
  }

  lemma SquareArith(a: int, p: int, b: int, c0: int, q: int, r: int, b': int, c: int, q': int)
    requires b' + c * q' == b + c0 * q + r
    ensures a + p * b' + c * (p * q') == a + p * b + c0 * (p * q) + p * r
  {
    assert p * (b' + c * q') == p * b' + c * (p * q');
    assert p * (b + c0 * q + r) == p * b + c0 * (p * q) + p * r;
  }

  /** mpSquare: the same number mpMultiply gives for `x * x`; the remembered overflow never exceeds 1 and ends at 0. */
  method MpSquare(w: array<Digit>, x: array<Digit>, t: nat)
    requires w != x && 2 * t <= w.Length && t <= x.Length
    modifies w
    ensures Num(w, 2 * t) == Num(x, t) * Num(x, t)
    ensures SameOutside(w[..], old(w[..]), 0, 2 * t)
  {
    hide Val, P, Partial;
    MpSetZero(w, 2 * t);
    ghost var xs := x[..];
    var carry: Digit, cpos: int := 0, 2 * t - 1;
    ValZero(w[..], 0, t);
    PartialStart(xs, t);
    for i := 0 to t
      invariant carry <= 1 && (carry == 0 || cpos + 1 == i + t)
      invariant Val(w[..], 0, i + t) + carry * P(i + t) == Partial(xs, i, t)
      invariant forall a | i + t <= a < 2 * t :: w[..][a] == 0
      invariant SameOutside(w[..], old(w[..]), 0, 2 * t)
    {
      ghost var before, c0 := w[..], carry;
      carry := SquareRow(w, x, t, i, cpos, carry);
      cpos := i + t;
      SquareStep(before, w[..], xs, i, t, c0, carry);
      PartialBound(xs, i + 1, t, Val(w[..], 0, i + 1 + t), carry);
    }
    PartialBound(xs, t, t, Val(w[..], 0, 2 * t), carry);
    PartialEnd(xs, t);
  }

  lemma PartialStart(x: seq<Digit>, t: nat)
    requires t <= |x|
    ensures Partial(x, 0, t) == 0
  {
    assert 0 * (Val(x, 0, t) + P(0) * Val(x, 0, t)) == 0;
  }

  lemma PartialEnd(x: seq<Digit>, t: nat)
    requires t <= |x|
    ensures Partial(x, t, t) == Val(x, 0, t) * Val(x, 0, t)
  {
    assert P(t) * Val(x, t, t) == 0;
  }
}
