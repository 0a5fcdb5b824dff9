/** Modular multiplication and exponentiation on digit arrays. */
module ModExp {
  import opened Arith
  import opened Digits
  import opened Value
  import opened Linear
  import opened Shift
  import opened Multiply
  import opened Square
  import opened Divide
  import opened NumberTheory
  import opened ExponentBits

  /** mpAlloc: at least one digit, all zero. */
  method MpAlloc(n: nat) returns (a: array<Digit>)
    ensures fresh(a) && a.Length == (if n < 1 then 1 else n)
    ensures forall i | 0 <= i < a.Length :: a[i] == 0
  {
    Sizes();
    a := new Digit[if n < 1 then 1 else n](_ => 0);
  }

  lemma RemainderUnique(u: nat, q: nat, v: nat, r: nat)
    requires r < v && u == q * v + r
    ensures v != 0 && u % v == r && u / v == q
  {
    DivModUnique(u, v, q, r);
  }

  /** mpModulo: `r` is `vdigits` long; a zero modulus gives 0. */
  method MpModulo(r: array<Digit>, u: array<Digit>, udigits: nat, v: array<Digit>, vdigits: nat)
    requires u == v ==> udigits == vdigits
    requires udigits <= u.Length && vdigits <= v.Length && vdigits <= r.Length
    modifies r, v
    ensures r != v ==> v[..] == old(v[..])
    ensures Num(r, vdigits) == if old(Num(v, vdigits)) == 0 then 0 else old(Num(u, udigits)) % old(Num(v, vdigits))
    ensures SameOutside(r[..], old(r[..]), 0, vdigits)
  {
    hide Val, P;
    ghost var x, d := Num(u, udigits), Num(v, vdigits);
    var nn := if udigits > vdigits then udigits else vdigits;
    var qq := MpAlloc(udigits);
    var rr := MpAlloc(nn);
    ghost var z := rr[..];
    var code := MpDivide(qq, rr, u, udigits, v, vdigits);
    assert forall i | udigits <= i < nn :: rr[..][i] == z[i] == 0 || i == 0;
    assert udigits == 0 ==> rr[..][0] == rr[0] == z[0] == 0;
    ValBound(v[..], 0, vdigits);
    RemainderWidth(rr[..], udigits, vdigits, nn, d);
    if d != 0 { RemainderUnique(x, Num(qq, udigits), d, Num(rr, udigits)); }
    MpSetEqual(r, rr, vdigits);
  }

  /** The remainder computed over `udigits` fits the divisor's length. */
  lemma RemainderWidth(r: seq<Digit>, udigits: nat, vdigits: nat, nn: nat, d: nat)
    requires nn <= |r| && udigits <= nn && vdigits <= nn && (nn == udigits || nn == vdigits)
    requires forall i | udigits <= i < nn :: r[i] == 0
    requires d < P(vdigits) && (Val(r, 0, udigits) < d || Val(r, 0, udigits) == 0)
    ensures Val(r, 0, vdigits) == Val(r, 0, udigits)
  {
    hide Val, P;
    if nn == udigits {
      ValSplit(r, 0, vdigits, udigits);
      var h := Val(r, vdigits, udigits);
      if h >= 1 { MulLe(1, h, P(vdigits)); } else { assert P(vdigits) * h == 0; }
    } else {
      ValTrim(r, 0, udigits, vdigits);
    }
  }

  /** Reduction as mpDivide performs it: a zero modulus gives a zero remainder. */
  function Reduce(x: int, m: nat): nat {
    if m == 0 then 0 else x % m
  }

  lemma ReduceIs(x: int, m: nat)
    ensures Reduce(x, m) == if m == 0 then 0 else x % m
  {}

  /** Where an answer that was not reduced is right all the same. */
  lemma RawPower(x: nat, e: nat, m: nat)
    ensures m > 0 ==> Reduce(Pow(x, e), m) == Pow(x, e) % m
    ensures m > 0 && e == 0 ==> (1 == Pow(x, e) % m <==> m > 1) && (x == Pow(x, e) % m <==> x == 1 % m)
    ensures m > 0 && e == 1 ==> (x == Pow(x, e) % m <==> x < m)
  {
    hide Pow;
    PowOne(x);
    if 0 < m && x < m { DivModUnique(x, m, 0, x); }
    if 1 < m { DivModUnique(1, m, 0, 1); }
  }

  lemma ReduceMul(a: int, b: int, c: int, d: int, m: nat)
    requires Reduce(a, m) == Reduce(b, m) && Reduce(c, m) == Reduce(d, m)
    ensures Reduce(a * c, m) == Reduce(b * d, m)
  {
    if m > 0 { CongruentMul(a, b, c, d, m); }
  }

  lemma ReduceTwice(x: int, m: nat)
    ensures Reduce(Reduce(x, m), m) == Reduce(x, m)
  {
    if m > 0 { DivModUnique(x % m, m, 0, x % m); }
  }

  /** mpModMult: `a = (x * y) mod m`; `a` may be `x` or `y`. */
  method MpModMult(a: array<Digit>, x: array<Digit>, y: array<Digit>, m: array<Digit>, n: nat)
    requires 1 <= n <= a.Length && n <= x.Length && n <= y.Length && n <= m.Length
    modifies a, m
    ensures a != m ==> m[..] == old(m[..])
    ensures Num(a, n) == Reduce(old(Num(x, n) * Num(y, n)), old(Num(m, n)))
    ensures SameOutside(a[..], old(a[..]), 0, n)
  {
    hide Val, P;
    var p := MpAlloc(2 * n);
    MpMultiply(p, x, y, n);
    MpModulo(a, p, 2 * n, m, n);
  }

  /** The macro mpMODMULTTEMP: `y = (y * x) mod m` with caller-supplied temporaries. */
  method ModMultTemp(y: array<Digit>, x: array<Digit>, m: array<Digit>, n: nat, t1: array<Digit>, t2: array<Digit>)
    requires n >= 1 && 2 * n <= y.Length && 2 * n <= t1.Length && 2 * n <= t2.Length && n <= x.Length && n <= m.Length
    requires y != m && y != t1 && y != t2 && m != t1 && m != t2 && t1 != t2 && x != t1
    modifies y, m, t1, t2
    ensures m[..] == old(m[..])
    ensures Num(y, n) == Reduce(old(Num(x, n) * Num(y, n)), Num(m, n))
  {
    hide Val, P;
    MpMultiply(t1, x, y, n);
    ReduceInto(y, m, n, t1, t2);
  }

  /** The macro mpMODSQUARETEMP: `y = (y * y) mod m`. */
  method ModSquareTemp(y: array<Digit>, m: array<Digit>, n: nat, t1: array<Digit>, t2: array<Digit>)
    requires n >= 1 && 2 * n <= y.Length && 2 * n <= t1.Length && 2 * n <= t2.Length && n <= m.Length
    requires y != m && y != t1 && y != t2 && m != t1 && m != t2 && t1 != t2
    modifies y, m, t1, t2
    ensures m[..] == old(m[..])
    ensures Num(y, n) == Reduce(old(Num(y, n) * Num(y, n)), Num(m, n))
  {
    hide Val, P;
    MpSquare(t1, y, n);
    ReduceInto(y, m, n, t1, t2);
  }

  /** The division step shared by both macros. */
  method ReduceInto(y: array<Digit>, m: array<Digit>, n: nat, t1: array<Digit>, t2: array<Digit>)
    requires n >= 1 && 2 * n <= y.Length && 2 * n <= t1.Length && 2 * n <= t2.Length && n <= m.Length
    requires y != m && y != t1 && y != t2 && m != t1 && m != t2 && t1 != t2
    modifies y, m, t2
    ensures m[..] == old(m[..])
    ensures Num(y, n) == Reduce(old(Num(t1, 2 * n)), Num(m, n))
  {
    hide Val, P;
    ghost var x := Num(t1, 2 * n);
    var code := MpDivide(t2, y, t1, 2 * n, m, n);
    ValBound(m[..], 0, n);
    RemainderWidth(y[..], 2 * n, n, 2 * n, Num(m, n));
    if Num(m, n) != 0 { RemainderUnique(x, Num(t2, 2 * n), Num(m, n), Num(y, 2 * n)); }
  }

  /** `y` stands for the power `x^c` modulo `m`, and is reduced unless it is `x` itself. */
  ghost predicate Power(y: nat, x: nat, c: nat, m: nat) {
    && c >= 1
    && Reduce(y, m) == Reduce(Pow(x, c), m)
    && (c == 1 ==> y == x)
    && (c > 1 ==> y == Reduce(y, m))
  }

  lemma PowerSquare(y: nat, x: nat, c: nat, m: nat)
    requires Reduce(y, m) == Reduce(Pow(x, c), m)
    ensures Reduce(Reduce(y * y, m), m) == Reduce(Pow(x, 2 * c), m)
  {
    PowAdd(x, c, c);
    ReduceMul(y, Pow(x, c), y, Pow(x, c), m);
    ReduceTwice(y * y, m);
  }

  lemma PowerTimes(y: nat, x: nat, c: nat, z: nat, d: nat, m: nat)
    requires Reduce(y, m) == Reduce(Pow(x, c), m) && Reduce(z, m) == Reduce(Pow(x, d), m)
    ensures Reduce(Reduce(z * y, m), m) == Reduce(Pow(x, c + d), m)
  {
    PowAdd(x, c, d);
    ReduceMul(z, Pow(x, d), y, Pow(x, c), m);
    ReduceTwice(z * y, m);
    assert Pow(x, d) * Pow(x, c) == Pow(x, c) * Pow(x, d);
  }

  /** Square, then multiply when the bit is set. */
  lemma PowerBit(y: nat, y1: nat, y2: nat, x: nat, c: nat, m: nat, bit: bool)
    requires Power(y, x, c, m) && y1 == Reduce(y * y, m)
    requires y2 == if bit then Reduce(x * y1, m) else y1
    ensures Power(y2, x, 2 * c + (if bit then 1 else 0), m)
  {
    hide Reduce;
    PowerSquare(y, x, c, m);
    PowOne(x);
    ReduceTwice(y * y, m);
    if bit {
      PowerTimes(y1, x, 2 * c, x, 1, m);
      ReduceTwice(x * y1, m);
    }
  }

  /** mpModExp_1: the binary left-to-right method; exponents 0 and 1 are not reduced. */
  method MpModExp1(yout: array<Digit>, x: array<Digit>, e: array<Digit>, m: array<Digit>, n: nat)
    requires 1 <= n <= yout.Length && n <= x.Length && n <= e.Length && n <= m.Length
    requires m != yout && m != x && m != e
    modifies yout, m
    ensures m[..] == old(m[..])
    ensures Num(yout, n) == (if old(Num(e, n)) == 0 then 1 else if old(Num(e, n)) == 1 then old(Num(x, n))
      else Reduce(Pow(old(Num(x, n)), old(Num(e, n))), old(Num(m, n))))
    ensures var X, E, M := old(Num(x, n)), old(Num(e, n)), old(Num(m, n));
      M > 0 ==> (Num(yout, n) == Pow(X, E) % M <==> E >= 2 || (E == 1 && X < M) || (E == 0 && M > 1))
    ensures SameOutside(yout[..], old(yout[..]), 0, n)
  {
    hide Val, P, Reduce, Prefix, Bit, Pow, Power, Pos;
    ghost var X, E, M, es, ms := Num(x, n), Num(e, n), Num(m, n), e[..], m[..];
    RawPower(X, E, M);
    var t1 := MpAlloc(2 * n);
    var t2 := MpAlloc(2 * n);
    var y := MpAlloc(2 * n);
    var nd: nat := MpSizeof(e, n);
    if nd == 0 {
      ValEmpty(e[..], 0);
      Sizes();
      MpSetDigit(yout, 1, n);
      return;
    }
    var bit: nat := FindTopBit(e[nd - 1]);
    assert e[nd - 1] == es[nd - 1];
    TopPrefix(es, n, bit, nd);
    bit, nd := NextBit(bit, nd).0, NextBit(bit, nd).1;
    MpSetEqual(y, x, n);
    FirstPower(X, M);
    while nd != 0
      modifies y, t1, t2, m
      invariant bit < BITS && nd <= n
      invariant Power(Num(y, n), X, Prefix(E, Pos(bit, nd)), M)
      invariant m[..] == ms
      decreases Pos(bit, nd)
    {
      ghost var c, y0 := Prefix(E, Pos(bit, nd)), Num(y, n);
      PosPositive(bit, nd);
      BitOfNumber(es, n, bit, nd);
      PrefixStep(E, Pos(bit, nd) - 1 + 1);
      ModSquareTemp(y, m, n, t1, t2);
      ghost var y1 := Num(y, n);
      assert e[nd - 1] == es[nd - 1];
      if Bit(e[nd - 1], bit) {
        ModMultTemp(y, x, m, n, t1, t2);
      }
      PowerBit(y0, y1, Num(y, n), X, c, M, Bit(e[nd - 1], bit));
      bit, nd := NextBit(bit, nd).0, NextBit(bit, nd).1;
    }
    PrefixZero(E);
    PowerResult(Num(y, n), X, E, M);
    MpSetEqual(yout, y, n);
  }

  lemma FirstPower(x: nat, m: nat)
    ensures Power(x, x, 1, m)
  {
    PowOne(x);
  }

  lemma PosPositive(bit: nat, n: nat)
    requires n > 0
    ensures Pos(bit, n) > 0
  {}

  lemma PrefixZero(e: nat)
    ensures Prefix(e, 0) == e && forall bit :: Pos(bit, 0) == 0
  {
    Pow2Add(0, 0);
  }

  lemma PowerResult(y: nat, x: nat, e: nat, m: nat)
    requires Power(y, x, e, m)
    ensures e >= 1 && y == if e == 1 then x else Reduce(Pow(x, e), m)
  {}
}
