/** Multi-digit shifts, in place or into another array. */
module Shift {
  import opened Arith
  import opened Digits
  import opened Value
  import opened Linear

  lemma BitSplit(bits: nat)
    requires bits <= BITS
    ensures BASE == Pow2(bits) * Pow2(BITS - bits)
  {
    PowAdd(2, bits, BITS - bits);
  }

  lemma WholeDigits(nw: nat)
    ensures 0 <= nw * BITS && P(nw) == Pow2(nw * BITS)
  {
    PowPow(2, BITS, nw);
    assert nw * BITS == BITS * nw;
  }

  /** `x << bits | carry` when the carry fits in the vacated bits. */
  function ShlOr(x: Digit, bits: nat, carry: Digit): (r: Digit)
    requires bits < BITS && carry < Pow2(bits)
    ensures r + (x / Pow2(BITS - bits)) * BASE == x * Pow2(bits) + carry
  {
    ShlOrIs(x, bits, carry);
    BitOr((x * Pow2(bits)) % BASE, carry)
  }

  lemma ShlOrIs(x: Digit, bits: nat, carry: Digit)
    requires bits < BITS && carry < Pow2(bits)
    ensures 0 <= (x * Pow2(bits)) % BASE
    ensures BitOr((x * Pow2(bits)) % BASE, carry) + (x / Pow2(BITS - bits)) * BASE == x * Pow2(bits) + carry
    ensures BitOr((x * Pow2(bits)) % BASE, carry) < BASE
  {
    hide BitOr, Pow;
    var p, q := Pow2(bits), Pow2(BITS - bits);
    BitSplit(bits);
    Assoc(p, q, 1);
    var h, l := x / q, x % q;
    Assoc(q, h, 1);
    ShiftSplit(x, h, l, p, q);
    OrDisjoint(l, carry, bits, p);
  }

  lemma ShiftSplit(x: int, h: int, l: int, p: int, q: int)
    requires x == h * q + l && 0 <= l < q && 0 < p && q * p == BASE
    ensures (x * p) % BASE == l * p && x * p == h * BASE + l * p
    ensures 0 <= l * p <= BASE - p
  {
    Spread(h * q, l, p);
    Assoc(h, q, p);
    MulLe(l, q - 1, p);
    Spread(q - 1, 1, p);
    DivModUnique(x * p, BASE, h, l * p);
  }

  lemma ShiftStep(a: seq<Digit>, a': seq<Digit>, b: seq<Digit>, j: nat, p: int, k: int, k': int)
    requires j < |a| == |a'| && j < |b|
    requires forall i | 0 <= i < j :: a[i] == a'[i]
    requires Val(a, 0, j) + k * P(j) == Val(b, 0, j) * p
    requires a'[j] + k' * BASE == b[j] * p + k
    ensures Val(a', 0, j + 1) + k' * P(j + 1) == Val(b, 0, j + 1) * p
  {
    hide Val, P;
    ValExtend(a, a', 0, j);
    ValExtend(b, b, 0, j);
    PStep(j);
    CarryStep(Val(a, 0, j), k, Val(b, 0, j) * p, a'[j], k', b[j] * p, P(j));
    Spread(Val(b, 0, j), b[j] * P(j), p);
    Assoc(b[j], P(j), p);
    Assoc(b[j], p, P(j));
    Assoc(P(j), p, 1);
  }

  /** mpShiftLeft by less than a digit; returns the bits shifted out. */
  method ShiftLeftBits(a: array<Digit>, b: array<Digit>, bits: nat, n: nat) returns (carry: Digit)
    requires bits < BITS && n <= a.Length && n <= b.Length
    modifies a
    ensures carry < Pow2(bits)
    ensures Num(a, n) + carry * P(n) == old(Num(b, n)) * Pow2(bits)
    ensures SameOutside(a[..], old(a[..]), 0, n)
  {
    hide Val, P, ShlOr, Pow2;
    ghost var bs := b[..];
    Sizes();
    ValEmpty(a[..], 0);
    ValEmpty(bs, 0);
    carry := 0;
    for i := 0 to n
      invariant carry < Pow2(bits)
      invariant Val(a[..], 0, i) + carry * P(i) == Val(bs, 0, i) * Pow2(bits)
      invariant SameOutside(a[..], old(a[..]), 0, i)
    {
      ghost var before, k0 := a[..], carry;
      assert b[i] == bs[i];
      var next := TopBits(b[i], bits);
      a[i] := ShlOr(b[i], bits, carry);
      carry := next;
      ShiftStep(before, a[..], bs, i, Pow2(bits), k0, carry);
    }
  }

  /** `(x & mask) >> (BITS - bits)` for the mask of the high `bits` bits. */
  function TopBits(x: Digit, bits: nat): (r: Digit)
    requires bits <= BITS
    ensures r < Pow2(bits) && r == x / Pow2(BITS - bits)
  {
    BitSplit(bits);
    QuotientLess(x, Pow2(bits), Pow2(BITS - bits));
    DivAtMost(x, Pow2(BITS - bits));
    x / Pow2(BITS - bits)
  }

  lemma DivAtMost(x: int, q: int)
    requires 0 <= x && 0 < q
    ensures 0 <= x / q <= x
  {
    if x / q > x { MulLe(x + 1, x / q, q); MulLe(1, q, x + 1); }
  }

  /** Moving digits up by `nw` multiplies by P(nw), modulo the array's range. */
  lemma DigitsUp(a: seq<Digit>, b: seq<Digit>, nw: nat, n: nat)
    requires nw <= n <= |a| && n <= |b|
    requires forall i | 0 <= i < n :: a[i] == if i < nw then 0 else b[i - nw]
    ensures Val(a, 0, n) == (Val(b, 0, n) * P(nw)) % P(n)
  {
    hide Val, P;
    ValSplit(a, 0, nw, n);
    ValZero(a, 0, nw);
    ValSame(a, nw, b, 0, n - nw);
    ValSplit(b, 0, n - nw, n);
    ValBound(b, 0, n - nw);
    PAdd(nw, n - nw);
    DropHigh(Val(b, 0, n - nw), Val(b, n - nw, n), P(nw), P(n - nw), P(n));
  }

  lemma DropHigh(lo: int, hi: int, p: int, q: int, m: int)
    requires 0 <= lo < q && 0 < p && m == p * q
    ensures m > 0 && ((lo + q * hi) * p) % m == p * lo
  {
    assert (lo + q * hi) * p == hi * m + p * lo;
    MulLe(lo, q - 1, p);
    DivModUnique((lo + q * hi) * p, m, hi, p * lo);
  }

  lemma ShiftParts(x: int, nw: nat, bits: nat, m: int)
    requires m > 0
    ensures 0 <= nw * BITS && ((x * P(nw)) % m * Pow2(bits)) % m == (x * Pow2(nw * BITS + bits)) % m
  {
    WholeDigits(nw);
    PowAdd(2, nw * BITS, bits);
    ModMul(x * P(nw), Pow2(bits), m);
    assert x * P(nw) * Pow2(bits) == x * (P(nw) * Pow2(bits));
  }

  /** The carry reported by a shift within digits is what leaves the top. */
  lemma CarryDropped(a: int, k: int, m: int, x: int)
    requires 0 <= a < m && a + k * m == x
    ensures x % m == a
  {
    DivModUnique(x, m, k, a);
  }

  /** The digit move of mpShiftLeft, safe in place because it runs downwards. */
  method ShiftLeftDigits(a: array<Digit>, b: array<Digit>, nw: nat, n: nat)
    requires nw <= n <= a.Length && n <= b.Length
    modifies a
    ensures Num(a, n) == (old(Num(b, n)) * P(nw)) % P(n)
    ensures SameOutside(a[..], old(a[..]), 0, n)
  {
    hide Val, P;
    ghost var bs := b[..];
    Sizes();
    var i: nat := n;
    while i != 0
      invariant i <= n
      invariant forall j | i <= j < n :: a[..][j] == if j < nw then 0 else bs[j - nw]
      invariant SameOutside(a[..], old(a[..]), i, n)
    {
      i := i - 1;
      if i >= nw {
        assert b[i - nw] == bs[i - nw];
        a[i] := b[i - nw];
      } else {
        a[i] := 0;
      }
    }
    DigitsUp(a[..], bs, nw, n);
  }

  /** mpShiftLeft: `a = b << shift`, dropping what leaves the `n` digits. */
  method MpShiftLeft(a: array<Digit>, b: array<Digit>, shift: nat, n: nat) returns (carry: Digit)
    requires n <= a.Length && n <= b.Length
    requires shift / BITS <= n
    modifies a
    ensures Num(a, n) == (old(Num(b, n)) * Pow2(shift)) % P(n)
    ensures shift < BITS ==> carry < Pow2(shift) && Num(a, n) + carry * P(n) == old(Num(b, n)) * Pow2(shift)
    ensures SameOutside(a[..], old(a[..]), 0, n)
  {
    hide Val, P, Pow2, Pow;
    ghost var x := Num(b, n);
    if shift >= BITS {
      var nw, bits := shift / BITS, shift % BITS;
      ShiftLeftDigits(a, b, nw, n);
      carry := MulW(b[n - nw], Pow2(bits));
      ShiftParts(x, nw, bits, P(n));
      ghost var y := Num(a, n);
      var k := 0;
      if bits != 0 {
        k := ShiftLeftBits(a, a, bits, n);
        OrDigits(carry, k);
        carry := BitOr(carry, k);
      } else {
        Pow2Add(0, 0);
      }
      ValBound(a[..], 0, n);
      CarryDropped(Num(a, n), k, P(n), y * Pow2(bits));
    } else {
      carry := ShiftLeftBits(a, b, shift, n);
      ValBound(a[..], 0, n);
      CarryDropped(Num(a, n), carry, P(n), x * Pow2(shift));
    }
  }

  /** `b >> bits | carry` for the carried low bits `c` of the digit above. */
  function ShrOr(x: Digit, bits: nat, c: nat): (r: Digit)
    requires bits < BITS && c < Pow2(bits)
    ensures r * Pow2(bits) + x % Pow2(bits) == x + c * BASE
  {
    ShrOrIs(x, bits, c);
    BitOr(c * Pow2(BITS - bits), x / Pow2(bits))
  }

  lemma ShrOrIs(x: Digit, bits: nat, c: nat)
    requires bits < BITS && c < Pow2(bits)
    ensures 0 <= c * Pow2(BITS - bits) && 0 <= x / Pow2(bits)
    ensures BitOr(c * Pow2(BITS - bits), x / Pow2(bits)) * Pow2(bits) + x % Pow2(bits) == x + c * BASE
    ensures BitOr(c * Pow2(BITS - bits), x / Pow2(bits)) < BASE
  {
    var p, q := Pow2(bits), Pow2(BITS - bits);
    BitSplit(bits);
    OrDisjointHigh(x, c, bits, p, q);
  }

  lemma OrDisjointHigh(x: Digit, c: nat, bits: nat, p: nat, q: nat)
    requires bits < BITS && c < p && 0 < q == Pow(2, BITS - bits) && BASE == p * q
    ensures 0 <= c * q && 0 <= x / p
    ensures BitOr(c * q, x / p) < BASE && BitOr(c * q, x / p) * p + x % p == x + c * BASE
  {
    hide BitOr, Pow, Pow2;
    var h := x / p;
    Assoc(p, q, 1);
    QuotientLess(x, q, p);
    OrDisjoint(c, h, BITS - bits, q);
    ShrArith(x, c, p, q, h, x % p);
  }

  lemma ShrArith(x: int, c: int, p: int, q: int, h: int, l: int)
    requires 0 <= c < p && 0 <= h < q && x == p * h + l
    ensures c * q + h < p * q && (c * q + h) * p + l == x + c * (p * q)
  {
    MulLe(c, p - 1, q);
    assert (c * q + h) * p == c * (q * p) + h * p;
  }

  lemma ShrStep(a: seq<Digit>, a': seq<Digit>, b: seq<Digit>, i: nat, n: nat, p: int, c: int, c': int)
    requires i < n <= |a| == |a'| && n <= |b|
    requires forall j | i < j < n :: a[j] == a'[j]
    requires p * Val(a, i + 1, n) + c == Val(b, i + 1, n)
    requires a'[i] * p + c' == b[i] + c * BASE
    ensures p * Val(a', i, n) + c' == Val(b, i, n)
  {
    hide Val, P;
    ValLow(a', i, n);
    ValSame(a, i + 1, a', i + 1, n - i - 1);
    ValLow(b, i, n);
    ShrCombine(p, a'[i], Val(a, i + 1, n), b[i], c, c', Val(b, i + 1, n));
  }

  lemma ShrCombine(p: int, d: int, v: int, e: int, c: int, c': int, w: int)
    requires p * v + c == w && d * p + c' == e + c * BASE
    ensures p * (d + BASE * v) + c' == e + BASE * w
  {
    assert p * (d + BASE * v) == d * p + BASE * (p * v);
  }

  /** mpShiftRight by less than a digit. */
  method ShiftRightBits(a: array<Digit>, b: array<Digit>, bits: nat, n: nat) returns (carry: Digit)
    requires bits < BITS && n <= a.Length && n <= b.Length
    modifies a
    ensures Num(a, n) == old(Num(b, n)) / Pow2(bits)
    ensures carry == (old(Num(b, n)) % Pow2(bits)) * Pow2(BITS - bits)
    ensures SameOutside(a[..], old(a[..]), 0, n)
  {
    hide Val, P, ShrOr, Pow2, Pow;
    ghost var bs := b[..];
    Sizes();
    ValEmpty(a[..], n);
    ValEmpty(bs, n);
    var c: nat := 0;
    var i: nat := n;
    while i != 0
      invariant i <= n && c < Pow2(bits)
      invariant Pow2(bits) * Val(a[..], i, n) + c == Val(bs, i, n)
      invariant SameOutside(a[..], old(a[..]), i, n)
    {
      i := i - 1;
      ghost var before, c0 := a[..], c;
      assert b[i] == bs[i];
      var next := b[i] % Pow2(bits);
      a[i] := ShrOr(b[i], bits, c);
      c := next;
      ShrStep(before, a[..], bs, i, n, Pow2(bits), c0, c);
    }
    DivModUnique(Val(bs, 0, n), Pow2(bits), Val(a[..], 0, n), c);
    carry := LowCarry(c, bits);
  }

  /** The masked low bits shifted to the top of the word: `(x & mask) << (BITS - bits)`. */
  function LowCarry(c: nat, bits: nat): (r: Digit)
    requires bits <= BITS && c < Pow2(bits)
  {
    BitSplit(bits);
    MulLe(c, Pow2(bits) - 1, Pow2(BITS - bits));
    c * Pow2(BITS - bits)
  }

  lemma DigitsDown(a: seq<Digit>, b: seq<Digit>, nw: nat, n: nat)
    requires nw <= n <= |a| && n <= |b|
    requires forall i | 0 <= i < n :: a[i] == if i + nw < n then b[i + nw] else 0
    ensures Val(a, 0, n) == Val(b, 0, n) / P(nw)
  {
    hide Val, P;
    ValTrim(a, 0, n - nw, n);
    ValSame(a, 0, b, nw, n - nw);
    ValSplit(b, 0, nw, n);
    ValBound(b, 0, nw);
    Assoc(P(nw), Val(b, nw, n), 1);
    DivModUnique(Val(b, 0, n), P(nw), Val(b, nw, n), Val(b, 0, nw));
  }

  /** A shift by whole digits and one by the rest. */
  lemma DownTwice(x: nat, nw: nat, bits: nat, shift: nat)
    requires nw == shift / BITS && bits == shift % BITS
    ensures (x / P(nw)) / Pow2(bits) == x / Pow2(shift)
  {
    hide P, Pow2;
    WholeDigits(nw);
    DivDiv(x, P(nw), Pow2(bits));
    Pow2Add(nw * BITS, bits);
  }

  /** The whole digits of a right shift. */
  method DigitsRight(a: array<Digit>, b: array<Digit>, nw: nat, n: nat)
    requires n <= a.Length && n <= b.Length && nw <= n
    modifies a
    ensures Num(a, n) == old(Num(b, n)) / P(nw)
    ensures SameOutside(a[..], old(a[..]), 0, n)
  {
    hide Val, P;
    ghost var bs := b[..];
    for i := 0 to n
      invariant forall j | 0 <= j < i :: a[..][j] == if j + nw < n then bs[j + nw] else 0
      invariant forall j | i <= j < n :: b[..][j] == bs[j]
      invariant SameOutside(a[..], old(a[..]), 0, i)
    {
      if i + nw < n {
        assert b[i + nw] == b[..][i + nw];
        a[i] := b[i + nw];
      } else {
        a[i] := 0;
      }
    }
    DigitsDown(a[..], bs, nw, n);
  }

  /** mpShiftRight: `a = b >> shift`. */
  method MpShiftRight(a: array<Digit>, b: array<Digit>, shift: nat, n: nat) returns (carry: Digit)
    requires n <= a.Length && n <= b.Length
    requires shift / BITS <= n
    modifies a
    ensures Num(a, n) == old(Num(b, n)) / Pow2(shift)
    ensures shift < BITS ==> carry == (old(Num(b, n)) % Pow2(shift)) * Pow2(BITS - shift)
    ensures SameOutside(a[..], old(a[..]), 0, n)
  {
    hide Val, P, Pow2, Pow, BitOr;
    if shift >= BITS {
      var nw := shift / BITS;
      var bits := shift % BITS;
      DownTwice(Num(b, n), nw, bits, shift);
      DigitsRight(a, b, nw, n);
      DivAtMost(b[nw - 1], Pow2(bits));
      carry := b[nw - 1] / Pow2(bits);
      if bits != 0 {
        var k := ShiftRightBits(a, a, bits, n);
        OrDigits(carry, k);
        carry := BitOr(carry, k);
      } else {
        NoBits(Num(a, n));
      }
    } else {
      carry := ShiftRightBits(a, b, shift, n);
    }
  }

  lemma NoBits(x: nat)
    ensures x / Pow2(0) == x
  {
    Pow2Add(0, 0);
  }

  lemma Pow2Add(m: nat, n: nat)
    ensures Pow2(m + n) == Pow2(m) * Pow2(n) && Pow2(0) == 1
  {
    PowAdd(2, m, n);
  }
}
