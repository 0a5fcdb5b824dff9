/** Integer facts used throughout: Euclidean division, powers and bits. */
module Arith {

  lemma DivModUnique(a: int, d: int, q: int, r: int)
    requires 0 <= r < d
    requires a == q * d + r
    ensures a / d == q && a % d == r
  {
    var q', r' := a / d, a % d;
    assert (q - q') * d == r' - r;
    if q > q' {
      MulLe(1, q - q', d);
    } else if q < q' {
      MulLe(q - q', -1, d);
    }
  }

  lemma MulLe(x: int, y: int, z: int)
    requires x <= y && 0 <= z
    ensures x * z <= y * z
  {}

  lemma MulLt(x: int, y: int, z: int)
    requires x < y && 0 < z
    ensures x * z < y * z
  {}

  /** If `x * z < y * z` then the factors are ordered too. */
  lemma CancelLt(x: int, y: int, z: int)
    requires 0 <= z && x * z < y * z
    ensures x < y
  {
    if y <= x { MulLe(y, x, z); }
  }

  lemma QuotientLess(x: int, y: int, z: int)
    requires 0 <= x < y * z && 0 < z
    ensures 0 <= x / z < y
  {
    if x / z >= y { MulLe(y, x / z, z); }
  }

  lemma ShiftHalf(h: int, l: int, b: int)
    requires 0 <= l < b
    ensures ((h * b + l) * b) % (b * b) == l * b < b * b
  {
    MulLt(l, b, b);
    assert (h * b + l) * b == h * (b * b) + l * b;
    DivModUnique((h * b + l) * b, b * b, h, l * b);
  }

  lemma ModOfMultiple(k: int, d: int, r: int)
    requires d > 0
    ensures (k * d + r) % d == r % d
  {
    assert k * d + r == (k + r / d) * d + r % d;
    DivModUnique(k * d + r, d, k + r / d, r % d);
  }

  function Pow(b: int, e: nat): int {
    if e == 0 then 1 else b * Pow(b, e - 1)
  }

  lemma {:induction false} PowAdd(b: int, e: nat, f: nat)
    ensures Pow(b, e + f) == Pow(b, e) * Pow(b, f)
  {
    if e != 0 {
      PowAdd(b, e - 1, f);
      assert Pow(b, e + f) == b * (Pow(b, e - 1) * Pow(b, f));
    }
  }

  lemma {:induction false} PowPos(b: int, e: nat)
    requires b > 0
    ensures Pow(b, e) > 0
  {
    if e != 0 { PowPos(b, e - 1); }
  }

  lemma {:induction false} PowMono(b: int, e: nat, f: nat)
    requires b > 0 && e <= f
    ensures Pow(b, e) <= Pow(b, f)
  {
    PowAdd(b, e, f - e);
    PowPos(b, e);
    PowPos(b, f - e);
    MulLe(1, Pow(b, f - e), Pow(b, e));
  }

  lemma {:induction false} PowExceeds(e: nat)
    ensures e < Pow(2, e)
  {
    if e != 0 { PowExceeds(e - 1); }
  }

  /** Bit `k` of `x`: the test `x & (1 << k)`. */
  predicate Bit(x: nat, k: nat) {
    PowPos(2, k);
    (x / Pow(2, k)) % 2 == 1
  }

  /** Bitwise inclusive or. */
  function BitOr(x: nat, y: nat): nat
    decreases x + y
  {
    if x == 0 && y == 0 then 0
    else 2 * BitOr(x / 2, y / 2) + (if x % 2 == 1 || y % 2 == 1 then 1 else 0)
  }

  /** Or-ing a low part into cleared low bits is addition. */
  lemma {:induction false} OrDisjoint(h: nat, l: nat, k: nat, p: nat)
    requires l < p == Pow(2, k)
    ensures 0 <= h * p && BitOr(h * p, l) == h * p + l
    decreases k
  {
    if k == 0 {
      OrZero(h);
    } else {
      var p' := Pow(2, k - 1);
      var x, y := h * p, h * p';
      assert x == 2 * y;
      PowPos(2, k - 1);
      assert 0 <= y;
      OrDisjoint(h, l / 2, k - 1, p');
      OrStep(x, y, l);
    }
  }

  lemma OrStep(x: nat, y: nat, l: nat)
    requires x == 2 * y && BitOr(y, l / 2) == y + l / 2
    ensures BitOr(x, l) == x + l
  {}

  lemma {:induction false} OrZero(x: nat)
    ensures BitOr(x, 0) == x
  {
    if x != 0 { OrZero(x / 2); }
  }

  lemma {:induction false} OrBound(x: nat, y: nat, k: nat)
    requires x < Pow(2, k) && y < Pow(2, k)
    ensures BitOr(x, y) < Pow(2, k)
  {
    if k != 0 { OrBound(x / 2, y / 2, k - 1); }
  }

  lemma DivDiv(x: int, p: int, q: int)
    requires p > 0 && q > 0
    ensures p * q > 0 && (x / p) / q == x / (p * q)
  {
    var a, r := x / p, x % p;
    var c, t := a / q, a % q;
    assert x == (c * q + t) * p + r == c * (p * q) + (t * p + r);
    MulLe(t, q - 1, p);
    MulLe(0, t, p);
    DivModUnique(x, p * q, c, t * p + r);
  }

  lemma ModMul(x: int, y: int, m: int)
    requires m > 0
    ensures ((x % m) * y) % m == (x * y) % m
  {
    var k := x / m;
    assert x * y == (k * y) * m + (x % m) * y;
    ModOfMultiple(k * y, m, (x % m) * y);
  }

  lemma ModAdd(x: int, y: int, m: int)
    requires m > 0
    ensures (x % m + y) % m == (x + y) % m
  {
    assert x + y == (x / m) * m + (x % m + y);
    ModOfMultiple(x / m, m, x % m + y);
  }

  lemma {:induction false} PowPow(b: int, e: nat, f: nat)
    ensures 0 <= e * f && Pow(Pow(b, e), f) == Pow(b, e * f)
    decreases f
  {
    if f != 0 {
      PowPow(b, e, f - 1);
      assert e * f == e + e * (f - 1);
      PowAdd(b, e, e * (f - 1));
    }
  }

  lemma PowOne(b: int)
    ensures Pow(b, 1) == b && Pow(b, 0) == 1
  {
    assert Pow(b, 1) == b * Pow(b, 0);
  }

  lemma {:induction false} PowMul(a: int, b: int, n: nat)
    ensures Pow(a * b, n) == Pow(a, n) * Pow(b, n)
  {
    if n > 0 {
      PowMul(a, b, n - 1);
      Swap(a, b, Pow(a, n - 1), Pow(b, n - 1));
    }
  }

  lemma Swap(a: int, b: int, x: int, y: int)
    ensures (a * b) * (x * y) == (a * x) * (b * y)
  {}

  lemma {:induction false} PowBase(a: int, b: int, n: nat)
    requires 0 < a <= b
    ensures Pow(a, n) <= Pow(b, n) && (a < b && n > 0 ==> Pow(a, n) < Pow(b, n))
  {
    if n > 0 {
      PowBase(a, b, n - 1);
      PowPos(a, n - 1);
      MulLe(Pow(a, n - 1), Pow(b, n - 1), a);
      if a < b { MulLt(a, b, Pow(b, n - 1)); } else { assert a == b; }
    }
  }

  /** A power by the square of its base. */
  lemma HalfPower(z: int, h: nat, b: nat)
    requires b <= 1
    ensures Pow(z, h + h + b) == if b == 1 then Pow(z * z, h) * z else Pow(z * z, h)
  {
    hide Pow;
    PowAdd(z, h + h, b);
    PowAdd(z, h, h);
    PowMul(z, z, h);
    PowOne(z);
  }

  lemma Spread(a: int, b: int, c: int)
    ensures (a + b) * c == a * c + b * c
  {}

  lemma Exchange(x: int, y: int, z: int)
    ensures x * y * z == x * z * y
  {}

  lemma Assoc(a: int, b: int, c: int)
    ensures (a * b) * c == a * (b * c) && a * b == b * a
  {}
}
