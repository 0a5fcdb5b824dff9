/** Schoolbook multiplication (Knuth's Algorithm M) and squaring with a delayed double-precision carry. */
module Multiply {
  import opened Arith
  import opened Digits
  import opened Value
  import opened Linear
  import opened SinglePrecision

  lemma RowStep(w: seq<Digit>, w': seq<Digit>, w0: seq<Digit>, j: nat, u: seq<Digit>, i: nat, v: int, k: int, k': int)
    requires j + i < |w| == |w'| == |w0| && i < |u|
    requires forall a | j <= a < j + i :: w[a] == w'[a]
    requires Val(w, j, j + i) + k * P(i) == Val(w0, j, j + i) + Val(u, 0, i) * v
    requires w'[j + i] + k' * BASE == u[i] * v + w0[j + i] + k
    ensures Val(w', j, j + (i + 1)) + k' * P(i + 1) == Val(w0, j, j + (i + 1)) + Val(u, 0, i + 1) * v
  {
    ValExtend(w, w', j, j + i);
    PStep(i);
    var x := Val(w0, j, j + i) + Val(u, 0, i) * v;
    CarryStep(Val(w, j, j + i), k, x, w'[j + i], k', u[i] * v + w0[j + i] as int, P(i));
    RowSum(Val(u, 0, i), u[i], P(i), v, w0[j + i]);
  }

  lemma RowSum(a: int, d: int, p: int, v: int, e: int)
    ensures (a + d * p) * v + e * p == a * v + (d * v + e) * p
  {
    assert (a + d * p) * v == a * v + d * p * v;
    assert (d * v + e) * p == d * v * p + e * p;
  }

  /** Steps M3 to M5: add `u * v` into `w` at offset `j`, writing the last carry above it. */
  method MultiplyRow(w: array<Digit>, j: nat, u: array<Digit>, m: nat, v: Digit)
    requires w != u && m <= u.Length && j + m < w.Length
    modifies w
    ensures Val(w[..], j, j + m + 1) == old(Val(w[..], j, j + m)) + Val(u[..], 0, m) * v
    ensures SameOutside(w[..], old(w[..]), j, j + m + 1)
  {
    hide Val, P;
    ghost var w0, us := w[..], u[..];
    Sizes();
    ValEmpty(w0, j);
    ValEmpty(us, 0);
    var k: Digit := 0;
    for i := 0 to m
      invariant Val(w[..], j, j + i) + k * P(i) == Val(w0, j, j + i) + Val(us, 0, i) * v
      invariant SameOutside(w[..], w0, j, j + i)
    {
      ghost var before, k0 := w[..], k;
      assert w[j + i] == w0[j + i] && u[i] == us[i];
      var t0, t1 := SpMultiply(u[i], v);
      ghost var p := t1 * BASE + t0;
      ProductRoom(us[i], v, t0, t1);
      t0 := AddW(t0, k);
      if t0 < k {
        t1 := AddW(t1, 1);
      }
      assert t1 * BASE + t0 == p + k0;
      ProductRoomOne(us[i], v, k0, t0, t1);
      t0 := AddW(t0, w[j + i]);
      if t0 < w[j + i] {
        t1 := AddW(t1, 1);
      }
      w[j + i] := t0;
      k := t1;
      RowStep(before, w[..], w0, j, us, i, v, k0, k);
    }
    ghost var done := w[..];
    w[j + m] := k;
    ValExtend(done, w[..], j, j + m);
  }

  /** A product of digits leaves room for one more carry into its high digit. */
  lemma ProductRoom(x: Digit, y: Digit, t0: Digit, t1: int)
    requires t1 * BASE + t0 == x * y
    ensures t1 + 1 < BASE
  {
    DigitProduct(x, y);
    assert (BASE - 1) * (BASE - 1) == (BASE - 1) * BASE - BASE + 1;
    if t1 >= BASE - 1 { MulLe(BASE - 1, t1, BASE); }
  }

  lemma ProductRoomOne(x: Digit, y: Digit, k: Digit, t0: Digit, t1: int)
    requires t1 * BASE + t0 == x * y + k
    ensures t1 < BASE - 1 || (t1 == BASE - 1 && t0 == 0)
  {
    DigitProduct(x, y);
    assert (BASE - 1) * (BASE - 1) == (BASE - 1) * BASE - BASE + 1;
    if t1 >= BASE { MulLe(BASE, t1, BASE); }
  }

  lemma ProductStep(w0: seq<Digit>, w: seq<Digit>, j: nat, m: nat, x: int, v: seq<Digit>)
    requires j + m < |w0| == |w| && j < |v|
    requires forall i | 0 <= i < j :: w0[i] == w[i]
    requires Val(w0, 0, j + m) == x * Val(v, 0, j)
    requires Val(w, j, j + m + 1) == Val(w0, j, j + m) + x * v[j]
    ensures Val(w, 0, j + 1 + m) == x * Val(v, 0, j + 1)
  {
    ValSplit(w0, 0, j, j + m);
    ValSplit(w, 0, j, j + m + 1);
    ValSame(w0, 0, w, 0, j);
    ProductArith(Val(w0, 0, j), P(j), Val(w0, j, j + m), x, Val(v, 0, j), v[j]);
  }

  lemma ProductArith(a: int, p: int, b: int, x: int, v: int, d: int)
    requires a + p * b == x * v
    ensures a + p * (b + x * d) == x * (v + d * p)
  {
    assert p * (b + x * d) == p * b + x * (d * p);
  }

  /** mpMultiply: the full product of two `n`-digit numbers. */
  method MpMultiply(w: array<Digit>, u: array<Digit>, v: array<Digit>, n: nat)
    requires w != u && w != v
    requires 2 * n <= w.Length && n <= u.Length && n <= v.Length
    modifies w
    ensures Num(w, 2 * n) == Num(u, n) * Num(v, n)
    ensures SameOutside(w[..], old(w[..]), 0, 2 * n)
  {
    hide Val, P;
    MpSetZero(w, 2 * n);
    ghost var x, vs := Num(u, n), v[..];
    ValEmpty(vs, 0);
    ValZero(w[..], 0, n);
    for j := 0 to n
      invariant Val(w[..], 0, j + n) == x * Val(vs, 0, j)
      invariant forall i | j + n <= i < 2 * n :: w[..][i] == 0
      invariant SameOutside(w[..], old(w[..]), 0, 2 * n)
    {
      ghost var before := w[..];
      assert v[j] == vs[j];
      if v[j] == 0 {
        w[j + n] := 0;
        ZeroRow(before, j, n);
      } else {
        MultiplyRow(w, j, u, n, v[j]);
      }
      ProductStep(before, w[..], j, n, x, vs);
    }
  }

  lemma ZeroRow(w: seq<Digit>, j: nat, n: nat)
    requires j + n < |w| && w[j + n] == 0
    ensures Val(w[j + n := 0], j, j + n + 1) == Val(w, j, j + n)
  {
    assert w[j + n := 0] == w;
    assert Val(w, j, j + n + 1) == Val(w, j, j + n) + 0 * P(n);
  }

  lemma ShortMultStep(w: seq<Digit>, w': seq<Digit>, u: seq<Digit>, j: nat, v: int, k: int, k': int)
    requires j < |w| == |w'| && j < |u|
    requires forall a | 0 <= a < j :: w[a] == w'[a]
    requires Val(w, 0, j) + k * P(j) == Val(u, 0, j) * v
    requires w'[j] + k' * BASE == u[j] * v + k
    ensures Val(w', 0, j + 1) + k' * P(j + 1) == Val(u, 0, j + 1) * v
  {
    ValExtend(w, w', 0, j);
    PStep(j);
    CarryStep(Val(w, 0, j), k, Val(u, 0, j) * v, w'[j], k', u[j] * v, P(j));
    RowSum(Val(u, 0, j), u[j], P(j), v, 0);
  }

  /** mpShortMult: the low digits of `u * v`, returning the overflow; `w` may be `u` itself. */
  method MpShortMult(w: array<Digit>, u: array<Digit>, v: Digit, n: nat) returns (k: Digit)
    requires n <= w.Length && n <= u.Length
    modifies w
    ensures Num(w, n) + k * P(n) == old(Num(u, n)) * v
    ensures SameOutside(w[..], old(w[..]), 0, n)
  {
    hide Val, P, Pow;
    ghost var us := u[..];
    Sizes();
    k := 0;
    if v == 0 {
      for j := 0 to n
        invariant forall i | 0 <= i < j :: w[..][i] == 0
        invariant SameOutside(w[..], old(w[..]), 0, j)
      {
        w[j] := 0;
      }
      ValZero(w[..], 0, n);
      return;
    }
    ValEmpty(w[..], 0);
    ValEmpty(us, 0);
    for j := 0 to n
      invariant Val(w[..], 0, j) + k * P(j) == Val(us, 0, j) * v
      invariant SameOutside(w[..], old(w[..]), 0, j)
      invariant forall i | j <= i < n :: u[i] == us[i]
    {
      ghost var before, k0 := w[..], k;
      var t0, t1 := SpMultiply(u[j], v);
      ProductRoom(us[j], v, t0, t1);
      w[j] := AddW(t0, k);
      if w[j] < k {
        t1 := AddW(t1, 1);
      }
      k := t1;
      ShortMultStep(before, w[..], us, j, v, k0, k);
    }
  }
}
