/** mpModInv: the modular inverse by Knuth's Algorithm X without negative numbers. */
module ModInverse {
  import opened Arith
  import opened Digits
  import opened Value
  import opened Linear
  import opened Multiply
  import opened Divide
  import opened NumberTheory
  import opened ModExp
  import opened Primality

  function Signed(s: int, x: int): int {
    if s < 0 then -x else x
  }

  /** `x` times `u` is `y` modulo `v`. */
  ghost predicate Link(v: nat, x: int, u: nat, y: int) {
    Divides(v, x * u - y)
  }

  lemma LinkStep(v: nat, x: int, y: int, u: nat, a: int, b: int, q: int, t: int)
    requires Link(v, x, u, a) && Link(v, y, u, b) && a == q * b + t
    ensures Link(v, x - q * y, u, t)
  {
    DividesLinear(v, x * u - a, y * u - b, 1, -q);
    assert (x * u - a) * 1 + (y * u - b) * -q == (x - q * y) * u - t by {
      assert (y * u - b) * -q == -(q * y * u) + q * b;
      assert (x - q * y) * u == x * u - q * y * u;
    }
  }

  /** The loop's state: the determinant identity, the two congruences and the common divisor. */
  ghost predicate Extended(u1: nat, u3: nat, v1: nat, v3: nat, s: int, u: nat, v: nat) {
    && u1 * v3 + v1 * u3 == v && (v3 > 0 ==> v > 0)
    && (v > 0 ==> u1 <= v && v1 <= v && Link(v, Signed(s, u1), u, u3) && Link(v, Signed(-s, v1), u, v3))
    && Gcd(u3, v3) == Gcd(u, v)
    && (v == 0 ==> u1 == 1 && s == 1)
    && (v == 1 ==> if v3 > 0 then u1 == v3 == 1 && v1 == 0 && s == 1 else u1 == 0 && s == -1)
  }

  lemma ExtendedStart(u: nat, v: nat)
    ensures Extended(1, u, 0, v, 1, u, v)
  {
    if v > 0 {
      DividesIntro(v, 0);
      DividesIntro(v, -1);
    }
  }

  /** One division keeps the state; nothing exceeds `v`, so no digit or carry is ever lost. */
  lemma ExtendedStep(u1: nat, u3: nat, v1: nat, v3: nat, s: int, u: nat, v: nat, q: nat, t3: nat)
    requires s == 1 || s == -1
    requires Extended(u1, u3, v1, v3, s, u, v) && v3 > 0 && u3 == q * v3 + t3 && t3 < v3
    ensures v > 0 && 0 <= q * v1 && u1 + q * v1 <= v
    ensures Extended(v1, v3, u1 + q * v1, t3, -s, u, v)
  {
    hide Gcd, Link;
    Determinant(u1, u3, v1, v3, q, t3);
    CoefficientBound(u1, v1, v3, q, t3, v);
    RemainderUnique(u3, q, v3, t3);
    GcdUnfold(u3, v3);
    LinkStep(v, Signed(s, u1), Signed(-s, v1), u, u3, v3, q, t3);
    SignedProduct(s, u1, v1, q);
  }

  lemma SignedProduct(s: int, u1: int, v1: int, q: int)
    requires s == 1 || s == -1
    ensures Signed(s, u1) - q * Signed(-s, v1) == Signed(s, u1 + q * v1)
  {
    assert q * -v1 == -(q * v1);
  }

  lemma CoefficientBound(u1: nat, v1: nat, v3: nat, q: nat, t3: nat, v: nat)
    requires v1 * t3 + (u1 + q * v1) * v3 == v && v3 > 0
    ensures 0 <= q * v1 && u1 + q * v1 <= v
  {
    MulLe(0, q, v1);
    MulLe(1, v3, u1 + q * v1);
    MulLe(0, v1, t3);
  }

  lemma GcdUnfold(a: nat, b: nat)
    requires b > 0
    ensures Gcd(a, b) == Gcd(b, a % b)
  {}

  lemma Determinant(u1: int, u3: int, v1: int, v3: int, q: int, t3: int)
    requires u3 == q * v3 + t3
    ensures v1 * t3 + (u1 + q * v1) * v3 == u1 * v3 + v1 * u3
  {
    assert v1 * (q * v3 + t3) == q * v1 * v3 + v1 * t3;
  }

  /** When `v3` reaches 0 the inverse is `u1`, or `v - u1` after an odd number of rounds. */
  lemma ExtendedEnd(u1: nat, u3: nat, v1: nat, s: int, u: nat, v: nat)
    requires Extended(u1, u3, v1, 0, s, u, v)
    ensures u3 == Gcd(u, v)
    ensures v > 0 ==> u1 <= v
    ensures v < 2 ==> (if s < 0 then v - u1 else u1) == 1
    ensures v >= 2 && u3 == 1 ==> 0 < u1 < v && ((if s < 0 then v - u1 else u1) * u) % v == 1
  {
    hide Link;
    if v >= 2 && u3 == 1 {
      LinkInverse(u1, s, u, v);
      NotMultiple(u1, u, v);
    }
  }

  lemma LinkInverse(u1: nat, s: int, u: nat, v: nat)
    requires v >= 2 && u1 <= v && Link(v, Signed(s, u1), u, 1)
    ensures ((if s < 0 then v - u1 else u1) * u) % v == 1
  {
    var x := Signed(s, u1);
    CongruentIff(x * u, 1, v);
    DivModUnique(1, v, 0, 1);
    if s < 0 {
      assert (v - u1) * u == u * v + x * u;
      ModOfMultiple(u, v, x * u);
    }
  }

  lemma NotMultiple(u1: nat, u: nat, v: nat)
    ensures u1 == 0 ==> u1 * u == 0 && (v >= 2 ==> (v * u) % v == 0)
    ensures u1 == v && v >= 2 ==> (u1 * u) % v == 0 && ((v - u1) * u) % v == 0
  {
    if v >= 2 {
      DivModUnique(v * u, v, u, 0);
      DivModUnique(0, v, 0, 0);
      assert 0 * u == 0;
    }
  }

  /** A product that fits in the low half leaves it unchanged. */
  lemma LowHalf(w: seq<Digit>, n: nat)
    requires 2 * n <= |w| && Val(w, 0, 2 * n) < P(n)
    ensures Val(w, 0, n) == Val(w, 0, 2 * n)
  {
    hide Val, P;
    ValSplit(w, 0, n, 2 * n);
    var h := Val(w, n, 2 * n);
    if h >= 1 { MulLe(1, h, P(n)); } else { assert P(n) * h == 0; }
  }

  /** `t1 = u1 + q * v1` in `n` digits, through the double-length product `w`. */
  method MultiplyAdd(t1: array<Digit>, u1: array<Digit>, q: array<Digit>, v1: array<Digit>, w: array<Digit>, n: nat)
    requires 1 <= n <= t1.Length && n <= u1.Length && n <= q.Length && n <= v1.Length && 2 * n <= w.Length
    requires w != q && w != v1 && w != t1 && w != u1
    requires Num(u1, n) + Num(q, n) * Num(v1, n) < P(n)
    modifies t1, w
    ensures Num(t1, n) == old(Num(u1, n) + Num(q, n) * Num(v1, n))
  {
    hide Val, P;
    ghost var x, y := Num(u1, n), Num(q, n) * Num(v1, n);
    MpMultiply(w, q, v1, n);
    LowHalf(w[..], n);
    var carry := MpAdd(t1, 0, u1, 0, w, n);
    NoCarry(Num(t1, n), carry, P(n), x + y);
  }

  /** Step X3 once; the arrays are all different. */
  method EuclidRound(u1: array<Digit>, u3: array<Digit>, v1: array<Digit>, v3: array<Digit>, q: array<Digit>,
                     t1: array<Digit>, t3: array<Digit>, w: array<Digit>, n: nat, ghost s: int, ghost U: nat,
                     ghost V: nat)
    requires 1 <= n <= u1.Length && n <= u3.Length && n <= v1.Length && n <= v3.Length && V < P(n)
    requires n <= q.Length && n <= t1.Length && n <= t3.Length && 2 * n <= w.Length
    requires multiset{u1, u3, v1, v3, q, t1, t3, w} == multiset({u1, u3, v1, v3, q, t1, t3, w})
    requires (s == 1 || s == -1) && Num(v3, n) > 0
    requires Extended(Num(u1, n), Num(u3, n), Num(v1, n), Num(v3, n), s, U, V)
    modifies u1, u3, v1, v3, q, t1, t3, w
    ensures Extended(Num(u1, n), Num(u3, n), Num(v1, n), Num(v3, n), -s, U, V)
    ensures Num(v3, n) < old(Num(v3, n))
  {
    hide Val, P, Extended;
    ghost var a1, a3, b1, b3 := Num(u1, n), Num(u3, n), Num(v1, n), Num(v3, n);
    var code := MpDivide(q, t3, u3, n, v3, n);
    ExtendedStep(a1, a3, b1, b3, s, U, V, Num(q, n), Num(t3, n));
    MultiplyAdd(t1, u1, q, v1, w, n);
    MpSetEqual(u1, v1, n);
    MpSetEqual(v1, t1, n);
    MpSetEqual(u3, v3, n);
    MpSetEqual(v3, t3, n);
  }

  /** Steps X2 and X3 until `v3` is zero; -1 after an odd number of rounds. */
  method EuclidRounds(u1: array<Digit>, u3: array<Digit>, v1: array<Digit>, v3: array<Digit>, n: nat, ghost U: nat,
                      ghost V: nat) returns (bIterations: int)
    requires 1 <= n <= u1.Length && n <= u3.Length && n <= v1.Length && n <= v3.Length && V < P(n)
    requires u1 != u3 && u1 != v1 && u1 != v3 && u3 != v1 && u3 != v3 && v1 != v3
    requires Extended(Num(u1, n), Num(u3, n), Num(v1, n), Num(v3, n), 1, U, V)
    modifies u1, u3, v1, v3
    ensures Extended(Num(u1, n), Num(u3, n), Num(v1, n), 0, bIterations, U, V)
  {
    hide Val, P, Extended;
    var t1 := MpAlloc(n);
    var t3 := MpAlloc(n);
    var q := MpAlloc(n);
    var w := MpAlloc(2 * n);
    bIterations := 1;
    var z := MpIsZero(v3, n);
    while z == 0
      modifies u1, u3, v1, v3, t1, t3, q, w
      invariant bIterations == 1 || bIterations == -1
      invariant Extended(Num(u1, n), Num(u3, n), Num(v1, n), Num(v3, n), bIterations, U, V)
      invariant z == if Num(v3, n) == 0 then 1 else 0
      decreases Num(v3, n)
    {
      EuclidRound(u1, u3, v1, v3, q, t1, t3, w, n, bIterations, U, V);
      bIterations := -bIterations;
      z := MpIsZero(v3, n);
    }
  }

  /** mpModInv: 0 when the inverse exists, otherwise 1 with `inv = 0`. */
  method MpModInv(inv: array<Digit>, u: array<Digit>, v: array<Digit>, n: nat) returns (result: int)
    requires 1 <= n <= inv.Length && n <= u.Length && n <= v.Length
    modifies inv
    ensures result == if Gcd(old(Num(u, n)), old(Num(v, n))) == 1 then 0 else 1
    ensures result == 1 ==> Num(inv, n) == 0
    ensures result == 0 && old(Num(v, n)) < 2 ==> Num(inv, n) == 1
    ensures result == 0 && old(Num(v, n)) >= 2 ==> 0 < Num(inv, n) < old(Num(v, n))
    ensures result == 0 && old(Num(v, n)) >= 2 ==> (Num(inv, n) * old(Num(u, n))) % old(Num(v, n)) == 1
    ensures SameOutside(inv[..], old(inv[..]), 0, n)
  {
    hide Val, P, Extended, Gcd;
    ghost var U, V := Num(u, n), Num(v, n);
    var u1 := MpAlloc(n);
    var u3 := MpAlloc(n);
    var v1 := MpAlloc(n);
    var v3 := MpAlloc(n);
    Sizes();
    MpSetDigit(u1, 1, n);
    MpSetEqual(u3, u, n);
    MpSetZero(v1, n);
    MpSetEqual(v3, v, n);
    ExtendedStart(U, V);
    ValBound(v[..], 0, n);
    var bIterations := EuclidRounds(u1, u3, v1, v3, n, U, V);
    ExtendedEnd(Num(u1, n), Num(u3, n), Num(v1, n), bIterations, U, V);
    if bIterations < 0 {
      var k := MpSubtract(inv, v, u1, n);
    } else {
      MpSetEqual(inv, u1, n);
    }
    var c := MpShortCmp(u3, 1, n);
    if c != 0 {
      result := 1;
      MpSetZero(inv, n);
    } else {
      result := 0;
    }
  }
}
