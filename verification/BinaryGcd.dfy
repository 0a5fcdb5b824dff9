/** mpGcd: binary greatest common divisor after one reduction (Menezes, algorithm 14.54). */
module BinaryGcd {
  import opened Arith
  import opened Digits
  import opened Value
  import opened Linear
  import opened Shift
  import opened NumberTheory
  import opened ModExp
  import opened ModInverse
  import opened Primality
  import opened SlidingWindow

  /** The two numbers, one of them odd, still have the odd part of the answer as common divisor. */
  ghost predicate Reduced(a: nat, b: nat, g: nat) {
    b > 0 && (a % 2 == 1 || b % 2 == 1) && Gcd(a, b) == g
  }

  lemma HalveFirst(a: nat, b: nat, g: nat)
    requires Reduced(a, b, g) && a % 2 == 0
    ensures Reduced(a / 2, b, g)
  {
    GcdHalve(a / 2, b);
  }

  lemma HalveSecond(a: nat, b: nat, g: nat)
    requires Reduced(a, b, g) && b % 2 == 0
    ensures 0 < b / 2 < b && Reduced(a, b / 2, g)
  {
    GcdSymmetric(a, b);
    GcdHalve(b / 2, a);
    GcdSymmetric(b / 2, a);
  }

  /** Step 4: replacing the larger by half the difference of two odd numbers. */
  lemma SubtractHalve(a: nat, b: nat, g: nat)
    requires Reduced(a, b, g) && a % 2 == 1 && b % 2 == 1
    ensures a >= b ==> Reduced((a - b) / 2, b, g)
    ensures a < b ==> 0 < (b - a) / 2 && Reduced(a, (b - a) / 2, g)
  {
    hide Gcd;
    if a >= b {
      GcdSubtract(a, b);
      HalveFirst(a - b, b, g);
    } else {
      GcdSymmetric(a, b);
      GcdSubtract(b, a);
      GcdSymmetric(b - a, a);
      HalveSecond(a, b - a, g);
    }
  }

  /** Halve in place: `mpShiftRight(a, a, 1, n)` while tracking the low bit. */
  method Halve(a: array<Digit>, n: nat)
    requires 1 <= n <= a.Length
    modifies a
    ensures Num(a, n) == old(Num(a, n)) / 2
  {
    hide Val, P, Pow2;
    Sizes();
    OneBit(n);
    var k := MpShiftRight(a, a, 1, n);
  }

  lemma OneBit(n: nat)
    requires n >= 1
    ensures 1 / BITS <= n && Pow2(1) == 2
  {
    DivModUnique(1, BITS, 0, 1);
  }

  method IsEven(a: array<Digit>, n: nat) returns (even: bool)
    requires 1 <= n <= a.Length
    ensures even <==> Num(a, n) % 2 == 0
  {
    hide Val;
    LowBit(a[..], n);
    assert a[0] == a[..][0];
    even := a[0] % 2 == 0;
  }

  /** Step 3 for one operand: halve until odd. The number is never zero here, so this ends. */
  method RemoveTwos(a: array<Digit>, n: nat, first: bool, ghost other: nat, ghost g: nat)
    requires 1 <= n <= a.Length && Num(a, n) > 0
    requires if first then Reduced(Num(a, n), other, g) else Reduced(other, Num(a, n), g)
    modifies a
    ensures Num(a, n) % 2 == 1 && Num(a, n) <= old(Num(a, n))
    ensures if first then Reduced(Num(a, n), other, g) else Reduced(other, Num(a, n), g)
  {
    hide Val, P, Reduced;
    var even := IsEven(a, n);
    while even
      invariant 0 < Num(a, n) <= old(Num(a, n))
      invariant if first then Reduced(Num(a, n), other, g) else Reduced(other, Num(a, n), g)
      invariant even <==> Num(a, n) % 2 == 0
      decreases Num(a, n)
    {
      if first { HalveFirst(Num(a, n), other, g); } else { HalveSecond(other, Num(a, n), g); }
      Halve(a, n);
      even := IsEven(a, n);
    }
  }

  /** Step 2: take out the common powers of two. */
  method CommonTwos(a: array<Digit>, b: array<Digit>, n: nat) returns (k: nat)
    requires a != b && 1 <= n <= a.Length && n <= b.Length && Num(a, n) > 0 && Num(b, n) > 0
    modifies a, b
    ensures Num(a, n) > 0 && Reduced(Num(a, n), Num(b, n), Gcd(Num(a, n), Num(b, n)))
    ensures old(Gcd(Num(a, n), Num(b, n))) == Pow2(k) * Gcd(Num(a, n), Num(b, n))
  {
    hide Val, P, Gcd, Pow2;
    ghost var g := Gcd(Num(a, n), Num(b, n));
    k := 0;
    Pow2Add(0, 0);
    var ea := IsEven(a, n);
    var eb := IsEven(b, n);
    while ea && eb
      invariant Num(a, n) > 0 && Num(b, n) > 0
      invariant g == Pow2(k) * Gcd(Num(a, n), Num(b, n))
      invariant ea <==> Num(a, n) % 2 == 0
      invariant eb <==> Num(b, n) % 2 == 0
      decreases Num(a, n)
    {
      HalveBoth(Num(a, n), Num(b, n), k, g);
      Halve(a, n);
      Halve(b, n);
      k := k + 1;
      ea := IsEven(a, n);
      eb := IsEven(b, n);
    }
  }

  lemma HalveBoth(a: nat, b: nat, k: nat, g: nat)
    requires a % 2 == 0 && b % 2 == 0 && g == Pow2(k) * Gcd(a, b)
    ensures g == Pow2(k + 1) * Gcd(a / 2, b / 2)
  {
    hide Gcd;
    GcdDouble(a / 2, b / 2);
    Pow2Add(k, 1);
    Double(1, 1);
    assert Pow2(k) * (2 * Gcd(a / 2, b / 2)) == Pow2(k) * 2 * Gcd(a / 2, b / 2);
  }

  /** Steps 3 to 5: `a + b` falls until `a` is zero and `b` is the odd part of the answer. */
  method SubtractLoop(a: array<Digit>, b: array<Digit>, n: nat, ghost g: nat)
    requires a != b && 1 <= n <= a.Length && n <= b.Length
    requires Reduced(Num(a, n), Num(b, n), g)
    modifies a, b
    ensures Num(a, n) == 0 && Num(b, n) == g && g % 2 == 1
  {
    hide Val, P, Reduced;
    var t := MpAlloc(n);
    var z := MpIsZero(a, n);
    while z == 0
      modifies a, b, t
      invariant Reduced(Num(a, n), Num(b, n), g)
      invariant z == if Num(a, n) == 0 then 1 else 0
      decreases Num(a, n) + Num(b, n)
    {
      RemoveTwos(a, n, true, Num(b, n), g);
      BPositive(Num(a, n), Num(b, n), g);
      RemoveTwos(b, n, false, Num(a, n), g);
      SubtractHalve(Num(a, n), Num(b, n), g);
      var c := MpCompare(b, a, n);
      if c > 0 {
        var k := MpSubtract(t, b, a, n);
      } else {
        var k := MpSubtract(t, a, b, n);
      }
      ZeroTimes(P(n));
      Halve(t, n);
      c := MpCompare(a, b, n);
      if c >= 0 {
        MpSetEqual(a, t, n);
      } else {
        MpSetEqual(b, t, n);
      }
      z := MpIsZero(a, n);
    }
    GcdOfZero(Num(b, n), g);
  }

  lemma BPositive(a: nat, b: nat, g: nat)
    requires Reduced(a, b, g)
    ensures b > 0
  {}

  lemma ZeroTimes(p: int)
    ensures 0 * p == 0
  {}

  lemma GcdOfZero(b: nat, g: nat)
    requires Reduced(0, b, g)
    ensures b == g && g % 2 == 1
  {
    GcdSymmetric(0, b);
  }

  lemma GcdBound(a: nat, b: nat, p: nat)
    requires a < p && b < p
    ensures Gcd(a, b) < p
  {
    if a > 0 || b > 0 {
      GcdDivides(a, b);
      if a > 0 { DividesLe(Gcd(a, b), a); } else { DividesLe(Gcd(a, b), b); }
    }
  }

  /** The final shift cannot overflow. */
  lemma FinalShift(b: nat, k: nat, g: nat, n: nat)
    requires g == Pow2(k) * b && b > 0 && g < P(n)
    ensures k / BITS <= n && (b * Pow2(k)) % P(n) == g
  {
    WholeDigits(n);
    MulLe(1, b, Pow2(k));
    if k >= n * BITS { Pow2Mono(n * BITS, k); }
    DivModUnique(g, P(n), 0, g);
    QuotientLess(k, n, BITS);
  }

  /** Step 1: order the operands and reduce once; `done` when `a` already is the answer. */
  method ReduceOnce(a: array<Digit>, b: array<Digit>, n: nat) returns (done: bool)
    requires a != b && n <= a.Length && n <= b.Length
    modifies a, b
    ensures Gcd(Num(a, n), Num(b, n)) == old(Gcd(Num(a, n), Num(b, n)))
    ensures if done then Num(a, n) == Gcd(Num(a, n), Num(b, n)) else n >= 1 && Num(a, n) > 0 && Num(b, n) > 0
  {
    hide Val, P, Gcd;
    ghost var x, y := Num(a, n), Num(b, n);
    GcdSymmetric(x, y);
    var c := MpCompare(a, b, n);
    if c < 0 {
      var t := MpAlloc(n);
      MpSetEqual(t, a, n);
      MpSetEqual(a, b, n);
      MpSetEqual(b, t, n);
    }
    NoDigits(b[..], n);
    GcdWithZero(Num(a, n), Num(b, n));
    var z := MpIsZero(b, n);
    if z != 0 {
      return true;
    }
    GcdUnfold(Num(a, n), Num(b, n));
    var r := MpAlloc(n);
    MpModulo(r, a, n, b, n);
    MpSetEqual(a, b, n);
    MpSetEqual(b, r, n);
    GcdWithZero(Num(a, n), Num(b, n));
    z := MpIsZero(b, n);
    done := z != 0;
  }

  /** mpGcd: the greatest common divisor for all inputs, zeros included; `d` may be an operand. */
  method MpGcd(d: array<Digit>, aa: array<Digit>, bb: array<Digit>, n: nat)
    requires n <= d.Length && n <= aa.Length && n <= bb.Length
    modifies d
    ensures Num(d, n) == Gcd(old(Num(aa, n)), old(Num(bb, n)))
    ensures SameOutside(d[..], old(d[..]), 0, n)
  {
    hide Val, P, Gcd, Reduced, Pow2;
    ghost var G := Gcd(Num(aa, n), Num(bb, n));
    ValBound(aa[..], 0, n);
    ValBound(bb[..], 0, n);
    GcdBound(Num(aa, n), Num(bb, n), P(n));
    var a := MpAlloc(n);
    var b := MpAlloc(n);
    MpSetEqual(a, aa, n);
    MpSetEqual(b, bb, n);
    var done := ReduceOnce(a, b, n);
    if done {
      MpSetEqual(d, a, n);
      return;
    }
    var k := CommonTwos(a, b, n);
    SubtractLoop(a, b, n, Gcd(Num(a, n), Num(b, n)));
    FinalShift(Num(b, n), k, G, n);
    var carry := MpShiftLeft(d, b, k, n);
  }

  lemma NoDigits(s: seq<Digit>, n: nat)
    requires n <= |s|
    ensures n == 0 ==> Val(s, 0, n) == 0
  {}

  lemma GcdWithZero(a: nat, b: nat)
    ensures b == 0 ==> Gcd(a, b) == a
  {}
}
