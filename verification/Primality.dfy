/** mpRabinMiller (section 2.1 of Appendix 2 of FIPS 186-2): no prime is ever rejected. */
module Primality {
  import opened Arith
  import opened Digits
  import opened Value
  import opened Linear
  import opened Shift
  import opened NumberTheory
  import opened ModExp
  import opened SlidingWindow

  /** `b^(m * 2^j) mod w`: the number the test reaches after `j` squarings. */
  function Squared(b: nat, m: nat, j: nat, w: nat): nat
    requires w > 0
  {
    PowerExponent(m, j);
    Pow(b, m * Pow2(j)) % w
  }

  lemma PowerExponent(m: nat, j: nat)
    ensures 0 <= m * Pow2(j)
  {}

  lemma SquaredStep(b: nat, m: nat, j: nat, w: nat)
    requires w > 0
    ensures Squared(b, m, j + 1, w) == (Squared(b, m, j, w) * Squared(b, m, j, w)) % w
  {
    PowerExponent(m, j);
    PowerExponent(m, j + 1);
    Pow2Add(j, 1);
    Double(m, Pow2(j));
    var e := m * Pow2(j);
    PowAdd(b, e, e);
    var x := Pow(b, e);
    ModMul(x, x, w);
    ModMul(x, x % w, w);
    assert (x % w) * x == x * (x % w);
  }

  lemma Double(m: int, p: int)
    ensures Pow2(1) == 2 && m * (p * 2) == m * p + m * p
  {}

  /** The strong probable-prime condition the routine checks for base `b`. */
  ghost predicate Passes(b: nat, m: nat, a: nat, w: nat)
    requires w > 0
  {
    Squared(b, m, 0, w) == 1 || exists j: nat :: (j == 0 || j < a) && Squared(b, m, j, w) == w - 1
  }

  /** Once 1 is reached it stays. */
  lemma {:induction false} StaysOne(b: nat, m: nat, i: nat, j: nat, w: nat)
    requires w > 2 && i <= j && Squared(b, m, i, w) == 1
    ensures Squared(b, m, j, w) == 1
    decreases j
  {
    if i < j {
      StaysOne(b, m, i, j - 1, w);
      SquaredStep(b, m, j - 1, w);
      DivModUnique(1, w, 0, 1);
    }
  }

  /** For a prime the squarings end at 1, and the last step before the first 1 is -1. */
  lemma {:induction false} PrimeDescends(b: nat, m: nat, j: nat, w: nat)
    requires Prime(w) && Squared(b, m, j, w) == 1
    ensures Squared(b, m, 0, w) == 1 || exists i: nat :: i < j && Squared(b, m, i, w) == w - 1
    decreases j
  {
    if j > 0 {
      SquaredStep(b, m, j - 1, w);
      var z := Squared(b, m, j - 1, w);
      DivModUnique(1, w, 0, 1);
      RootOfOne(w, z);
      if z == 1 {
        PrimeDescends(b, m, j - 1, w);
      }
    }
  }

  /** Every base passes for a prime. */
  lemma PrimePasses(b: nat, m: nat, a: nat, w: nat)
    requires Prime(w) && 1 < b < w && w - 1 == m * Pow2(a)
    ensures Passes(b, m, a, w)
  {
    if Divides(w, b) { DividesLe(w, b); }
    Fermat(w, b);
    DivModUnique(1, w, 0, 1);
    assert Squared(b, m, a, w) == 1;
    PrimeDescends(b, m, a, w);
  }

  /** The low bit of the number is that of its lowest digit: mpISEVEN. */
  lemma LowBit(s: seq<Digit>, n: nat)
    requires 1 <= n <= |s|
    ensures Val(s, 0, n) % 2 == s[0] % 2
  {
    hide Val;
    ValLow(s, 0, n);
    BaseIsEven();
    EvenMultiple(BASE, Pow(2, BITS - 1), Val(s, 1, n));
    ParitySum(s[0], BASE * Val(s, 1, n));
  }

  lemma EvenMultiple(b: int, h: int, v: int)
    requires b == 2 * h
    ensures (b * v) % 2 == 0
  {
    assert b * v == 2 * (h * v);
  }

  lemma ParitySum(x: int, y: int)
    requires y % 2 == 0
    ensures (x + y) % 2 == x % 2
  {}

  /** Step 2: `w - 1 = 2^a * m` with `m` odd. */
  method SplitPowerOfTwo(w1: array<Digit>, m: array<Digit>, a: array<Digit>, n: nat)
    requires 1 <= n <= w1.Length && n <= m.Length && n <= a.Length
    requires w1 != m && w1 != a && m != a && Num(w1, n) > 0
    modifies m, a
    ensures OddPart(Num(m, n), Num(a, n), Num(w1, n))
  {
    hide Val, P, Pow2;
    ghost var x := Num(w1, n);
    MpSetEqual(m, w1, n);
    MpSetZero(a, n);
    Pow2Add(0, 0);
    LowBit(m[..], n);
    assert m[0] == m[..][0];
    while m[0] % 2 == 0
      invariant Num(m, n) * Pow2(Num(a, n)) == x && Num(m, n) > 0
      invariant Num(m, n) % 2 == m[0] % 2
      decreases Num(m, n)
    {
      ghost var m0, a0 := Num(m, n), Num(a, n);
      var k := MpShiftRight(m, m, 1, n);
      Sizes();
      k := MpShortAdd(a, a, 1, n);
      HalveStep(m0, a0, x);
      ValBound(w1[..], 0, n);
      NoCarry(Num(a, n), k, P(n), a0 + 1);
      LowBit(m[..], n);
      assert m[0] == m[..][0];
    }
  }

  lemma HalveStep(m: nat, a: nat, x: nat)
    requires m * Pow2(a) == x && m > 0 && m % 2 == 0
    ensures m / Pow2(1) == m / 2 && 0 < m / 2 < m && (m / 2) * Pow2(a + 1) == x && a + 1 <= x
  {
    Pow2Add(a, 1);
    Double(m / 2, Pow2(a));
    PowExceeds(a + 1);
    MulLe(1, m / 2, Pow2(a + 1));
  }

  lemma NoCarry(d: int, k: int, p: int, x: int)
    requires 0 <= d && d + k * p == x && x < p && 0 <= k && 0 <= p
    ensures k == 0 && d == x
  {
    if k >= 1 { MulLe(1, k, p); }
  }

  /** Steps 4 to 7 for one base: passes exactly when the strong condition holds. */
  method TestBase(z: array<Digit>, b: array<Digit>, m: array<Digit>, a: array<Digit>, j: array<Digit>, w1: array<Digit>,
                  w: array<Digit>, n: nat)
    returns (failed: bool)
    requires 1 <= n <= z.Length && n <= b.Length && n <= m.Length && n <= a.Length && n <= j.Length && n <= w1.Length
      && n <= w.Length
    requires z != b && z != m && z != a && z != j && z != w1 && z != w
    requires j != b && j != m && j != a && j != w1 && j != w && w != b && w != m && w != a && w != w1
    requires Num(w, n) > 2 && Num(w1, n) == Num(w, n) - 1 && Num(m, n) > 0
    modifies z, j, w
    ensures w[..] == old(w[..])
    ensures !failed <==> Passes(Num(b, n), Num(m, n), Num(a, n), Num(w, n))
  {
    hide Val, P, Pow2, Squared, Passes, Reduce;
    ghost var B0, M, A, W := Num(b, n), Num(m, n), Num(a, n), Num(w, n);
    ghost var jj: nat := 0;
    failed := true;
    MpSetZero(j, n);
    var code := MpModExp(z, b, m, w, n);
    SquaredStart(B0, M, W);
    var more := true;
    while more
      modifies z, j, w
      invariant w[..] == old(w[..])
      invariant failed
      invariant forall i: nat | i < jj :: Squared(B0, M, i, W) != W - 1
      invariant jj > 0 ==> Squared(B0, M, 0, W) != 1
      invariant Num(j, n) == jj
      invariant more ==> Num(z, n) == Squared(B0, M, jj, W) && (jj == 0 || jj < A)
      invariant !more ==> jj >= A && jj > 0
      decreases more, A - jj
    {
      Sizes();
      var j0 := MpIsZero(j, n);
      var z1 := MpShortCmp(z, 1, n);
      var zw := MpCompare(z, w1, n);
      if (j0 != 0 && z1 == 0) || zw == 0 {
        PassesBy(B0, M, A, W, jj);
        failed := false;
        return;
      }
      if j0 == 0 && z1 == 0 {
        FailsBy(B0, M, A, W, jj);
        return;
      }
      var k := MpShortAdd(j, j, 1, n);
      ValBound(a[..], 0, n);
      CounterFits(n);
      NoCarry(Num(j, n), k, P(n), jj + 1);
      SquaredStep(B0, M, jj, W);
      jj := jj + 1;
      var c := MpCompare(j, a, n);
      if c < 0 {
        ReduceIs(Num(z, n) * Num(z, n), W);
        MpModMult(z, z, z, w, n);
      }
      more := c < 0;
    }
    NeverPassed(B0, M, A, W, jj);
  }

  lemma CounterFits(n: nat)
    requires n >= 1
    ensures 1 < P(n)
  {
    Sizes();
    PStep(n - 1);
    MulLe(1, P(n - 1), BASE);
  }

  lemma SquaredStart(b: nat, m: nat, w: nat)
    requires w > 0 && m > 0
    ensures Squared(b, m, 0, w) == Reduce(Pow(b, m), w)
  {
    Pow2Add(0, 0);
  }

  lemma PassesBy(b: nat, m: nat, a: nat, w: nat, j: nat)
    requires w > 0 && (j == 0 || j < a)
    requires (j == 0 && Squared(b, m, 0, w) == 1) || Squared(b, m, j, w) == w - 1
    ensures Passes(b, m, a, w)
  {}

  lemma FailsBy(b: nat, m: nat, a: nat, w: nat, j: nat)
    requires w > 2 && j > 0 && Squared(b, m, j, w) == 1
    requires Squared(b, m, 0, w) != 1 && forall i: nat | i < j :: Squared(b, m, i, w) != w - 1
    ensures !Passes(b, m, a, w)
  {
    if i: nat :| (i == 0 || i < a) && Squared(b, m, i, w) == w - 1 {
      StaysOne(b, m, j, i, w);
    }
  }

  lemma NeverPassed(b: nat, m: nat, a: nat, w: nat, j: nat)
    requires w > 2 && j > 0 && j >= a
    requires Squared(b, m, 0, w) != 1 && forall i: nat | i < j :: Squared(b, m, i, w) != w - 1
    ensures !Passes(b, m, a, w)
  {}

  /** Steps 3 to 8 for one drawn base. */
  method Round(z: array<Digit>, b: array<Digit>, m: array<Digit>, a: array<Digit>, j: array<Digit>, w1: array<Digit>,
               w: array<Digit>, n: nat, drawn: Digit)
    returns (failed: bool)
    requires 1 <= n <= z.Length && n <= b.Length && n <= m.Length && n <= a.Length && n <= j.Length && n <= w1.Length
      && n <= w.Length
    requires z != b && z != m && z != a && z != j && z != w1 && z != w
    requires j != b && j != m && j != a && j != w1 && j != w && w != b && w != m && w != a && w != w1
    requires b != m && b != a && b != w1
    requires Num(w, n) > 2 && Num(w1, n) == Num(w, n) - 1 && OddPart(Num(m, n), Num(a, n), Num(w1, n))
    modifies b, z, j, w
    ensures w[..] == old(w[..])
    ensures !failed <==> StrongPrime(drawn, Num(w, n))
  {
    hide Val, P, Pow2, Passes, StrongPrime, OddPart;
    MpSetZero(b, n);
    b[0] := drawn;
    SetLowest(b[..], n);
    OddIsPositive(Num(m, n), Num(a, n), Num(w1, n));
    failed := TestBase(z, b, m, a, j, w1, w, n);
    StrongPrimeIs(drawn, Num(m, n), Num(a, n), Num(w, n));
  }

  /** `x = 2^a * m` with `m` odd. */
  predicate OddPart(m: nat, a: nat, x: nat) {
    m % 2 == 1 && m * Pow2(a) == x
  }

  lemma OddIsPositive(m: nat, a: nat, x: nat)
    requires OddPart(m, a, x)
    ensures m > 0
  {}

  /**
   * mpRabinMiller. `draws` are the random digits accepted by the draw loop, which repeats until a digit
   * below `w` comes up; for `w == 2` there is none, and the source does not return unless `t` is 0.
   */
  method MpRabinMiller(w: array<Digit>, n: nat, t: nat, draws: seq<Digit>) returns (isprime: int)
    requires 1 <= n <= w.Length
    requires Num(w, n) > 1 ==> |draws| == t && forall i | 0 <= i < t :: 2 <= draws[i] < Num(w, n)
    modifies w
    ensures w[..] == old(w[..])
    ensures isprime == 0 || isprime == 1
    ensures isprime == 1 <==> Num(w, n) > 1 && forall i | 0 <= i < t :: StrongPrime(draws[i], Num(w, n))
    ensures Prime(Num(w, n)) ==> isprime == 1
  {
    hide Val, P, Pow2, Passes, Squared, StrongPrime, Prime;
    ghost var W := Num(w, n);
    Sizes();
    NotPrime(W);
    var one := MpShortCmp(w, 1, n);
    if one <= 0 {
      return 0;
    }
    var m := MpAlloc(n);
    var a := MpAlloc(n);
    var b := MpAlloc(n);
    var z := MpAlloc(n);
    var w1 := MpAlloc(n);
    var j := MpAlloc(n);
    var k := MpShortSub(w1, w, 1, n);
    ValBound(w1[..], 0, n);
    assert k * P(n) == 0;
    SplitPowerOfTwo(w1, m, a, n);
    for i := 0 to t
      modifies b, z, j, w
      invariant w[..] == old(w[..])
      invariant forall h | 0 <= h < i :: StrongPrime(draws[h], W)
    {
      var failed := Round(z, b, m, a, j, w1, w, n, draws[i]);
      PrimeIsStrong(draws[i], W);
      if failed {
        return 0;
      }
    }
    return 1;
  }

  /** The strong probable-prime condition on the number itself: its odd part and power of two are determined. */
  ghost predicate StrongPrime(b: nat, w: nat) {
    w > 2 && forall m: nat, a: nat | OddPart(m, a, w - 1) :: Passes(b, m, a, w)
  }

  lemma OddPartParity(m: nat, a: nat, x: nat)
    requires OddPart(m, a, x)
    ensures x % 2 == if a == 0 then 1 else 0
    ensures a > 0 ==> OddPart(m, a - 1, x / 2)
  {
    Pow2Add(0, 0);
    if a > 0 {
      Pow2Add(a - 1, 1);
      Double(m, Pow2(a - 1));
    }
  }

  lemma {:induction false} OddPartUnique(m: nat, a: nat, m': nat, a': nat, x: nat)
    requires OddPart(m, a, x) && OddPart(m', a', x)
    ensures m == m' && a == a'
    decreases a
  {
    OddPartParity(m, a, x);
    OddPartParity(m', a', x);
    Pow2Add(0, 0);
    if a > 0 {
      OddPartUnique(m, a - 1, m', a' - 1, x / 2);
    }
  }

  lemma StrongPrimeIs(b: nat, m: nat, a: nat, w: nat)
    requires w > 2 && OddPart(m, a, w - 1)
    ensures StrongPrime(b, w) <==> Passes(b, m, a, w)
  {
    var x := w - 1;
    forall m': nat, a': nat | OddPart(m', a', x)
      ensures m' == m && a' == a
    {
      OddPartUnique(m, a, m', a', x);
    }
  }

  lemma PrimeIsStrong(b: nat, w: nat)
    requires 1 < b < w
    ensures Prime(w) ==> StrongPrime(b, w)
  {
    if Prime(w) {
      forall m: nat, a: nat | OddPart(m, a, w - 1)
        ensures Passes(b, m, a, w)
      {
        PrimePasses(b, m, a, w);
      }
    }
  }

  lemma NotPrime(w: nat)
    ensures w <= 1 ==> !Prime(w)
  {}

  lemma SetLowest(b: seq<Digit>, n: nat)
    requires 1 <= n <= |b| && forall i | 1 <= i < n :: b[i] == 0
    ensures Val(b, 0, n) == b[0]
  {
    ValLow(b, 0, n);
    ValZero(b, 1, n);
  }
}
