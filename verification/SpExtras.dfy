/** The single-digit versions in BigDigits/spExtras.c. */
module SpExtras {
  import opened Arith
  import opened Digits
  import opened Value
  import opened Linear
  import opened SinglePrecision
  import opened NumberTheory
  import opened ModExp
  import opened ModInverse
  import opened BinaryGcd
  import opened Jacobi
  import opened ExponentBits
  import opened Primality
  import opened Shift

  /** spModMult. */
  method SpModMult(x: Digit, y: Digit, m: Digit) returns (a: Digit)
    ensures a == Reduce(x * y, m)
  {
    hide Val, P;
    var p0, p1 := SpMultiply(x, y);
    var p := new Digit[2];
    p[0], p[1] := p0, p1;
    TwoDigits(p[..]);
    a := MpShortMod(p, m, 2);
  }

  lemma TwoDigits(p: seq<Digit>)
    requires |p| == 2
    ensures Val(p, 0, 2) == p[1] * BASE + p[0]
  {
    ValLow(p, 0, 2);
    ValLow(p, 1, 2);
    ValEmpty(p, 2);
  }

  /** spGcd. */
  method SpGcd(x: Digit, y: Digit) returns (g: Digit)
    ensures g == Gcd(x, y)
  {
    hide Gcd, Pow2, Reduced;
    var a: nat, b: nat := x, y;
    if a < b {
      a, b := b, a;
    }
    GcdSymmetric(x, y);
    GcdWithZero(a, b);
    if b == 0 {
      return a;
    }
    GcdUnfold(a, b);
    a, b := b, a % b;
    GcdWithZero(a, b);
    if b == 0 {
      return a;
    }
    ghost var want := Gcd(a, b);
    GcdBound(a, b, BASE);
    var k := 0;
    Pow2Add(0, 0);
    while a % 2 == 0 && b % 2 == 0
      invariant a > 0 && b > 0 && want == Pow2(k) * Gcd(a, b)
      decreases a
    {
      HalveBoth(a, b, k, want);
      a, b := a / 2, b / 2;
      k := k + 1;
    }
    ghost var odd := Gcd(a, b);
    ReducedStart(a, b);
    while a != 0
      invariant Reduced(a, b, odd)
      decreases a + b
    {
      ghost var size := a + b;
      while a % 2 == 0
        invariant a > 0 && Reduced(a, b, odd) && a + b <= size
        decreases a
      {
        HalveFirst(a, b, odd);
        a := a / 2;
      }
      BPositive(a, b, odd);
      while b % 2 == 0
        invariant b > 0 && Reduced(a, b, odd) && a + b <= size
        decreases b
      {
        HalveSecond(a, b, odd);
        b := b / 2;
      }
      SubtractHalve(a, b, odd);
      var t := if b > a then (b - a) / 2 else (a - b) / 2;
      if a >= b {
        a := t;
      } else {
        b := t;
      }
    }
    GcdOfZero(b, odd);
    DivModUnique(b * Pow2(k), BASE, 0, want);
    return (b * Pow2(k)) % BASE;
  }

  lemma ReducedStart(a: nat, b: nat)
    requires b > 0 && (a % 2 == 1 || b % 2 == 1)
    ensures Reduced(a, b, Gcd(a, b))
  {}

  method QuotientRemainder(u: nat, v: nat) returns (q: nat, r: nat)
    requires v > 0
    ensures u == q * v + r && r < v
  {
    q, r := u / v, u % v;
  }

  /** spModInv: zero when the inverse exists. */
  method SpModInv(u: Digit, v: Digit) returns (result: int, inv: Digit)
    ensures result == if Gcd(u, v) == 1 then 0 else 1
    ensures result == 1 ==> inv == 0
    ensures result == 0 && v < 2 ==> inv == 1
    ensures result == 0 && v >= 2 ==> 0 < inv < v && (inv * u) % v == 1
  {
    hide Gcd, Extended;
    Sizes();
    var u1: Digit, u3, v1: Digit, v3 := 1, u, 0, v;
    var bIterations := 1;
    ExtendedStart(u, v);
    while v3 != 0
      invariant bIterations == 1 || bIterations == -1
      invariant Extended(u1, u3, v1, v3, bIterations, u, v)
      decreases v3
    {
      var q: nat, t3: nat := QuotientRemainder(u3, v3);
      ExtendedStep(u1, u3, v1, v3, bIterations, u, v, q, t3);
      var w: Digit := q * v1;
      var t1: Digit := u1 + w;
      u1, v1 := v1, t1;
      u3, v3 := v3, t3;
      bIterations := -bIterations;
    }
    ExtendedEnd(u1, u3, v1, bIterations, u, v);
    inv := if bIterations < 0 then SubW(v, u1) else u1;
    if u3 != 1 {
      result := 1;
      inv := 0;
    } else {
      result := 0;
    }
  }

  /** spModExpK: right to left; an exponent of zero gives 1 whatever the modulus. */
  method SpModExpK(base: Digit, e: Digit, d: Digit) returns (exp: Digit)
    ensures exp == if e == 0 then 1 else Reduce(Pow(base, e), d)
    ensures d > 0 ==> (exp == Pow(base, e) % d <==> e > 0 || d > 1)
  {
    hide Reduce, Pow;
    RawPower(base, e, d);
    Sizes();
    var y: Digit, x: Digit, n: nat := 1, base, e;
    while n > 0
      invariant Reduce(y * Pow(x, n), d) == Reduce(Pow(base, e), d)
      invariant n == 0 && e > 0 ==> y == Reduce(y, d)
      invariant e == 0 ==> n == 0 && y == 1
      decreases n
    {
      ghost var y0, x0, n0 := y, x, n;
      if n % 2 == 1 {
        y := SpModMult(y, x, d);
        ReduceTwice(y0 * x, d);
      }
      n := n / 2;
      if n > 0 {
        x := SpModMult(x, x, d);
      }
      KnuthStep(y0, x0, n0, y, x, d);
    }
    PowOne(x);
    assert y * 1 == y;
    exp := y;
  }

  lemma KnuthStep(y: nat, x: nat, n: nat, y': nat, x': nat, d: nat)
    requires n > 0
    requires y' == if n % 2 == 1 then Reduce(y * x, d) else y
    requires n / 2 > 0 ==> x' == Reduce(x * x, d)
    ensures Reduce(y' * Pow(x', n / 2), d) == Reduce(y * Pow(x, n), d)
  {
    hide Reduce, Pow;
    var h := n / 2;
    HalfPowers(x, n);
    var p := Pow(x * x, h);
    PowOne(x');
    PowOne(x * x);
    if h > 0 { ReducePow(x', x * x, h, d); }
    assert Reduce(Pow(x', h), d) == Reduce(p, d);
    if n % 2 == 1 {
      ReduceTwice(y * x, d);
      ReduceMul(y', y * x, Pow(x', h), p, d);
      assert (y * x) * p == y * (p * x);
    } else {
      ReduceMul(y', y, Pow(x', h), p, d);
    }
  }

  lemma HalfPowers(x: nat, n: nat)
    ensures Pow(x, n) == if n % 2 == 1 then Pow(x * x, n / 2) * x else Pow(x * x, n / 2)
  {
    hide Pow;
    HalfPower(x, n / 2, n % 2);
  }

  lemma {:induction false} ReducePow(a: nat, b: nat, n: nat, d: nat)
    requires a == Reduce(b, d)
    ensures Reduce(Pow(a, n), d) == Reduce(Pow(b, n), d)
  {
    if n > 0 {
      ReducePow(a, b, n - 1, d);
      ReduceTwice(b, d);
      ReduceMul(a, b, Pow(a, n - 1), Pow(b, n - 1), d);
    }
  }

  /** spModExpB: left to right; for an exponent of zero or one the base is returned as it is. */
  method SpModExpB(x: Digit, e: Digit, m: Digit) returns (exp: Digit)
    ensures exp == if e <= 1 then x else Reduce(Pow(x, e), m)
    ensures m > 0 ==> (exp == Pow(x, e) % m <==> e > 1 || (e == 1 && x < m) || (e == 0 && x == 1 % m))
  {
    hide Reduce, Pow, Pow2, Power, Prefix, Bit;
    RawPower(x, e, m);
    var mask: int := BITS - 1;
    TopPrefix(e);
    while mask >= 0 && !Bit(e, mask)
      invariant -1 <= mask < BITS && Prefix(e, mask + 1) == 0
    {
      PrefixStep(e, mask + 1);
      mask := mask - 1;
    }
    if mask >= 0 { PrefixStep(e, mask + 1); }
    PrefixZero(e);
    FirstPower(x, m);
    var y := x;
    mask := mask - 1;
    while mask >= 0
      invariant -2 <= mask < BITS
      invariant if mask == -2 then e == 0 && y == x else Power(y, x, Prefix(e, mask + 1), m)
      decreases mask
    {
      ghost var y0 := y;
      PrefixStep(e, mask + 1);
      y := SpModMult(y, y, m);
      ghost var y1 := y;
      if Bit(e, mask) {
        y := SpModMult(y, x, m);
        assert y1 * x == x * y1;
      }
      PowerBit(y0, y1, y, x, Prefix(e, mask + 1), m, Bit(e, mask));
      mask := mask - 1;
    }
    if mask == -1 { PowerResult(y, x, e, m); }
    exp := y;
  }

  lemma TopPrefix(e: Digit)
    ensures Prefix(e, BITS) == 0
  {}

  /** The primes spIsPrime divides by first. */
  const SMALL_PRIMES: seq<nat> := [2, 3, 5, 7, 11, 13, 17, 19]

  /** Steps 4 to 7 of spIsPrime for one base: passes exactly when the strong condition holds. */
  method SpTestBase(b: Digit, m: Digit, a: nat, w: Digit) returns (failed: bool)
    requires 1 < b < w && m > 0
    ensures !failed <==> Passes(b, m, a, w)
  {
    hide Pow2, Squared, Passes, Reduce, Pow;
    var j := 0;
    var z := SpModExpB(b, m, w);
    SquaredStart(b, m, w);
    FirstReduced(b, m, w);
    failed := true;
    var more := true;
    while more
      invariant failed
      invariant forall i: nat | i < j :: Squared(b, m, i, w) != w - 1
      invariant j > 0 ==> Squared(b, m, 0, w) != 1
      invariant more ==> z == Squared(b, m, j, w) && (j == 0 || j < a)
      invariant !more ==> j >= a && j > 0
      decreases more, a - j
    {
      if (j == 0 && z == 1) || z == w - 1 {
        PassesBy(b, m, a, w, j);
        failed := false;
        return;
      }
      if j > 0 && z == 1 {
        FailsBy(b, m, a, w, j);
        return;
      }
      SquaredStep(b, m, j, w);
      j := j + 1;
      if j < a {
        ReduceIs(z as int * z as int, w);
        z := SpModMult(z, z, w);
      }
      more := j < a;
    }
    NeverPassed(b, m, a, w, j);
  }

  lemma FirstReduced(b: nat, m: nat, w: nat)
    requires 1 < b < w && m > 0
    ensures m <= 1 ==> b == Reduce(Pow(b, m), w)
  {
    PowOne(b);
    DivModUnique(b, w, 0, b);
  }

  /** No prime of the list divides `w`. */
  predicate NoSmallFactor(w: nat) {
    forall p | p in SMALL_PRIMES :: p > 0 && w % p != 0
  }

  /**
   * spIsPrime, with the bases drawn given; for `w == 1` the source does not return. A prime is accepted
   * exactly if it is not one of the small primes themselves, which the first step rejects.
   */
  method SpIsPrime(w: Digit, t: nat, draws: seq<Digit>) returns (isprime: int)
    requires w != 1 && (NoSmallFactor(w) ==> |draws| == t && forall i | 0 <= i < t :: 2 <= draws[i] <= w - 2)
    ensures isprime == 0 || isprime == 1
    ensures isprime == 1 <==> NoSmallFactor(w) && forall i | 0 <= i < t :: StrongPrime(draws[i], w)
    ensures Prime(w) ==> (isprime == 1 <==> w > 19)
  {
    hide Pow2, Passes, Squared, StrongPrime, Prime, OddPart;
    SmallPrimesRejected(w);
    for i := 0 to |SMALL_PRIMES|
      invariant forall k | 0 <= k < i :: w % SMALL_PRIMES[k] != 0
    {
      if w % SMALL_PRIMES[i] == 0 {
        assert SMALL_PRIMES[i] in SMALL_PRIMES;
        return 0;
      }
    }
    assert NoSmallFactor(w);
    var m, a := SplitDigit(w - 1);
    for i := 0 to t
      invariant forall h | 0 <= h < i :: StrongPrime(draws[h], w)
    {
      var failed := SpTestBase(draws[i], m, a, w);
      StrongPrimeIs(draws[i], m, a, w);
      PrimeIsStrong(draws[i], w);
      if failed {
        return 0;
      }
    }
    return 1;
  }

  lemma SmallPrimesRejected(w: nat)
    ensures 0 < w ==> NoSmallFactor(w) ==> w == 1 || w > 19
    ensures NoSmallFactor(w) ==> w != 0
    ensures Prime(w) ==> (NoSmallFactor(w) <==> w > 19)
  {
    assert 2 in SMALL_PRIMES && 3 in SMALL_PRIMES && 5 in SMALL_PRIMES && 7 in SMALL_PRIMES;
    assert 11 in SMALL_PRIMES && 13 in SMALL_PRIMES && 17 in SMALL_PRIMES && 19 in SMALL_PRIMES;
    if Prime(w) && w > 19 {
      forall p | p in SMALL_PRIMES ensures p > 0 && w % p != 0 { assert 1 < p < w && !Divides(p, w); }
    }
  }

  /** Step 2 of spIsPrime. */
  method SplitDigit(x: Digit) returns (m: Digit, a: nat)
    requires x > 0
    ensures OddPart(m, a, x) && m > 0
  {
    hide Pow2;
    m, a := x, 0;
    Pow2Add(0, 0);
    while m % 2 == 0
      invariant m > 0 && m * Pow2(a) == x
      decreases m
    {
      HalveStep(m, a, x);
      m, a := m / 2, a + 1;
    }
  }
}
