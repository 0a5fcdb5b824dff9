/** mpSqrt and mpCubeRoot: integer roots by Newton's iteration from above (Cohen, algorithm 1.7.1). */
module Roots {
  import opened Arith
  import opened Digits
  import opened Value
  import opened Linear
  import opened Shift
  import opened ShortDivide
  import opened Divide
  import opened ModExp
  import opened BinaryGcd

  /** `s` is the integer square root of `n`. */
  predicate IsSqrt(s: nat, n: nat) {
    s * s <= n < (s + 1) * (s + 1)
  }

  /** The quotient as mpDivide leaves it: 0 for a zero divisor. */
  function Quotient(n: nat, x: nat): nat {
    if x == 0 then 0 else DivNonNeg(n, x); n / x
  }

  lemma DivNonNeg(n: nat, x: nat)
    requires x > 0
    ensures n / x >= 0
  {}

  /**
   * Iterates stay at or above the root. When `n + 1` does not fit below `p` the first sum wraps
   * to zero and the iteration collapses.
   */
  ghost predicate SqrtIterate(x: nat, n: nat, p: nat) {
    if n + 1 < p then 1 <= x <= n && n < (x + 1) * (x + 1) else x == n || x == 0
  }

  lemma SqrtSum(x: nat, n: nat, q: nat)
    requires 1 <= x <= n && q == n / x
    ensures 1 <= q && x + q <= n + 1 && q * x <= n < (q + 1) * x
  {
    assert n == q * x + n % x;
    CancelLt(0, q, x);
    assert (x - 1) * (q - 1) == q * x - x - q + 1;
    MulLe(0, x - 1, q - 1);
  }

  lemma SqrtNewton(x: nat, n: nat, q: nat, y: nat)
    requires 1 <= x && n < (q + 1) * x && y == (x + q) / 2
    ensures n < (y + 1) * (y + 1)
  {
    var z := y + 1;
    MulLe(q + 1, 2 * z - x, x);
    assert (z - x) * (z - x) == z * z - (2 * z - x) * x;
    SquareNonNeg(z - x);
  }

  lemma SquareNonNeg(x: int)
    ensures x * x >= 0
  {}

  lemma SqrtStep(x: nat, n: nat, p: nat, q: nat, sum: nat, y: nat)
    requires n >= 2 && n < p && SqrtIterate(x, n, p) && q == Quotient(n, x)
    requires p > 0 && sum == (x + q) % p && y == sum / 2
    ensures y < x ==> SqrtIterate(y, n, p)
    ensures y >= x ==> if n + 1 < p then IsSqrt(x, n) else x == 0
  {
    if n + 1 < p {
      SqrtSum(x, n, q);
      DivModUnique(x + q, p, 0, x + q);
      SqrtNewton(x, n, q, y);
      if y >= x { MulLe(x, q, x); }
    } else if x == n {
      DivModUnique(n, n, 1, 0);
      DivModUnique(p, p, 1, 0);
    } else {
      DivModUnique(0, p, 0, 0);
    }
  }

  /** The division of a Newton step. */
  method NewtonQuotient(q: array<Digit>, r: array<Digit>, n: array<Digit>, x: array<Digit>, nd: nat)
    requires q != r && q != n && q != x && r != n && r != x && n != x
    requires nd <= q.Length && nd <= r.Length && nd <= n.Length && nd <= x.Length && 1 <= r.Length
    modifies q, r, x
    ensures x[..] == old(x[..]) && Num(q, nd) == Quotient(Num(n, nd), Num(x, nd))
  {
    hide Val, P, Quotient;
    var code := MpDivide(q, r, n, nd, x, nd);
    QuotientIs(Num(n, nd), Num(x, nd), Num(q, nd), Num(r, nd));
  }

  /** y = (x + n / x) / 2, the carry of the addition being dropped. */
  method SqrtNewtonStep(x: array<Digit>, y: array<Digit>, q: array<Digit>, r: array<Digit>, n: array<Digit>, nd: nat)
    requires q != r && q != n && q != x && r != n && r != x && n != x && y != x && y != q && y != n
    requires nd <= q.Length && nd <= r.Length && nd <= n.Length && nd <= x.Length && nd <= y.Length && 1 <= r.Length
    requires 1 <= nd && 2 <= Num(n, nd) && SqrtIterate(Num(x, nd), Num(n, nd), P(nd))
    modifies x, y, q, r
    ensures x[..] == old(x[..])
    ensures Num(y, nd) < Num(x, nd) ==> SqrtIterate(Num(y, nd), Num(n, nd), P(nd))
    ensures Num(y, nd) >= Num(x, nd) ==>
      if Num(n, nd) + 1 < P(nd) then IsSqrt(Num(x, nd), Num(n, nd)) else Num(x, nd) == 0
  {
    hide Val, P, SqrtIterate, Quotient, IsSqrt;
    ValBound(n[..], 0, nd);
    NewtonQuotient(q, r, n, x, nd);
    var carry := MpAdd(y, 0, x, 0, q, nd);
    ValBound(y[..], 0, nd);
    CarryDropped(Num(y, nd), carry, P(nd), Num(x, nd) + Num(q, nd));
    ghost var sum := Num(y, nd);
    Halve(y, nd);
    SqrtStep(Num(x, nd), Num(n, nd), P(nd), Num(q, nd), sum, Num(y, nd));
  }

  /**
   * mpSqrt: the integer square root exactly when `n + 1` fits in the digits; for the largest
   * number of its length the first addition wraps and the result is 0.
   */
  method MpSqrt(s: array<Digit>, n: array<Digit>, nd: nat)
    requires nd <= s.Length && nd <= n.Length
    modifies s
    ensures IsSqrt(Num(s, nd), old(Num(n, nd))) <==> old(Num(n, nd)) <= 1 || old(Num(n, nd)) + 1 < P(nd)
    ensures 1 < old(Num(n, nd)) && old(Num(n, nd)) + 1 == P(nd) ==> Num(s, nd) == 0
    ensures SameOutside(s[..], old(s[..]), 0, nd)
  {
    hide Val, P, SqrtIterate, Quotient;
    ghost var N := Num(n, nd);
    ValBound(n[..], 0, nd);
    Sizes();
    NoDigits(n[..], nd);
    var small := MpShortCmp(n, 1, nd);
    if small <= 0 {
      MpSetEqual(s, n, nd);
      return;
    }
    var x := MpAlloc(nd);
    var y := MpAlloc(nd);
    var q := MpAlloc(nd);
    var r := MpAlloc(nd);
    MpSetEqual(x, n, nd);
    SqrtStart(N, P(nd));
    while true
      modifies x, y, q, r
      invariant SqrtIterate(Num(x, nd), N, P(nd))
      decreases Num(x, nd)
    {
      SqrtNewtonStep(x, y, q, r, n, nd);
      var c := MpCompare(y, x, nd);
      if c >= 0 {
        break;
      }
      MpSetEqual(x, y, nd);
    }
    MpSetEqual(s, x, nd);
  }

  lemma SqrtStart(n: nat, p: nat)
    requires n >= 1
    ensures SqrtIterate(n, n, p)
  {
    MulLe(1, n + 1, n + 1);
  }

  lemma QuotientIs(n: nat, x: nat, q: nat, r: nat)
    requires if x == 0 then q == 0 else n == q * x + r && r < x
    ensures q == Quotient(n, x)
  {
    if x != 0 { RemainderUnique(n, q, x, r); }
  }

  function Cube(x: nat): nat {
    CubeNonNeg(x); x * x * x
  }

  lemma CubeNonNeg(x: nat)
    ensures 0 <= x * x <= x * x * x || x == 0
    ensures x * x * x >= 0
  {
    MulLe(0, x, x);
    if x > 0 { MulLe(1, x, x * x); }
  }

  /** `s` is the integer cube root of `n`. */
  predicate IsCubeRoot(s: nat, n: nat) {
    Cube(s) <= n < Cube(s + 1)
  }

  /** The second iterate when the first sum `2n` wraps at `p`. */
  function Wrapped(n: nat, p: nat): int {
    (2 * n - p) / 3
  }

  /** Whether the starting value leads to the root: no wrap, or the wrapped iterate is still at or above it. */
  predicate Converges(n: nat, p: nat) {
    2 * n < p || (Wrapped(n, p) >= 0 && n < Cube(Wrapped(n, p) + 1))
  }

  ghost predicate CubeIterate(x: nat, n: nat, p: nat) {
    if 2 * n < p then 1 <= x <= n && n < Cube(x + 1)
    else x == n || (if Converges(n, p) then 1 <= x && 3 * x <= n && n < Cube(x + 1) else x == Wrapped(n, p))
  }

  /** `q = (n / x) / x` brackets `n` by multiples of `x * x`. */
  lemma CubeQuotient(n: nat, x: nat, q: nat)
    requires x >= 1 && q == (n / x) / x
    ensures q * (x * x) <= n < (q + 1) * (x * x)
  {
    DivDiv(n, x, x);
    var d := x * x;
    assert n == (n / d) * d + n % d;
  }

  lemma CubeNewton(x: nat, n: nat, q: nat, y: nat)
    requires x >= 1 && n < (q + 1) * (x * x) && y == (2 * x + q) / 3
    ensures n < Cube(y + 1)
  {
    var z := y + 1;
    MulLe(0, x, x);
    MulLe(q + 1, 3 * z - 2 * x, x * x);
    CubeTangent(z, x);
  }

  /** The tangent to the cube at `x` lies below it: `z^3 - 3zx^2 + 2x^3 = (z-x)^2 (z+2x)`. */
  lemma CubeTangent(z: nat, x: nat)
    ensures (3 * z - 2 * x) * (x * x) <= z * z * z
  {
    var a := z - x;
    SquareNonNeg(a);
    MulLe(0, a * a, z + 2 * x);
    assert a * a == z * z - 2 * (z * x) + x * x;
    TangentIdentity(z, x);
  }

  lemma TangentIdentity(z: int, x: int)
    ensures (z * z - 2 * (z * x) + x * x) * (z + 2 * x) == z * z * z - (3 * z - 2 * x) * (x * x)
  {
    var zz, zx, xx := z * z, z * x, x * x;
    assert (zz - 2 * zx + xx) * (z + 2 * x)
      == zz * z + 2 * (zz * x) - 2 * (zx * z) - 4 * (zx * x) + xx * z + 2 * (xx * x);
    assert zz * x == zx * z && zx * x == z * xx;
    assert (3 * z - 2 * x) * xx == 3 * (z * xx) - 2 * (x * xx);
  }

  /** The sum of the two additions never exceeds `2n` from an iterate in range. */
  lemma CubeSum(x: nat, n: nat, q: nat)
    requires n >= 2 && 1 <= x <= n && q * (x * x) <= n
    ensures 2 * x + q <= 2 * n
  {
    if q >= 1 {
      MulLe(1, q, x * x);
      if x == n { MulLe(2, n, n); }
      assert (x - 1) * (q - 1) == x * q - x - q + 1;
      MulLe(0, x - 1, q - 1);
      MulLe(1, x, x * q);
      assert x * q * x == q * (x * x);
    }
  }

  /** Below a third of `n` it does not exceed `n` at all. */
  lemma CubeSumSmall(x: nat, n: nat, q: nat)
    requires 2 <= x && 3 * x <= n && q * (x * x) <= n
    ensures 2 * x + q <= n
  {
    MulLe(2, x, x);
    MulLe(4, x * x, q);
  }

  /** An iterate whose sum does not wrap steps down to a value at or above the root, or stops at the root. */
  lemma CubeDescend(x: nat, n: nat, p: nat, q: nat, sum: nat, y: nat)
    requires n >= 2 && 1 <= x && n < Cube(x + 1) && q == (n / x) / x
    requires 2 * x + q < p && sum == (2 * x + q) % p && y == sum / 3
    ensures 1 <= y && n < Cube(y + 1) && (y >= x ==> IsCubeRoot(x, n))
  {
    CubeQuotient(n, x, q);
    DivModUnique(2 * x + q, p, 0, 2 * x + q);
    CubeNewton(x, n, q, y);
    if y >= x { MulLe(x, q, x * x); }
  }

  /** A wrapped iterate below the root stops the loop at once. */
  lemma CubeStall(x: nat, n: nat, p: nat, q: nat, sum: nat, y: nat)
    requires n >= 2 && n < p && p >= 65536 && 3 * x <= 2 * n - p < 3 * x + 3 && n >= Cube(x + 1)
    requires q == Quotient(Quotient(n, x), x) && sum == (2 * x + q) % p && y == sum / 3
    ensures y >= x && !IsCubeRoot(x, n)
  {
    hide Cube;
    if x == 0 {
      DivModUnique(0, p, 0, 0);
    } else {
      CubeQuotient(n, x, q);
      StallQuotient(x, n, q);
      StallFits(x, n, p, q);
      DivModUnique(2 * x + q, p, 0, 2 * x + q);
    }
  }

  lemma StallQuotient(x: nat, n: nat, q: nat)
    requires x >= 1 && n >= Cube(x + 1) && n < (q + 1) * (x * x)
    ensures q >= x + 3
  {
    assert Cube(x + 1) == (x + 3) * (x * x) + 3 * x + 1;
    CancelLt(x + 3, q + 1, x * x);
  }

  lemma StallFits(x: nat, n: nat, p: nat, q: nat)
    requires x >= 1 && n < p && p >= 65536 && 3 * x <= 2 * n - p < 3 * x + 3 && q * (x * x) <= n
    ensures 2 * x + q < p
  {
    if x > 1 { CubeSumSmall(x, n, q); }
  }

  lemma CubeStep(x: nat, n: nat, p: nat, q: nat, sum: nat, y: nat)
    requires n >= 2 && n < p && p >= 65536 && CubeIterate(x, n, p)
    requires q == Quotient(Quotient(n, x), x) && sum == (2 * x + q) % p && y == sum / 3
    ensures y < x ==> CubeIterate(y, n, p)
    ensures y >= x ==> (IsCubeRoot(x, n) <==> Converges(n, p)) && (!Converges(n, p) ==> x == Wrapped(n, p))
  {
    hide Cube, IsCubeRoot;
    if 2 * n < p {
      CubeQuotient(n, x, q);
      CubeSum(x, n, q);
      CubeDescend(x, n, p, q, sum, y);
    } else if x == n {
      DivModUnique(n, n, 1, 0);
      DivModUnique(1, n, 0, 1);
      DivModUnique(2 * n, p, 1, 2 * n - p);
      CubeOfTwo(y, n);
    } else if Converges(n, p) {
      CubeOfTwo(x - 1, n);
      CubeQuotient(n, x, q);
      CubeSumSmall(x, n, q);
      CubeDescend(x, n, p, q, sum, y);
    } else {
      CubeStall(x, n, p, q, sum, y);
    }
  }

  lemma CubeOfTwo(y: nat, n: nat)
    ensures n >= 2 && n < Cube(y + 1) ==> y >= 1
    ensures n >= 8 && n < Cube(y + 2) ==> y >= 1
  {}

  /** An input where mpCubeRoot fails, at every length: half the range makes the first iterate 0, which is returned. */
  lemma HalfRangeFails(nd: nat)
    requires nd >= 1
    ensures var n := P(nd) / 2;
      2 * n == P(nd) && n > 1 && !Converges(n, P(nd)) && Wrapped(n, P(nd)) == 0 && !IsCubeRoot(0, n)
  {
    hide P, Pow;
    Sizes();
    BaseIsEven();
    PStep(nd - 1);
    var h := Pow(2, BITS - 1) * P(nd - 1);
    assert P(nd) == 2 * h;
    MulLe(2, Pow(2, BITS - 1), P(nd - 1));
  }

  lemma CubeStart(n: nat, p: nat)
    requires n >= 1
    ensures CubeIterate(n, n, p)
  {
    MulLe(1, n + 1, n + 1);
    MulLe(n + 1, (n + 1) * (n + 1), n + 1);
  }

  lemma SmallCube(n: nat)
    requires n <= 1
    ensures IsCubeRoot(n, n)
  {}

  lemma ThreeTermSum(q: nat, x: nat, y: nat, p: nat, s: nat)
    requires p > 0 && y == (q + x) % p && s == (y + x) % p
    ensures s == (2 * x + q) % p
  {
    ModAdd(q + x, x, p);
  }

  lemma LargeRange(n: nat)
    ensures n >= 1 ==> P(n) >= 65536
  {
    Sizes();
    if n >= 1 {
      PStep(n - 1);
      MulLe(1, P(n - 1), BASE);
    }
  }

  /** One Newton step of the cube root: `y = (2x + (n/x)/x) / 3` in `nd` digits. */
  method CubeNewtonStep(y: array<Digit>, q: array<Digit>, r: array<Digit>, n: array<Digit>, x: array<Digit>, nd: nat)
    requires 1 <= nd <= y.Length && nd <= q.Length && nd <= r.Length && nd <= n.Length && nd <= x.Length
    requires y != q && y != r && y != n && y != x && q != r && q != n && q != x && r != n && r != x && n != x
    modifies y, q, r, x
    ensures x[..] == old(x[..])
    ensures Num(y, nd) == ((2 * Num(x, nd) + Quotient(Quotient(Num(n, nd), Num(x, nd)), Num(x, nd))) % P(nd)) / 3
  {
    hide Val, P, Quotient;
    ghost var N, X := Num(n, nd), Num(x, nd);
    Sizes();
    var code := MpDivide(y, r, n, nd, x, nd);
    QuotientIs(N, X, Num(y, nd), Num(r, nd));
    ghost var z := Num(y, nd);
    code := MpDivide(q, r, y, nd, x, nd);
    QuotientIs(z, X, Num(q, nd), Num(r, nd));
    ghost var q0 := Num(q, nd);
    var carry := MpAdd(y, 0, q, 0, x, nd);
    ValBound(y[..], 0, nd);
    CarryDropped(Num(y, nd), carry, P(nd), q0 + X);
    ghost var y0 := Num(y, nd);
    carry := MpAdd(q, 0, y, 0, x, nd);
    ValBound(q[..], 0, nd);
    CarryDropped(Num(q, nd), carry, P(nd), y0 + X);
    ThreeTermSum(q0, X, y0, P(nd), Num(q, nd));
    var rem := MpShortDiv(y, q, 3, nd);
    DivModUnique(Num(q, nd), 3, Num(y, nd), rem);
  }

  /**
   * mpCubeRoot: the integer cube root exactly when the first sum `2n` fits, or the wrapped value of the
   * first iterate is still at or above the root; otherwise that wrapped value is the result.
   */
  method MpCubeRoot(s: array<Digit>, n: array<Digit>, nd: nat)
    requires nd <= s.Length && nd <= n.Length
    modifies s
    ensures IsCubeRoot(Num(s, nd), old(Num(n, nd))) <==> old(Num(n, nd)) <= 1 || Converges(old(Num(n, nd)), P(nd))
    ensures 1 < old(Num(n, nd)) && !Converges(old(Num(n, nd)), P(nd)) ==> Num(s, nd) == Wrapped(old(Num(n, nd)), P(nd))
    ensures SameOutside(s[..], old(s[..]), 0, nd)
  {
    hide Val, P, CubeIterate, Quotient, IsCubeRoot, Converges;
    ghost var N := Num(n, nd);
    ValBound(n[..], 0, nd);
    Sizes();
    NoDigits(n[..], nd);
    var small := MpShortCmp(n, 1, nd);
    if small <= 0 {
      SmallCube(N);
      MpSetEqual(s, n, nd);
      return;
    }
    LargeRange(nd);
    var x := MpAlloc(nd);
    var y := MpAlloc(nd);
    var q := MpAlloc(nd);
    var r := MpAlloc(nd);
    MpSetEqual(x, n, nd);
    CubeStart(N, P(nd));
    while true
      modifies x, y, q, r
      invariant CubeIterate(Num(x, nd), N, P(nd))
      decreases Num(x, nd)
    {
      ghost var x0 := Num(x, nd);
      CubeNewtonStep(y, q, r, n, x, nd);
      CubeStep(x0, N, P(nd), Quotient(Quotient(N, x0), x0), (2 * x0 + Quotient(Quotient(N, x0), x0)) % P(nd),
        Num(y, nd));
      var c := MpCompare(y, x, nd);
      if c >= 0 {
        break;
      }
      MpSetEqual(x, y, nd);
    }
    MpSetEqual(s, x, nd);
  }
}
