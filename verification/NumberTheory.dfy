/** Divisibility, greatest common divisors, primes and Fermat's little theorem. */
module NumberTheory {
  import opened Arith

  predicate Divides(d: nat, n: int)
  {
    d > 0 && n % d == 0
  }

  lemma DividesIntro(d: nat, k: int)
    requires d > 0
    ensures Divides(d, d * k)
  {
    DivModUnique(d * k, d, k, 0);
  }

  lemma DividesLinear(d: nat, m: int, n: int, x: int, y: int)
    requires Divides(d, m) && Divides(d, n)
    ensures Divides(d, m * x + n * y)
  {
    var a, b := m / d, n / d;
    assert m == d * a && n == d * b;
    assert m * x + n * y == d * (a * x + b * y) by {
      assert d * a * x == d * (a * x) && d * b * y == d * (b * y);
    }
    DividesIntro(d, a * x + b * y);
  }

  lemma DividesMultiple(d: nat, n: int)
    requires Divides(d, n)
    ensures n == d * (n / d) && n == (n / d) * d
  {}

  lemma DividesLe(d: nat, n: nat)
    requires Divides(d, n) && n > 0
    ensures d <= n
  {
    if d > n { DivModUnique(n, d, 0, n); }
  }

  lemma DividesEqual(c: nat, d: nat)
    requires Divides(c, d) && Divides(d, c)
    ensures c == d
  {
    DividesLe(c, d);
    DividesLe(d, c);
  }

  /** Congruence modulo `m`. */
  predicate Congruent(x: int, y: int, m: nat)
    requires m > 0
  {
    x % m == y % m
  }

  lemma CongruentIff(x: int, y: int, m: nat)
    requires m > 0
    ensures Congruent(x, y, m) <==> Divides(m, x - y)
  {
    if Congruent(x, y, m) {
      assert x - y == m * (x / m - y / m);
      DividesIntro(m, x / m - y / m);
    }
    if Divides(m, x - y) {
      assert x == ((x - y) / m) * m + y;
      ModOfMultiple((x - y) / m, m, y);
    }
  }

  lemma CongruentMul(a: int, b: int, c: int, d: int, m: nat)
    requires m > 0 && Congruent(a, b, m) && Congruent(c, d, m)
    ensures Congruent(a * c, b * d, m)
  {
    ModMul(a, c, m);
    ModMul(b, c, m);
    ModMul(c, b, m);
    ModMul(d, b, m);
    assert b * c == c * b && b * d == d * b;
  }

  /** Euclid's algorithm as the definition of the greatest common divisor; `Gcd(0, 0) == 0`. */
  function Gcd(a: nat, b: nat): nat
    decreases b
  {
    if b == 0 then a else Gcd(b, a % b)
  }

  lemma {:induction false} GcdDivides(a: nat, b: nat)
    requires a > 0 || b > 0
    ensures Gcd(a, b) > 0 && Divides(Gcd(a, b), a) && Divides(Gcd(a, b), b)
    decreases b
  {
    if b == 0 {
      DividesIntro(a, 1);
      DividesIntro(a, 0);
    } else {
      GcdDivides(b, a % b);
      DividesLinear(Gcd(a, b), b, a % b, a / b, 1);
      assert a == b * (a / b) + a % b;
    }
  }

  lemma {:induction false} GcdGreatest(d: nat, a: nat, b: nat)
    requires Divides(d, a) && Divides(d, b)
    ensures Divides(d, Gcd(a, b))
    decreases b
  {
    if b != 0 {
      DividesLinear(d, a, b, 1, -(a / b));
      assert a % b == a * 1 + b * (-(a / b));
      GcdGreatest(d, b, a % b);
    }
  }

  /** The greatest common divisor is the only common divisor that every common divisor divides. */
  lemma GcdSame(a: nat, b: nat, c: nat, d: nat)
    requires (a > 0 || b > 0) && (c > 0 || d > 0)
    requires Divides(Gcd(a, b), c) && Divides(Gcd(a, b), d)
    requires Divides(Gcd(c, d), a) && Divides(Gcd(c, d), b)
    ensures Gcd(a, b) == Gcd(c, d)
  {
    GcdGreatest(Gcd(a, b), c, d);
    GcdGreatest(Gcd(c, d), a, b);
    DividesEqual(Gcd(a, b), Gcd(c, d));
  }

  lemma GcdSymmetric(a: nat, b: nat)
    ensures Gcd(a, b) == Gcd(b, a)
  {
    if a > 0 || b > 0 {
      GcdDivides(a, b);
      GcdDivides(b, a);
      GcdSame(a, b, b, a);
    }
  }

  lemma GcdSubtract(a: nat, b: nat)
    requires a >= b
    ensures Gcd(a, b) == Gcd(a - b, b)
  {
    if a > 0 || b > 0 {
      GcdDivides(a, b);
      GcdDivides(a - b, b);
      DividesLinear(Gcd(a, b), a, b, 1, -1);
      DividesLinear(Gcd(a - b, b), a - b, b, 1, 1);
      GcdSame(a, b, a - b, b);
    }
  }

  lemma {:induction false} GcdDouble(a: nat, b: nat)
    ensures Gcd(2 * a, 2 * b) == 2 * Gcd(a, b)
    decreases b
  {
    if b != 0 {
      assert 2 * a == (a / b) * (2 * b) + 2 * (a % b);
      DivModUnique(2 * a, 2 * b, a / b, 2 * (a % b));
      GcdDouble(b, a % b);
    }
  }

  /** Bezout coefficients. */
  lemma {:induction false} Bezout(a: nat, b: nat) returns (x: int, y: int)
    ensures a * x + b * y == Gcd(a, b)
    decreases b
  {
    if b == 0 {
      x, y := 1, 0;
    } else {
      var s, t := Bezout(b, a % b);
      x, y := t, s - (a / b) * t;
      BezoutStep(a, b, a / b, a % b, s, t);
    }
  }

  lemma BezoutStep(a: int, b: int, q: int, r: int, s: int, t: int)
    requires a == b * q + r
    ensures a * t + b * (s - q * t) == b * s + r * t
  {
    Spread(b * q, r, t);
    Assoc(b, q, t);
    assert b * (s - q * t) == b * s - b * (q * t);
  }

  /** Euclid's lemma. */
  lemma CoprimeDivides(d: nat, a: nat, b: int)
    requires d > 0 && Gcd(a, d) == 1 && Divides(d, a * b)
    ensures Divides(d, b)
  {
    var x, y := Bezout(a, d);
    DividesIntro(d, 1);
    DividesLinear(d, a * b, d, x, y * b);
    assert (a * x + d * y) * b == a * b * x + d * (y * b);
  }

  /** An odd number shares no factor of two. */
  lemma GcdHalve(a: nat, b: nat)
    requires b % 2 == 1
    ensures Gcd(2 * a, b) == Gcd(a, b)
  {
    GcdDivides(2 * a, b);
    GcdDivides(a, b);
    var g, h := Gcd(2 * a, b), Gcd(a, b);
    DividesLinear(h, a, 0, 2, 0);
    OddDivisor(g, b);
    OddCoprimeTwo(g);
    CoprimeDivides(g, 2, a);
    GcdSame(2 * a, b, a, b);
  }

  lemma OddDivisor(g: nat, b: nat)
    requires Divides(g, b) && b % 2 == 1
    ensures g % 2 == 1
  {
    DividesMultiple(g, b);
    EvenProduct(g, b / g);
  }

  lemma EvenProduct(g: int, k: int)
    ensures g % 2 == 0 ==> (g * k) % 2 == 0
  {
    var h := g / 2;
    if g % 2 == 0 {
      Assoc(2, h, k);
      DivModUnique(g * k, 2, h * k, 0);
    }
  }

  lemma OddCoprimeTwo(g: nat)
    requires g % 2 == 1
    ensures Gcd(2, g) == 1
  {
    GcdSymmetric(2, g);
    assert Gcd(g, 2) == Gcd(2, 1) == Gcd(1, 0);
  }

  ghost predicate Prime(p: nat) {
    p >= 2 && forall d: nat | 1 < d < p :: !Divides(d, p)
  }

  lemma PrimeCoprime(p: nat, a: nat)
    requires Prime(p) && !Divides(p, a)
    ensures Gcd(a, p) == 1
  {
    GcdDivides(a, p);
    DividesLe(Gcd(a, p), p);
  }

  lemma PrimeDivides(p: nat, a: nat, b: int)
    requires Prime(p) && Divides(p, a * b)
    ensures Divides(p, a) || Divides(p, b)
  {
    if !Divides(p, a) {
      PrimeCoprime(p, a);
      CoprimeDivides(p, a, b);
    }
  }

  /** A square root of one modulo a prime is plus or minus one. */
  lemma RootOfOne(p: nat, z: nat)
    requires Prime(p) && z < p && Congruent(z * z, 1, p)
    ensures z == 1 || z == p - 1
  {
    CongruentIff(z * z, 1, p);
    assert z * z - 1 == (z + 1) * (z - 1);
    PrimeDivides(p, z + 1, z - 1);
    if Divides(p, z + 1) {
      DividesLe(p, z + 1);
    } else if z > 1 {
      DividesLe(p, z - 1);
    }
    if z == 0 { CongruentIff(0, 1, p); DivModUnique(-1, p, -1, p - 1); }
  }

  function Product(s: seq<nat>): nat {
    if s == [] then 1 else s[0] * Product(s[1..])
  }

  lemma RemoveAt(t: seq<nat>, k: nat)
    requires k < |t|
    ensures multiset(t) == multiset(t[..k] + t[k + 1..]) + multiset{t[k]}
  {
    assert t == t[..k] + [t[k]] + t[k + 1..];
  }

  lemma {:induction false} ProductPermuted(s: seq<nat>, t: seq<nat>)
    requires multiset(s) == multiset(t)
    ensures Product(s) == Product(t)
    decreases |s|
  {
    if s == [] {
      assert |t| == |multiset(t)| == 0;
    } else {
      assert s[0] in multiset(t);
      var k :| 0 <= k < |t| && t[k] == s[0];
      var rest := t[..k] + t[k + 1..];
      RemoveAt(s, 0);
      RemoveAt(t, k);
      assert s[..0] + s[0 + 1..] == s[1..];
      assert multiset(s[1..]) == multiset(s) - multiset{s[0]};
      assert multiset(rest) == multiset(t) - multiset{s[0]};
      ProductPermuted(s[1..], rest);
      ProductPull(t, k);
    }
  }

  lemma {:induction false} ProductPull(t: seq<nat>, k: nat)
    requires k < |t|
    ensures Product(t) == t[k] * Product(t[..k] + t[k + 1..])
  {
    var rest := t[..k] + t[k + 1..];
    if k == 0 {
      assert rest == t[1..];
    } else {
      ProductPull(t[1..], k - 1);
      assert t[1..][..k - 1] + t[1..][k..] == rest[1..];
    }
  }

  /** 1, 2, ..., n. */
  function Upto(n: nat): (s: seq<nat>)
    ensures |s| == n && forall i | 0 <= i < n :: s[i] == i + 1
  {
    if n == 0 then [] else Upto(n - 1) + [n]
  }

  ghost predicate DistinctUpto(s: seq<nat>, n: nat) {
    && (forall i | 0 <= i < |s| :: 1 <= s[i] <= n)
    && (forall i, j | 0 <= i < j < |s| :: s[i] != s[j])
  }

  lemma FirstInRange(s: seq<nat>, n: nat)
    requires DistinctUpto(s, n) && |s| > 0
    ensures n >= 1
  {
    assert 1 <= s[0] <= n;
  }

  lemma WithoutTop(s: seq<nat>, n: nat, k: nat)
    requires DistinctUpto(s, n) && k < |s| && s[k] == n
    ensures DistinctUpto(s[..k] + s[k + 1..], n - 1)
  {
    var t := s[..k] + s[k + 1..];
    assert forall i | 0 <= i < |t| :: t[i] == s[if i < k then i else i + 1];
  }

  lemma BelowTop(s: seq<nat>, n: nat)
    requires DistinctUpto(s, n) && n > 0 && n !in s
    ensures DistinctUpto(s, n - 1)
  {}

  lemma PutBack(s: seq<nat>, n: nat, k: nat)
    requires n > 0 && k < |s| && s[k] == n && multiset(s[..k] + s[k + 1..]) == multiset(Upto(n - 1))
    ensures multiset(s) == multiset(Upto(n))
  {
    RemoveAt(s, k);
    assert Upto(n) == Upto(n - 1) + [n];
  }

  /** Pigeonhole: `n` different numbers from 1 to `n` are all of them. */
  lemma {:induction false} Pigeonhole(s: seq<nat>, n: nat)
    requires DistinctUpto(s, n) && |s| >= n
    ensures |s| == n && multiset(s) == multiset(Upto(n))
    decreases n
  {
    hide DistinctUpto, Upto;
    if n == 0 {
      if |s| > 0 { FirstInRange(s, n); }
      assert s == [] && Upto(0) == [];
    } else if n in s {
      var k :| 0 <= k < |s| && s[k] == n;
      WithoutTop(s, n, k);
      Pigeonhole(s[..k] + s[k + 1..], n - 1);
      PutBack(s, n, k);
    } else {
      BelowTop(s, n);
      Pigeonhole(s, n - 1);
    }
  }

  /** The residues of a, 2a, ..., na modulo p. */
  function Multiples(a: nat, p: nat, n: nat): (s: seq<nat>)
    requires p > 0
    ensures |s| == n && forall i | 0 <= i < n :: s[i] == (a * (i + 1)) % p
  {
    if n == 0 then [] else Multiples(a, p, n - 1) + [(a * n) % p]
  }

  lemma {:induction false} ProductAppend(s: seq<nat>, x: nat)
    ensures Product(s + [x]) == Product(s) * x
  {
    if s == [] {
      assert Product([x]) == x * Product([]);
    } else {
      ProductAppend(s[1..], x);
      assert (s + [x])[1..] == s[1..] + [x];
    }
  }

  lemma {:induction false} MultiplesProduct(a: nat, p: nat, n: nat)
    requires p > 0
    ensures Congruent(Product(Multiples(a, p, n)), Pow(a, n) * Product(Upto(n)), p)
  {
    if n != 0 {
      MultiplesProduct(a, p, n - 1);
      ProductAppend(Multiples(a, p, n - 1), (a * n) % p);
      ProductAppend(Upto(n - 1), n);
      MultiplesStep(Product(Multiples(a, p, n - 1)), Pow(a, n - 1), Product(Upto(n - 1)), a, n, p);
    }
  }

  lemma MultiplesStep(m: int, x: int, f: int, a: int, n: int, p: nat)
    requires p > 0 && Congruent(m, x * f, p)
    ensures Congruent(m * ((a * n) % p), a * x * (f * n), p)
  {
    ModOfMultiple(0, p, (a * n) % p);
    DivModUnique((a * n) % p, p, 0, (a * n) % p);
    CongruentMul(m, x * f, (a * n) % p, a * n, p);
    Regroup(x, f, a, n);
  }

  lemma Regroup(x: int, f: int, a: int, n: int)
    ensures x * f * (a * n) == a * x * (f * n)
  {
    assert x * f * (a * n) == x * a * (f * n);
  }

  lemma {:induction false} FactorialCoprime(p: nat, n: nat)
    requires Prime(p) && n < p
    ensures !Divides(p, Product(Upto(n)))
  {
    if n == 0 {
      DivModUnique(1, p, 0, 1);
    } else {
      FactorialCoprime(p, n - 1);
      ProductAppend(Upto(n - 1), n);
      if Divides(p, Product(Upto(n))) {
        PrimeDivides(p, Product(Upto(n - 1)), n);
        DividesLe(p, n);
      }
    }
  }

  lemma MultiplesDistinct(a: nat, p: nat)
    requires Prime(p) && !Divides(p, a)
    ensures DistinctUpto(Multiples(a, p, p - 1), p - 1)
  {
    var s := Multiples(a, p, p - 1);
    forall i | 0 <= i < |s|
      ensures 1 <= s[i] <= p - 1
    {
      if s[i] == 0 {
        PrimeDivides(p, a, i + 1);
        DividesLe(p, i + 1);
      }
    }
    forall i, j | 0 <= i < j < |s|
      ensures s[i] != s[j]
    {
      if s[i] == s[j] {
        CongruentIff(a * (j + 1), a * (i + 1), p);
        assert a * (j + 1) - a * (i + 1) == a * (j - i);
        PrimeDivides(p, a, j - i);
        DividesLe(p, j - i);
      }
    }
  }

  /** Fermat's little theorem. */
  lemma Fermat(p: nat, a: nat)
    requires Prime(p) && !Divides(p, a)
    ensures Congruent(Pow(a, p - 1), 1, p)
  {
    var s, f := Multiples(a, p, p - 1), Product(Upto(p - 1));
    MultiplesDistinct(a, p);
    Pigeonhole(s, p - 1);
    ProductPermuted(s, Upto(p - 1));
    MultiplesProduct(a, p, p - 1);
    CongruentIff(f, Pow(a, p - 1) * f, p);
    assert f - Pow(a, p - 1) * f == f * (1 - Pow(a, p - 1));
    FactorialCoprime(p, p - 1);
    PrimeDivides(p, f, 1 - Pow(a, p - 1));
    CongruentIff(1, Pow(a, p - 1), p);
  }
}
