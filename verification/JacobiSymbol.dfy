/** The Jacobi symbol: what the recursion of mpJacobi computes is the product of Legendre symbols. */
module JacobiSymbol {
  import opened Arith
  import opened NumberTheory
  import opened QuadraticReciprocity
  import opened QuadraticResidues

  /** The symbol of 2: 1 when `n` is 1 or 7 modulo 8. */
  function TwoSign(n: nat): int {
    if n % 8 == 1 || n % 8 == 7 then 1 else -1
  }

  /** The sign of quadratic reciprocity for odd `a` and `n`. */
  function FlipSign(a: nat, n: nat): int {
    if a % 4 == 3 && n % 4 == 3 then -1 else 1
  }

  /** The Jacobi symbol computed one factor of two or one reciprocity at a time. */
  function Symbol(a: nat, n: nat): int
    decreases a
  {
    if a == 0 then 0
    else if a == 1 then 1
    else if a % 2 == 0 then TwoSign(n) * Symbol(a / 2, n)
    else FlipSign(a, n) * Symbol(n % a, a)
  }

  /** The symbol is a sign, and vanishes exactly when the numbers share a factor. */
  lemma {:induction false} SymbolRange(a: nat, n: nat)
    requires n >= 3 && n % 2 == 1
    ensures -1 <= Symbol(a, n) <= 1
    ensures Symbol(a, n) == 0 <==> Gcd(a, n) > 1
    decreases a
  {
    hide Gcd;
    GcdBaseCases(n);
    GcdPositive(a, n);
    if a > 1 && a % 2 == 0 {
      SymbolRange(a / 2, n);
      GcdHalve(a / 2, n);
    } else if a > 1 {
      SymbolRange(n % a, a);
      ReducePair(n, a);
    }
  }

  /** One reduction of the pair preserves whether it has a common factor. */
  lemma ReducePair(n: nat, a1: nat)
    requires a1 > 0
    ensures Gcd(n % a1, a1) == Gcd(a1, n)
  {
    GcdSymmetric(a1, n);
    GcdSymmetric(n % a1, a1);
  }

  lemma GcdBaseCases(n: nat)
    requires n >= 3
    ensures Gcd(0, n) == n && Gcd(1, n) == 1
  {
    GcdSymmetric(0, n);
    GcdSymmetric(1, n);
    DivModUnique(n, 1, n, 0);
    assert Gcd(n, 1) == Gcd(1, n % 1) == Gcd(1, 0);
  }

  lemma GcdPositive(a: nat, b: nat)
    requires b > 0
    ensures Gcd(a, b) >= 1
  {
    GcdDivides(a, b);
  }

  /** Without a common factor the recursion computes the sign of Gauss's lemma. */
  lemma {:induction false} SymbolIsSign(a: nat, n: nat)
    requires n >= 3 && n % 2 == 1 && Gcd(a, n) == 1
    ensures Symbol(a, n) == Sign(a, n)
    decreases a
  {
    hide Gcd, Prod, Sign;
    GcdBaseCases(n);
    if a == 1 {
      SignOfOne(n);
    } else if a % 2 == 0 {
      GcdHalve(a / 2, n);
      SymbolIsSign(a / 2, n);
      SignMultiplies(2, a / 2, n);
      SignOfTwo(n);
    } else {
      ReducePair(n, a);
      SymbolIsSign(n % a, a);
      SamePeriod(n % a, n, a);
      Flipped(a, n);
    }
  }

  lemma SignOfOne(n: nat)
    requires n > 0
    ensures Sign(1, n) == 1
  {
    SignOne(n, n / 2);
  }

  lemma SamePeriod(a: nat, b: nat, n: nat)
    requires n > 0 && (a % n == b % n || a == b % n)
    ensures Sign(a, n) == Sign(b, n)
  {
    if a == b % n { DivModUnique(a, n, 0, a); }
    SignPeriodic(a, b, n, n / 2);
  }

  lemma Flipped(a: nat, n: nat)
    requires a % 2 == 1 && n % 2 == 1 && Gcd(a, n) == 1
    ensures Sign(a, n) == FlipSign(a, n) * Sign(n, a)
  {
    hide Gcd, Prod;
    SignIs(n, a, a / 2);
    SignIs(a, n, n / 2);
    Reciprocity(a, n);
  }

  lemma SymbolZero(a: nat, n: nat)
    requires n >= 3 && n % 2 == 1
    ensures Symbol(a, n) == if Gcd(a, n) == 1 then Sign(a, n) else 0
  {
    hide Gcd, Symbol, Sign;
    GcdPositive(a, n);
    SymbolRange(a, n);
    if Gcd(a, n) == 1 { SymbolIsSign(a, n); }
  }

  /** The symbol depends on the residue only. */
  lemma SymbolPeriodic(a: nat, b: nat, n: nat)
    requires n >= 3 && n % 2 == 1 && a % n == b % n
    ensures Symbol(a, n) == Symbol(b, n)
  {
    hide Symbol, Sign;
    SymbolZero(a, n);
    SymbolZero(b, n);
    SamePeriod(a, b, n);
  }

  lemma CoprimeProduct(a: nat, b: nat, n: nat)
    requires n > 0
    ensures Gcd(a * b, n) == 1 <==> Gcd(a, n) == 1 && Gcd(b, n) == 1
  {
    GcdDivides(a * b, n);
    FactorCoprime(a, b, n);
    Assoc(a, b, 1);
    FactorCoprime(b, a, n);
    if Gcd(a, n) == 1 && Gcd(b, n) == 1 {
      var g := Gcd(a * b, n);
      StillCoprime(a, n, g);
      CoprimeDivides(g, a, b);
      GcdGreatest(g, b, n);
      DividesLe(g, 1);
    }
  }

  lemma FactorCoprime(a: nat, b: nat, n: nat)
    requires n > 0
    ensures Gcd(a * b, n) == 1 ==> Gcd(a, n) == 1
  {
    var g := Gcd(a, n);
    GcdDivides(a, n);
    DividesLinear(g, a, a, b, 0);
    GcdGreatest(g, a * b, n);
    if Gcd(a * b, n) == 1 { DividesLe(g, 1); }
  }

  lemma StillCoprime(a: nat, n: nat, g: nat)
    requires n > 0 && Gcd(a, n) == 1 && Divides(g, n)
    ensures Gcd(a, g) == 1
  {
    var d := Gcd(a, g);
    GcdDivides(a, g);
    DividesMultiple(g, n);
    DividesLinear(d, g, g, n / g, 0);
    GcdGreatest(d, a, n);
    DividesLe(d, 1);
  }

  /** The symbol is multiplicative in `a`. */
  lemma SymbolMultiplies(a: nat, b: nat, n: nat)
    requires n >= 3 && n % 2 == 1
    ensures Symbol(a * b, n) == Symbol(a, n) * Symbol(b, n)
  {
    hide Gcd, Symbol, Sign;
    SymbolZero(a, n);
    SymbolZero(b, n);
    SymbolZero(a * b, n);
    CoprimeProduct(a, b, n);
    if Gcd(a * b, n) == 1 { SignMultiplies(a, b, n); }
  }

  /** The symbol is multiplicative in `n`. */
  lemma SymbolOfProduct(a: nat, m: nat, n: nat, k: nat)
    requires m >= 3 && m % 2 == 1 && n >= 3 && n % 2 == 1 && k == m * n
    ensures Symbol(a, k) == Symbol(a, m) * Symbol(a, n)
  {
    hide Gcd, Symbol, Sign;
    OddProduct(m, n);
    SymbolZero(a, m);
    SymbolZero(a, n);
    SymbolZero(a, k);
    CoprimeModulus(a, m, n);
    if Gcd(a, m * n) == 1 {
      if a == 0 { GcdBaseCases(m * n); }
      SignOfModulus(a, m, n);
    }
  }

  lemma OddProduct(m: nat, n: nat)
    requires m >= 3 && m % 2 == 1 && n >= 3 && n % 2 == 1
    ensures m * n >= 3 && (m * n) % 2 == 1
  {
    MulLe(3, n, m);
    OddTimes(m, n);
  }

  lemma CoprimeModulus(a: nat, m: nat, n: nat)
    requires m >= 3 && n >= 3 && m * n >= 3
    ensures Gcd(a, m * n) == 1 <==> Gcd(a, m) == 1 && Gcd(a, n) == 1
  {
    hide Gcd;
    if a == 0 {
      GcdBaseCases(m);
      GcdBaseCases(m * n);
    } else {
      GcdSymmetric(a, m);
      GcdSymmetric(a, n);
      GcdSymmetric(a, m * n);
      CoprimeProduct(m, n, a);
    }
  }

  lemma SignOfModulus(a: nat, m: nat, n: nat)
    requires m % 2 == 1 && n % 2 == 1 && (m * n) % 2 == 1
    requires a > 0 && Gcd(a, m) == 1 && Gcd(a, n) == 1 && Gcd(a, m * n) == 1
    ensures Sign(a, m * n) == Sign(a, m) * Sign(a, n)
  {
    hide Gcd, Sign;
    if a % 2 == 1 {
      OddSignOfModulus(a, m, n);
    } else {
      EvenSignOfModulus(a, m, n, m * n, a + m * n);
    }
  }

  lemma EvenSignOfModulus(a: nat, m: nat, n: nat, k: nat, b: nat)
    requires k == m * n && b == a + k && b % 2 == 1 && m % 2 == 1 && n % 2 == 1 && k % 2 == 1
    requires Gcd(a, m) == 1 && Gcd(a, n) == 1 && Gcd(a, k) == 1
    ensures Sign(a, k) == Sign(a, m) * Sign(a, n)
  {
    hide Gcd, Sign;
    Assoc(m, n, 1);
    Shifted(a, k, 1, b);
    Shifted(a, m, n, b);
    Shifted(a, n, m, b);
    OddSignOfModulus(b, m, n);
  }

  lemma Shifted(a: nat, n: nat, k: nat, b: nat)
    requires n > 0 && b == a + n * k
    ensures Sign(b, n) == Sign(a, n) && Gcd(b, n) == Gcd(a, n)
  {
    hide Sign;
    SameResidue(a, n, k);
    SamePeriod(b, a, n);
  }

  lemma SameResidue(a: nat, n: nat, k: nat)
    requires n > 0
    ensures (a + n * k) % n == a % n && Gcd(a + n * k, n) == Gcd(a, n)
  {
    Assoc(n, k, 1);
    ModOfMultiple(k, n, a);
  }

  lemma OddSignOfModulus(a: nat, m: nat, n: nat)
    requires a % 2 == 1 && m % 2 == 1 && n % 2 == 1 && (m * n) % 2 == 1
    requires Gcd(a, m) == 1 && Gcd(a, n) == 1 && Gcd(a, m * n) == 1
    ensures Sign(a, m * n) == Sign(a, m) * Sign(a, n)
  {
    hide Gcd, Sign;
    GcdSymmetric(a, n);
    GcdSymmetric(a, m * n);
    Flipped(a, m * n);
    Flipped(a, m);
    Flipped(a, n);
    SignMultiplies(m, n, a);
    FlipProduct(a, m, n);
    Swap(FlipSign(a, m), FlipSign(a, n), Sign(m, a), Sign(n, a));
  }

  lemma FlipProduct(a: nat, m: nat, n: nat)
    requires m % 2 == 1 && n % 2 == 1
    ensures FlipSign(a, m * n) == FlipSign(a, m) * FlipSign(a, n)
  {
    ModMul(m, n, 4);
    Assoc(m % 4, n, 1);
    ModMul(n, m % 4, 4);
    Assoc(n % 4, m % 4, 1);
    assert (m * n) % 4 == ((m % 4) * (n % 4)) % 4;
  }

  /** The Legendre symbol: whether `a` is a square modulo the prime `p`. */
  ghost function Legendre(a: nat, p: nat): int
    requires p > 0
  {
    if Divides(p, a) then 0 else if Residue(a, p) then 1 else -1
  }

  lemma SymbolIsLegendre(a: nat, p: nat)
    requires Prime(p) && p % 2 == 1
    ensures p >= 3 && Symbol(a, p) == Legendre(a, p)
  {
    hide Symbol, Residue;
    SymbolZero(a, p);
    if Divides(p, a) {
      DividesIntro(p, 1);
      GcdGreatest(p, a, p);
    } else {
      PrimeCoprime(p, a);
      SignIsResidue(a, p);
    }
  }

  /** Modulo a prime the symbol is the power with half the order, also where both vanish. */
  lemma SymbolIsPower(a: nat, p: nat)
    requires Prime(p) && p % 2 == 1
    ensures Congruent(Symbol(a, p), Pow(a, p / 2), p)
  {
    hide Symbol, Sign;
    SymbolIsLegendre(a, p);
    SymbolZero(a, p);
    if Divides(p, a) {
      DividesLinear(p, a, a, Pow(a, p / 2 - 1), 0);
    } else {
      PrimeCoprime(p, a);
      Gauss(p, a);
    }
  }

  ghost predicate OddPrimes(ps: seq<nat>) {
    forall p | p in ps :: Prime(p) && p % 2 == 1
  }

  /** The Jacobi symbol by its definition, from the prime factors of `n`. */
  ghost function LegendreProduct(a: nat, ps: seq<nat>): int
    requires OddPrimes(ps)
  {
    if ps == [] then 1 else assert ps[0] in ps; Legendre(a, ps[0]) * LegendreProduct(a, ps[1..])
  }

  /** Whatever the factors, the recursion computes the product of their Legendre symbols. */
  lemma {:induction false} SymbolIsJacobi(a: nat, ps: seq<nat>)
    requires OddPrimes(ps) && ps != []
    ensures Product(ps) >= 3 && Product(ps) % 2 == 1
    ensures Symbol(a, Product(ps)) == LegendreProduct(a, ps)
    decreases |ps|
  {
    hide Symbol, Prime, Legendre;
    var p, rest := ps[0], ps[1..];
    assert p in ps;
    SymbolIsLegendre(a, p);
    if rest == [] {
      assert Product(rest) == 1 && LegendreProduct(a, rest) == 1;
    } else {
      SymbolIsJacobi(a, rest);
      OddProduct(p, Product(rest));
      SymbolOfProduct(a, p, Product(rest), Product(ps));
    }
  }

  /** Every odd number above 1 has such factors. */
  lemma {:induction false} Factored(n: nat) returns (ps: seq<nat>)
    requires n >= 3 && n % 2 == 1
    ensures OddPrimes(ps) && Product(ps) == n
    decreases n
  {
    hide Prime;
    var p := LeastFactor(n, 2);
    DividesMultiple(p, n);
    var m := n / p;
    OddFactors(n, p, m);
    if m == 1 {
      ps := [p];
      assert ps[1..] == [] && Product(ps) == p * Product([]);
    } else {
      var rest := Factored(m);
      ps := [p] + rest;
      assert ps[1..] == rest;
    }
  }

  lemma OddFactors(n: nat, p: nat, m: nat)
    requires n == p * m && n % 2 == 1 && p >= 2
    ensures p % 2 == 1 && m % 2 == 1 && m < n
  {
    ProductParity(p, m);
    MulLe(2, p, m);
  }

  lemma {:induction false} LeastFactor(n: nat, k: nat) returns (p: nat)
    requires 1 < k <= n && forall d: nat | 1 < d < k :: !Divides(d, n)
    ensures Prime(p) && Divides(p, n) && p >= 2
    decreases n - k
  {
    if Divides(k, n) {
      p := k;
      DividesMultiple(k, n);
      forall d: nat | 1 < d < k
        ensures !Divides(d, k)
      {
        if Divides(d, k) { DividesLinear(d, k, k, n / k, 0); }
      }
    } else {
      if k == n { DividesIntro(n, 1); }
      p := LeastFactor(n, k + 1);
    }
  }
}
