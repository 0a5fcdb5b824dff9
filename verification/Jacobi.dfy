/** mpJacobi: the recursive Jacobi-symbol computation (Menezes, algorithm 2.149). */
module Jacobi {
  import opened Arith
  import opened Digits
  import opened Value
  import opened Linear
  import opened ShortDivide
  import opened NumberTheory
  import opened ModExp
  import opened BinaryGcd
  import opened JacobiSymbol

  /** Taking out `e` factors of two multiplies by the sign of 2 once when `e` is odd. */
  function TwosSign(e: nat, n: nat): int {
    if e % 2 == 0 then 1 else TwoSign(n)
  }

  /** mpShortMod. */
  method MpShortMod(a: array<Digit>, d: Digit, n: nat) returns (r: Digit)
    requires n <= a.Length
    ensures r == if d == 0 then 0 else Num(a, n) % d
  {
    hide Val;
    var q := MpAlloc(n * 2);
    r := MpShortDiv(q, a, d, n);
    if d != 0 { DivModUnique(Num(a, n), d, Num(q, n), r); }
  }

  /** Step 3: the odd part of `a`, in place, and how many halvings it took. */
  method OddPartOf(a: array<Digit>, n: nat, ghost m: nat) returns (e: nat)
    requires 1 <= n <= a.Length && Num(a, n) > 0 && m % 2 == 1
    modifies a
    ensures Num(a, n) * Pow2(e) == old(Num(a, n)) && Num(a, n) % 2 == 1
    ensures 0 < Num(a, n) <= old(Num(a, n))
    ensures old(Symbol(Num(a, n), m)) == TwosSign(e, m) * Symbol(Num(a, n), m)
  {
    hide Val, P, Gcd, Pow2, Symbol, TwosSign;
    e := 0;
    TwosStep(Num(a, n), 0, m);
    OnePower(0);
    var even := IsEven(a, n);
    while even
      invariant 0 < Num(a, n) <= old(Num(a, n))
      invariant Num(a, n) * Pow2(e) == old(Num(a, n))
      invariant old(Symbol(Num(a, n), m)) == TwosSign(e, m) * Symbol(Num(a, n), m)
      invariant even <==> Num(a, n) % 2 == 0
      decreases Num(a, n)
    {
      TwosStep(Num(a, n), e, m);
      HalvePower(Num(a, n), e);
      Halve(a, n);
      e := e + 1;
      even := IsEven(a, n);
    }
  }

  lemma TwosStep(a: nat, e: nat, n: nat)
    ensures TwosSign(0, n) * Symbol(a, n) == Symbol(a, n)
    ensures a > 0 && a % 2 == 0 ==> TwosSign(e, n) * Symbol(a, n) == TwosSign(e + 1, n) * Symbol(a / 2, n)
  {
    hide Symbol, TwoSign;
    if a > 0 && a % 2 == 0 {
      SymbolEven(a, n);
      if e % 2 == 1 { Assoc(TwoSign(n), TwoSign(n), Symbol(a / 2, n)); }
    }
  }

  lemma SymbolEven(a: nat, n: nat)
    requires a > 0 && a % 2 == 0
    ensures Symbol(a, n) == TwoSign(n) * Symbol(a / 2, n) && TwoSign(n) * TwoSign(n) == 1
  {}

  lemma OnePower(e: nat)
    ensures Pow2(0) == 1
  {}

  lemma HalvePower(a: nat, e: nat)
    requires a % 2 == 0
    ensures (a / 2) * Pow2(e + 1) == a * Pow2(e)
  {
    var h := a / 2;
    assert Pow2(e + 1) == 2 * Pow2(e);
    assert h * (2 * Pow2(e)) == 2 * h * Pow2(e);
  }

  /** Steps 4 and 5: the sign from the residues modulo 8 and 4. */
  method Sign(e: nat, a1: array<Digit>, n: array<Digit>, nd: nat) returns (s: int)
    requires nd <= n.Length && nd <= a1.Length
    ensures s == TwosSign(e, Num(n, nd)) * FlipSign(Num(a1, nd), Num(n, nd))
  {
    hide Val;
    Sizes();
    if e % 2 == 0 {
      s := 1;
    } else {
      var nmod8 := MpShortMod(n, 8, nd);
      if nmod8 == 1 || nmod8 == 7 {
        s := 1;
      } else {
        s := -1;
      }
    }
    var n4 := MpShortMod(n, 4, nd);
    var a4 := MpShortMod(a1, 4, nd);
    if n4 == 3 && a4 == 3 {
      s := -s;
    }
  }

  /** mpJacobi: ends for every odd `n >= 3` and every `a`; 0 exactly when they share a factor. */
  method MpJacobi(a: array<Digit>, n: array<Digit>, nd: nat) returns (s: int)
    requires 1 <= nd <= a.Length && nd <= n.Length
    requires Num(n, nd) >= 3 && Num(n, nd) % 2 == 1
    ensures s == Symbol(Num(a, nd), Num(n, nd))
    ensures forall ps | OddPrimes(ps) && Product(ps) == Num(n, nd) :: s == LegendreProduct(Num(a, nd), ps)
    ensures s == -1 || s == 0 || s == 1
    ensures s == 0 <==> Gcd(Num(a, nd), Num(n, nd)) > 1
    decreases Num(a, nd)
  {
    hide Val, P, Gcd, Pow2, Symbol, TwosSign, FlipSign;
    ghost var A, N := Num(a, nd), Num(n, nd);
    SymbolRange(A, N);
    SymbolBase(N);
    forall ps | OddPrimes(ps) && Product(ps) == N
      ensures Symbol(A, N) == LegendreProduct(A, ps)
    {
      SymbolIsJacobi(A, ps);
    }
    Sizes();
    var z := MpIsZero(a, nd);
    if z != 0 {
      return 0;
    }
    var one := MpShortCmp(a, 1, nd);
    if one == 0 {
      return 1;
    }
    var a1 := MpAlloc(nd);
    var n1 := MpAlloc(nd);
    MpSetEqual(a1, a, nd);
    var e := OddPartOf(a1, nd, N);
    s := Sign(e, a1, n, nd);
    SymbolOdd(Num(a1, nd), N, TwosSign(e, N));
    one := MpShortCmp(a1, 1, nd);
    if one != 0 {
      MpModulo(n1, n, nd, a1, nd);
      var t := MpJacobi(n1, a1, nd);
      s := s * t;
    }
  }

  lemma SymbolBase(n: nat)
    ensures Symbol(0, n) == 0 && Symbol(1, n) == 1
  {}

  lemma SymbolOdd(a: nat, n: nat, t: int)
    requires a % 2 == 1
    ensures a == 1 ==> t * FlipSign(a, n) == t * Symbol(a, n)
    ensures a != 1 ==> t * FlipSign(a, n) * Symbol(n % a, a) == t * Symbol(a, n)
  {
    if a != 1 {
      assert Symbol(a, n) == FlipSign(a, n) * Symbol(n % a, a);
      Assoc(t, FlipSign(a, n), Symbol(n % a, a));
    }
  }
}
