/**
 * The sign of a modulo n by the lemma of Gauss in Schering's form, for odd n that need not be prime: it is
 * multiplicative, obeys quadratic reciprocity, and for prime n gives the power a^((n-1)/2).
 */
module QuadraticReciprocity {
  import opened Arith
  import opened NumberTheory

  /** 1 for a residue in the lower half, -1 for one in the upper half. */
  function Side(x: nat, n: nat): int
    requires n > 0
  {
    if x % n <= n / 2 then 1 else -1
  }

  /** The distance from the nearest multiple of `n`. */
  function Fold(x: nat, n: nat): nat
    requires n > 0
  {
    if x % n <= n / 2 then x % n else n - x % n
  }

  function Parity(x: int): int {
    if x % 2 == 0 then 1 else -1
  }

  function Prod(f: nat -> int, s: seq<nat>): int {
    if s == [] then 1 else Prod(f, s[..|s| - 1]) * f(s[|s| - 1])
  }

  lemma ProdAppend(f: nat -> int, s: seq<nat>, x: nat)
    ensures Prod(f, s + [x]) == Prod(f, s) * f(x)
  {
    assert (s + [x])[..|s|] == s;
  }

  lemma {:induction false} ProdPull(f: nat -> int, t: seq<nat>, k: nat)
    requires k < |t|
    ensures Prod(f, t) == Prod(f, t[..k] + t[k + 1..]) * f(t[k])
    decreases |t|
  {
    var m := |t| - 1;
    if k == m {
      assert t[..k] + t[k + 1..] == t[..m];
    } else {
      ProdPull(f, t[..m], k);
      var rest := t[..m][..k] + t[..m][k + 1..];
      assert t[..k] + t[k + 1..] == rest + [t[m]];
      ProdAppend(f, rest, t[m]);
      Exchange(Prod(f, rest), f(t[k]), f(t[m]));
    }
  }

  lemma {:induction false} ProdPermuted(f: nat -> int, s: seq<nat>, t: seq<nat>)
    requires multiset(s) == multiset(t)
    ensures Prod(f, s) == Prod(f, t)
    decreases |s|
  {
    hide Prod;
    if s == [] {
      assert |t| == |multiset(t)| == 0;
    } else {
      var m := |s| - 1;
      assert s[m] in multiset(t);
      var k :| 0 <= k < |t| && t[k] == s[m];
      RemoveAt(s, m);
      RemoveAt(t, k);
      assert s[..m] + s[m + 1..] == s[..m];
      assert multiset(s[..m]) == multiset(s) - multiset{s[m]};
      assert multiset(t[..k] + t[k + 1..]) == multiset(t) - multiset{s[m]};
      ProdPermuted(f, s[..m], t[..k] + t[k + 1..]);
      ProdPull(f, t, k);
      assert s == s[..m] + [s[m]];
      ProdAppend(f, s[..m], s[m]);
    }
  }

  /** The sides of the multiples of `a`. */
  function SideOf(a: nat, n: nat): nat -> int
    requires n > 0
  {
    (j: nat) => Side(a * j, n)
  }

  /** The product of the sides of a, 2a, ..., up to half of `n`. */
  function Sign(a: nat, n: nat): int
    requires n > 0
  {
    Prod(SideOf(a, n), Upto(n / 2))
  }

  lemma {:induction false} SignIs(a: nat, n: nat, k: nat)
    requires n > 0
    ensures var x := Prod(SideOf(a, n), Upto(k)); x == 1 || x == -1
  {
    if k > 0 {
      SignIs(a, n, k - 1);
      ProdAppend(SideOf(a, n), Upto(k - 1), k);
    }
  }

  /** Numbers congruent modulo `n` have the same sign. */
  lemma {:induction false} SignPeriodic(a: nat, b: nat, n: nat, k: nat)
    requires n > 0 && a % n == b % n
    ensures Prod(SideOf(a, n), Upto(k)) == Prod(SideOf(b, n), Upto(k))
  {
    if k > 0 {
      SignPeriodic(a, b, n, k - 1);
      ProdAppend(SideOf(a, n), Upto(k - 1), k);
      ProdAppend(SideOf(b, n), Upto(k - 1), k);
      ModMul(a, k, n);
      ModMul(b, k, n);
    }
  }

  lemma {:induction false} SignOne(n: nat, k: nat)
    requires n > 0 && k <= n / 2
    ensures Prod(SideOf(1, n), Upto(k)) == 1
  {
    if k > 0 {
      SignOne(n, k - 1);
      ProdAppend(SideOf(1, n), Upto(k - 1), k);
      DivModUnique(1 * k, n, 0, k);
    }
  }

  /** The distances of b, 2b, ..., kb. */
  function Folds(b: nat, n: nat, k: nat): (s: seq<nat>)
    requires n > 0
    ensures |s| == k && forall i | 0 <= i < k :: s[i] == Fold(b * (i + 1), n)
  {
    if k == 0 then [] else Folds(b, n, k - 1) + [Fold(b * k, n)]
  }

  lemma NoMultiple(b: nat, n: nat, j: nat)
    requires n > 0 && Gcd(b, n) == 1 && 0 < j < n
    ensures (b * j) % n != 0
  {
    if (b * j) % n == 0 {
      CoprimeDivides(n, b, j);
      DividesLe(n, j);
    }
  }

  /** They are the numbers up to half of `n` in some order. */
  lemma FoldsPermute(b: nat, n: nat)
    requires n % 2 == 1 && Gcd(b, n) == 1
    ensures multiset(Folds(b, n, n / 2)) == multiset(Upto(n / 2))
  {
    var h := n / 2;
    var s := Folds(b, n, h);
    forall i | 0 <= i < |s|
      ensures 1 <= s[i] <= h
    {
      NoMultiple(b, n, i + 1);
    }
    forall i, j | 0 <= i < j < |s|
      ensures s[i] != s[j]
    {
      FoldsDiffer(b, n, i + 1, j + 1);
    }
    Pigeonhole(s, h);
  }

  lemma FoldsDiffer(b: nat, n: nat, i: nat, j: nat)
    requires n % 2 == 1 && Gcd(b, n) == 1 && 0 < i < j <= n / 2
    ensures Fold(b * i, n) != Fold(b * j, n)
  {
    hide Gcd, Fold;
    SumAndDifference(b, i, j);
    NoMultiple(b, n, j - i);
    NoMultiple(b, n, i + j);
    if Fold(b * i, n) == Fold(b * j, n) { SameFold(b * i, b * j, n); }
  }

  lemma SumAndDifference(b: int, i: int, j: int)
    ensures b * j - b * i == b * (j - i) && b * i + b * j == b * (i + j)
  {}

  /** Numbers at the same distance differ or add up to a multiple. */
  lemma SameFold(x: nat, y: nat, n: nat)
    requires n > 0 && Fold(x, n) == Fold(y, n)
    ensures (y - x) % n == 0 || (x + y) % n == 0
  {
    if x % n == y % n {
      CongruentIff(y, x, n);
    } else {
      var k := x / n + y / n + 1;
      assert x + y == k * n by {
        assert x == (x / n) * n + x % n && y == (y / n) * n + y % n;
        Spread(x / n, y / n, n);
        Spread(x / n + y / n, 1, n);
      }
      DivModUnique(x + y, n, k, 0);
    }
  }

  /** A product is on the side its factor is on, turned where the other factor is in the upper half. */
  lemma SideOfProduct(a: nat, y: nat, n: nat)
    requires n % 2 == 1 && (a * y) % n != 0
    ensures Side(a * y, n) == Side(y, n) * Side(a * Fold(y, n), n)
  {
    FoldProduct(a, y, n);
  }

  lemma FoldProduct(a: nat, y: nat, n: nat)
    requires n > 0 && (a * y) % n != 0
    ensures (a * Fold(y, n)) % n == if y % n <= n / 2 then (a * y) % n else n - (a * y) % n
  {
    var r := y % n;
    Assoc(a, y, 1);
    Assoc(a, r, 1);
    ModMul(y, a, n);
    if r > n / 2 {
      var m := (a * r) % n;
      MulLe(r, n, a);
      Assoc(a, n, 1);
      assert a * (n - r) == a * n - a * r;
      Turned(a, n, a * r, a * r / n, m);
    }
  }

  lemma Turned(a: nat, n: nat, x: nat, q: nat, m: nat)
    requires n > 0 && x == n * q + m && 0 < m < n && a * n - x >= 0
    ensures (a * n - x) % n == n - m
  {
    assert a * n - x == (a - q - 1) * n + (n - m);
    DivModUnique(a * n - x, n, a - q - 1, n - m);
  }

  lemma {:induction false} SignsOfProducts(a: nat, b: nat, n: nat, k: nat)
    requires n % 2 == 1 && Gcd(a * b, n) == 1 && k <= n / 2
    ensures Prod(SideOf(a * b, n), Upto(k)) == Prod(SideOf(b, n), Upto(k)) * Prod(SideOf(a, n), Folds(b, n, k))
  {
    hide Gcd, Side, Fold, Prod;
    if k == 0 {
      EmptyProd(SideOf(a * b, n), SideOf(b, n), SideOf(a, n));
    } else {
      SignsOfProducts(a, b, n, k - 1);
      ProdAppend(SideOf(a * b, n), Upto(k - 1), k);
      ProdAppend(SideOf(b, n), Upto(k - 1), k);
      ProdAppend(SideOf(a, n), Folds(b, n, k - 1), Fold(b * k, n));
      NoMultiple(a * b, n, k);
      Assoc(a, b, k);
      SideOfProduct(a, b * k, n);
      Swap(Prod(SideOf(b, n), Upto(k - 1)), Side(b * k, n), Prod(SideOf(a, n), Folds(b, n, k - 1)),
        Side(a * Fold(b * k, n), n));
    }
  }

  lemma EmptyProd(f: nat -> int, g: nat -> int, h: nat -> int)
    ensures Prod(f, []) == Prod(g, []) * Prod(h, [])
  {}

  /** The sign of a product is the product of the signs. */
  lemma SignMultiplies(a: nat, b: nat, n: nat)
    requires n % 2 == 1 && Gcd(a * b, n) == 1 && Gcd(b, n) == 1
    ensures Sign(a * b, n) == Sign(a, n) * Sign(b, n)
  {
    hide Gcd, Prod, Side, Folds, Upto;
    SignsOfProducts(a, b, n, n / 2);
    FoldsPermute(b, n);
    ProdPermuted(SideOf(a, n), Folds(b, n, n / 2), Upto(n / 2));
  }

  lemma {:induction false} SignsOfTwo(n: nat, k: nat)
    requires n % 2 == 1 && k <= n / 2
    ensures Prod(SideOf(2, n), Upto(k)) == Parity(UpperHalf(n, k))
  {
    hide Side, Prod, Parity;
    if k == 0 {
      EmptyTwo(n);
    } else {
      SignsOfTwo(n, k - 1);
      ProdAppend(SideOf(2, n), Upto(k - 1), k);
      SideOfDouble(n, k);
      if k > n / 4 { ParitySum(k - 1 - n / 4, 1); }
      ParityOne();
    }
  }

  /** How many of 2, 4, ..., 2k are in the upper half. */
  function UpperHalf(n: nat, k: nat): nat {
    if k <= n / 4 then 0 else k - n / 4
  }

  lemma EmptyTwo(n: nat)
    requires n > 0
    ensures Prod(SideOf(2, n), []) == 1 && Parity(UpperHalf(n, 0)) == 1
  {}

  lemma ParityOne()
    ensures Parity(1) == -1 && Parity(0) == 1
  {}

  lemma SideOfDouble(n: nat, k: nat)
    requires n % 2 == 1 && 0 < k <= n / 2
    ensures Side(2 * k, n) == if k <= n / 4 then 1 else -1
  {
    DivModUnique(2 * k, n, 0, 2 * k);
  }

  /** The sign of two: 1 where `n` is 1 or 7 modulo 8. */
  lemma SignOfTwo(n: nat)
    requires n % 2 == 1
    ensures Sign(2, n) == if n % 8 == 1 || n % 8 == 7 then 1 else -1
  {
    hide Prod, Upto, UpperHalf, Side;
    SignsOfTwo(n, n / 2);
    QuarterParity(n, n / 8, n % 8);
  }

  lemma QuarterParity(n: nat, q: nat, r: nat)
    requires n == 8 * q + r && r < 8 && r % 2 == 1
    ensures UpperHalf(n, n / 2) % 2 == if r == 1 || r == 7 then 0 else 1
  {
    assert n / 2 == 4 * q + r / 2 && n / 4 == 2 * q + r / 4;
    assert UpperHalf(n, n / 2) == 2 * q + (r / 2 - r / 4);
  }

  lemma ParitySum(x: int, y: int)
    ensures Parity(x + y) == Parity(x) * Parity(y)
  {}

  function ParityOf(): nat -> int {
    (x: nat) => Parity(x)
  }

  lemma {:induction false} ParitiesSquare(s: seq<nat>)
    ensures Prod(ParityOf(), s) * Prod(ParityOf(), s) == 1
  {
    if s != [] {
      var t, x := s[..|s| - 1], s[|s| - 1];
      ParitiesSquare(t);
      Swap(Prod(ParityOf(), t), Parity(x), Prod(ParityOf(), t), Parity(x));
      assert Prod(ParityOf(), s) == Prod(ParityOf(), t) * Parity(x);
    }
  }

  /** The whole parts of a/n, 2a/n, ..., ka/n together. */
  function FloorSum(a: nat, n: nat, k: nat): nat
    requires n > 0
  {
    if k == 0 then 0 else FloorSum(a, n, k - 1) + a * k / n
  }

  /** For odd numbers the parity of a whole part is given by the side and the distance. */
  lemma ParityOfQuotient(a: nat, k: nat, n: nat)
    requires n % 2 == 1 && a % 2 == 1
    ensures Parity(a * k / n) == Side(a * k, n) * (Parity(Fold(a * k, n)) * Parity(k))
  {
    var q, r := a * k / n, (a * k) % n;
    OddTimes(a, k);
    OddTimes(n, q);
    QuotientParity(a * k, n, q, n * q, r, k);
  }

  lemma QuotientParity(x: nat, n: nat, q: nat, y: nat, r: nat, k: nat)
    requires x == y + r && n % 2 == 1 && x % 2 == k % 2 && y % 2 == q % 2
    requires n > 0 && r == x % n
    ensures Parity(q) == Side(x, n) * (Parity(Fold(x, n)) * Parity(k))
  {
    hide Parity;
    ParitySum(y, r);
    SameParity(x, k);
    SameParity(y, q);
    if r > n / 2 {
      ParitySum(n - r, r);
      SameParity(n, 1);
      ParityOne();
    }
    ParityIs(r);
    ParityIs(q);
    ParityIs(k);
    ParityIs(n - r);
  }

  lemma ParityIs(x: int)
    ensures Parity(x) == 1 || Parity(x) == -1
  {}

  lemma OddTimes(a: int, k: int)
    requires a % 2 == 1
    ensures (a * k) % 2 == k % 2
  {
    assert a * k == 2 * ((a / 2) * k) + k;
  }

  lemma SameParity(x: int, y: int)
    ensures x % 2 == y % 2 ==> Parity(x) == Parity(y)
  {}

  lemma {:induction false} Eisenstein(a: nat, n: nat, k: nat)
    requires n % 2 == 1 && a % 2 == 1
    ensures Parity(FloorSum(a, n, k)) ==
            Prod(SideOf(a, n), Upto(k)) * (Prod(ParityOf(), Folds(a, n, k)) * Prod(ParityOf(), Upto(k)))
  {
    hide Side, Fold, Prod, Parity;
    if k == 0 {
      EmptyParity(SideOf(a, n));
    } else {
      Eisenstein(a, n, k - 1);
      ParitySum(FloorSum(a, n, k - 1), a * k / n);
      ParityOfQuotient(a, k, n);
      ProdAppend(SideOf(a, n), Upto(k - 1), k);
      ProdAppend(ParityOf(), Folds(a, n, k - 1), Fold(a * k, n));
      ProdAppend(ParityOf(), Upto(k - 1), k);
      ThreePairs(Prod(SideOf(a, n), Upto(k - 1)), Side(a * k, n), Prod(ParityOf(), Folds(a, n, k - 1)),
                 Parity(Fold(a * k, n)), Prod(ParityOf(), Upto(k - 1)), Parity(k));
    }
  }

  lemma EmptyParity(f: nat -> int)
    ensures Parity(0) == Prod(f, []) * (Prod(ParityOf(), []) * Prod(ParityOf(), []))
  {}

  lemma ThreePairs(x: int, x': int, y: int, y': int, z: int, z': int)
    ensures x * (y * z) * (x' * (y' * z')) == x * x' * (y * y' * (z * z'))
  {
    Swap(y, z, y', z');
    Swap(x, y * z, x', y' * z');
    Swap(y, y', z, z');
  }

  /** The sign is the parity of the whole parts. */
  lemma SignIsParity(a: nat, n: nat)
    requires n % 2 == 1 && a % 2 == 1 && Gcd(a, n) == 1
    ensures Sign(a, n) == Parity(FloorSum(a, n, n / 2))
  {
    hide Gcd, Prod, Parity, Folds, Upto, FloorSum;
    Eisenstein(a, n, n / 2);
    FoldsPermute(a, n);
    ProdPermuted(ParityOf(), Folds(a, n, n / 2), Upto(n / 2));
    ParitiesSquare(Upto(n / 2));
  }

  function Least(x: nat, y: nat): nat {
    if x < y then x else y
  }

  /** The points (i, l) with i up to `j`, l up to `k` and nl <= ai, counted by rows. */
  function Lattice(a: nat, n: nat, j: nat, k: nat): nat
    requires n > 0
  {
    if j == 0 then 0 else Lattice(a, n, j - 1, k) + Least(k, a * j / n)
  }

  lemma QuotientAtLeast(x: nat, n: nat, k: nat)
    requires n > 0
    ensures k <= x / n <==> n * k <= x
  {
    var q := x / n;
    assert x == n * q + x % n;
    if k <= q { MulLe(k, q, n); } else { MulLe(q + 1, k, n); }
  }

  /** The points of a column: those of its `j` that are not on the other side. */
  lemma {:induction false} LatticeColumn(a: nat, n: nat, j: nat, k: nat)
    requires a > 0 && n > 0 && k > 0 && forall i | 1 <= i <= j :: a * i != n * k
    ensures Lattice(a, n, j, k) == Lattice(a, n, j, k - 1) + (j - Least(j, n * k / a))
  {
    if j > 0 {
      LatticeColumn(a, n, j - 1, k);
      QuotientAtLeast(a * j, n, k);
      QuotientAtLeast(n * k, a, j);
      assert a * j != n * k;
    }
  }

  /** Every point is on one side or the other. */
  lemma {:induction false} LatticeSides(a: nat, n: nat, j: nat, k: nat)
    requires a > 0 && n > 0 && forall i, l | 1 <= i <= j && 1 <= l <= k :: a * i != n * l
    ensures Lattice(a, n, j, k) + Lattice(n, a, k, j) == j * k
    decreases k
  {
    if k == 0 {
      NoColumns(a, n, j);
    } else {
      LatticeSides(a, n, j, k - 1);
      LatticeColumn(a, n, j, k);
      assert j * k == j * (k - 1) + j;
    }
  }

  lemma {:induction false} NoColumns(a: nat, n: nat, j: nat)
    requires n > 0
    ensures Lattice(a, n, j, 0) == 0
  {
    if j > 0 { NoColumns(a, n, j - 1); }
  }

  lemma {:induction false} LatticeIsFloorSum(a: nat, n: nat, j: nat)
    requires n > 0 && j <= n / 2
    ensures Lattice(a, n, j, a / 2) == FloorSum(a, n, j)
  {
    if j > 0 {
      LatticeIsFloorSum(a, n, j - 1);
      RowsFit(a, n, j);
    }
  }

  lemma RowsFit(a: nat, n: nat, j: nat)
    requires n > 0 && j <= n / 2
    ensures a * j / n <= a / 2
  {
    MulLe(2 * j, n, a);
    MulLt(a, 2 * (a / 2 + 1), n);
    assert 2 * (a * j) < 2 * ((a / 2 + 1) * n);
    QuotientLess(a * j, a / 2 + 1, n);
  }

  lemma NeverLevel(a: nat, n: nat)
    requires n > 0 && Gcd(a, n) == 1
    ensures forall i, l | 1 <= i <= n / 2 && 1 <= l <= a / 2 :: a * i != n * l
  {
    forall i: nat, l: nat | 1 <= i <= n / 2 && 1 <= l <= a / 2
      ensures a * i != n * l
    {
      NoMultiple(a, n, i);
      DividesIntro(n, l);
    }
  }

  /** The law of quadratic reciprocity. */
  lemma Reciprocity(a: nat, n: nat)
    requires a % 2 == 1 && n % 2 == 1 && Gcd(a, n) == 1
    ensures Sign(a, n) * Sign(n, a) == if a % 4 == 3 && n % 4 == 3 then -1 else 1
  {
    hide Gcd, Sign, Lattice, FloorSum, Parity;
    GcdSymmetric(a, n);
    SignIsParity(a, n);
    SignIsParity(n, a);
    NeverLevel(a, n);
    LatticeSides(a, n, n / 2, a / 2);
    LatticeIsFloorSum(a, n, n / 2);
    LatticeIsFloorSum(n, a, a / 2);
    ParitySum(FloorSum(a, n, n / 2), FloorSum(n, a, a / 2));
    HalvesParity(a, n);
  }

  lemma HalvesParity(a: nat, n: nat)
    requires a % 2 == 1 && n % 2 == 1
    ensures Parity((n / 2) * (a / 2)) == if a % 4 == 3 && n % 4 == 3 then -1 else 1
  {
    hide Parity;
    OddHalf(a);
    OddHalf(n);
    ParityOne();
    ProductParity(n / 2, a / 2);
    SameParity((n / 2) * (a / 2), if a % 4 == 3 && n % 4 == 3 then 1 else 0);
  }

  lemma OddHalf(a: nat)
    requires a % 2 == 1
    ensures (a / 2) % 2 == if a % 4 == 3 then 1 else 0
  {}

  lemma ProductParity(x: int, y: int)
    ensures (x * y) % 2 == if x % 2 == 1 && y % 2 == 1 then 1 else 0
  {
    if x % 2 == 1 { OddTimes(x, y); } else { EvenTimes(x, y); }
  }

  lemma EvenTimes(x: int, y: int)
    requires x % 2 == 0
    ensures (x * y) % 2 == 0
  {
    assert x * y == 2 * ((x / 2) * y);
  }

  lemma {:induction false} SignedFolds(a: nat, p: nat, k: nat)
    requires p > 0
    ensures Congruent(Product(Multiples(a, p, k)), Prod(SideOf(a, p), Upto(k)) * Product(Folds(a, p, k)), p)
  {
    if k > 0 {
      SignedFolds(a, p, k - 1);
      ProductAppend(Multiples(a, p, k - 1), (a * k) % p);
      ProductAppend(Folds(a, p, k - 1), Fold(a * k, p));
      ProdAppend(SideOf(a, p), Upto(k - 1), k);
      var x, y := Prod(SideOf(a, p), Upto(k - 1)), Product(Folds(a, p, k - 1));
      SideTimesFold(a * k, p);
      CongruentMul(Product(Multiples(a, p, k - 1)), x * y, (a * k) % p, Side(a * k, p) * Fold(a * k, p), p);
      Swap(x, y, Side(a * k, p), Fold(a * k, p));
    }
  }

  lemma SideTimesFold(x: nat, p: nat)
    requires p > 0
    ensures Congruent(x % p, Side(x, p) * Fold(x, p), p)
  {
    CongruentIff(x % p, Side(x, p) * Fold(x, p), p);
    DivModUnique(p, p, 1, 0);
  }

  /** The lemma of Gauss: for a prime the sign is the power with half the order. */
  lemma Gauss(p: nat, a: nat)
    requires Prime(p) && p % 2 == 1 && !Divides(p, a)
    ensures Congruent(Pow(a, p / 2), Sign(a, p), p)
  {
    hide Gcd, Pow, Prod, Folds, Upto, Multiples, Product, Prime;
    var h := p / 2;
    var f := Product(Upto(h));
    PrimeCoprime(p, a);
    FoldsPermute(a, p);
    ProductPermuted(Folds(a, p, h), Upto(h));
    SignedFolds(a, p, h);
    MultiplesProduct(a, p, h);
    var x, y := Pow(a, h), Sign(a, p);
    CongruentIff(x * f, y * f, p);
    assert x * f - y * f == f * (x - y);
    FactorialCoprime(p, h);
    PrimeDivides(p, f, x - y);
    CongruentIff(x, y, p);
  }
}
