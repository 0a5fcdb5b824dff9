/** Squares modulo an odd prime: Wilson's theorem and the criterion of Euler. */
module QuadraticResidues {
  import opened Arith
  import opened NumberTheory
  import opened QuadraticReciprocity

  ghost predicate Residue(a: nat, p: nat)
    requires p > 0
  {
    exists x: nat :: Congruent(x * x, a, p)
  }

  /** Some number is the quotient of `a` by `x`. */
  lemma Partner(x: nat, a: nat, p: nat) returns (y: nat)
    requires Prime(p) && 0 < x < p && !Divides(p, a)
    ensures 0 < y < p && Congruent(x * y, a, p)
  {
    if Divides(p, x) { DividesLe(p, x); }
    var s := Multiples(x, p, p - 1);
    MultiplesDistinct(x, p);
    Pigeonhole(s, p - 1);
    var r := a % p;
    assert Upto(p - 1)[r - 1] == r;
    assert r in multiset(Upto(p - 1));
    assert r in multiset(s);
    var i :| 0 <= i < |s| && s[i] == r;
    y := i + 1;
  }

  lemma PartnerUnique(x: nat, y: nat, z: nat, p: nat)
    requires Prime(p) && 0 < x < p && 0 < y < p && 0 < z < p && Congruent(x * y, x * z, p)
    ensures y == z
  {
    if y < z { PartnerLess(x, y, z, p); }
    if z < y { PartnerLess(x, z, y, p); }
  }

  lemma PartnerLess(x: nat, y: nat, z: nat, p: nat)
    requires Prime(p) && 0 < x < p && 0 < y < z < p
    ensures !Congruent(x * y, x * z, p)
  {
    if Congruent(x * y, x * z, p) {
      CongruentIff(x * z, x * y, p);
      assert x * z - x * y == x * (z - y);
      PrimeDivides(p, x, z - y);
      if Divides(p, x) { DividesLe(p, x); } else { DividesLe(p, z - y); }
    }
  }

  /** Different residues, each with its partner among them. */
  ghost predicate Paired(s: seq<nat>, a: nat, p: nat)
    requires p > 0
  {
    && (forall i | 0 <= i < |s| :: 0 < s[i] < p)
    && Distinct(s) && (forall x | x in s :: HasPartner(x, s, a, p))
  }

  predicate Distinct(s: seq<nat>) {
    forall i, j | 0 <= i < j < |s| :: s[i] != s[j]
  }

  ghost predicate HasPartner(x: nat, s: seq<nat>, a: nat, p: nat)
    requires p > 0
  {
    exists y :: y in s && y != x && Congruent(x * y, a, p)
  }

  /** The product of pairs is a power. */
  lemma {:induction false} PairedProduct(s: seq<nat>, a: nat, p: nat)
    requires p > 0 && Prime(p) && Paired(s, a, p)
    ensures |s| % 2 == 0 && Congruent(Product(s), Pow(a, |s| / 2), p)
    decreases |s|
  {
    hide Prime, Congruent, Pow, Paired;
    if s == [] {
      EmptyPower(a, p);
    } else {
      var k := FirstPair(s, a, p);
      var rest := s[1..k] + s[k + 1..];
      WithoutPair(s, a, p, k);
      PairedProduct(rest, a, p);
      assert s[1..][..k - 1] + s[1..][k..] == rest;
      ProductPull(s[1..], k - 1);
      TakePair(s[0], s[k], Product(rest), a, |rest| / 2, p);
    }
  }

  lemma FirstPair(s: seq<nat>, a: nat, p: nat) returns (k: nat)
    requires p > 0 && Paired(s, a, p) && s != []
    ensures 0 < k < |s| && Congruent(s[0] * s[k], a, p)
  {
    hide Congruent;
    assert s[0] in s;
    assert HasPartner(s[0], s, a, p);
    k := PartnerIndex(s[0], s, a, p);
  }

  lemma PartnerIndex(x: nat, s: seq<nat>, a: nat, p: nat) returns (k: nat)
    requires p > 0 && HasPartner(x, s, a, p)
    ensures k < |s| && s[k] != x && Congruent(x * s[k], a, p)
  {
    hide Congruent;
    var y :| y in s && y != x && Congruent(x * y, a, p);
    k :| 0 <= k < |s| && s[k] == y;
  }

  lemma EmptyPower(a: nat, p: nat)
    requires p > 0
    ensures Congruent(Product([]), Pow(a, 0), p)
  {}

  lemma TakePair(x: nat, y: nat, z: nat, a: nat, n: nat, p: nat)
    requires p > 0 && Congruent(x * y, a, p) && Congruent(z, Pow(a, n), p)
    ensures Congruent(x * (y * z), Pow(a, n + 1), p)
  {
    CongruentMul(x * y, a, z, Pow(a, n), p);
    Assoc(x, y, z);
  }

  lemma WithoutPair(s: seq<nat>, a: nat, p: nat, k: nat)
    requires Prime(p) && Paired(s, a, p) && 0 < k < |s| && Congruent(s[0] * s[k], a, p)
    ensures Paired(s[1..k] + s[k + 1..], a, p)
  {
    hide Prime, Congruent, Distinct;
    var rest := s[1..k] + s[k + 1..];
    WithoutTwo(s, k);
    forall z | z in rest
      ensures HasPartner(z, rest, a, p)
    {
      assert HasPartner(z, s, a, p);
      var w :| w in s && w != z && Congruent(z * w, a, p);
      PartnerOfPair(w, z, s[k], s[0], a, p);
      PartnerOfPair(w, z, s[0], s[k], a, p);
    }
  }

  lemma WithoutTwo(s: seq<nat>, k: nat)
    requires 0 < k < |s| && Distinct(s)
    ensures var rest := s[1..k] + s[k + 1..];
      && Distinct(rest)
      && (forall z :: z in rest <==> z in s && z != s[0] && z != s[k])
  {
    var rest := s[1..k] + s[k + 1..];
    assert forall i | 0 <= i < |rest| :: rest[i] == s[if i < k - 1 then i + 1 else i + 2];
    assert s == [s[0]] + s[1..k] + [s[k]] + s[k + 1..];
  }

  /** A number with the partner `v` has no other, so `z` cannot be its partner too. */
  lemma PartnerOfPair(w: nat, z: nat, v: nat, u: nat, a: nat, p: nat)
    requires Prime(p) && 0 < w < p && 0 < z < p && 0 < v < p && z != v
    requires Congruent(z * w, a, p) && (Congruent(u * v, a, p) || Congruent(v * u, a, p))
    ensures w != u
  {
    Assoc(z, w, 1);
    Assoc(u, v, 1);
    if w == u { PartnerUnique(w, z, v, p); }
  }

  /** Wilson's theorem. */
  lemma Wilson(p: nat)
    requires Prime(p) && p % 2 == 1
    ensures Congruent(Product(Upto(p - 1)), -1, p)
  {
    var all := Upto(p - 1);
    var s := all[1..p - 2];
    forall x | x in s
      ensures HasPartner(x, s, 1, p)
    {
      var y := InnerPartner(x, p);
      assert s[y - 2] == y;
    }
    assert Paired(s, 1, p);
    hide Congruent, Paired, Prime, Pow;
    PairedProduct(s, 1, p);
    PowersOfOne(|s| / 2);
    assert all == [1] + s + [p - 1];
    BothEnds(s, p);
  }

  lemma BothEnds(s: seq<nat>, p: nat)
    requires p > 0 && Congruent(Product(s), 1, p)
    ensures Congruent(Product([1] + s + [p - 1]), -1, p)
  {
    ProductAppend([1] + s, p - 1);
    assert ([1] + s)[1..] == s;
    ModOfMultiple(1, p, -1);
    CongruentMul(Product(s), 1, p - 1, -1, p);
  }

  lemma InnerPartner(x: nat, p: nat) returns (y: nat)
    requires Prime(p) && 1 < x < p - 1
    ensures 1 < y < p - 1 && y != x && Congruent(x * y, 1, p)
  {
    DivModUnique(1, p, 0, 1);
    y := Partner(x, 1, p);
    if y == x { RootOfOne(p, x); }
    if y == 1 { DivModUnique(x, p, 0, x); }
    if y == p - 1 {
      assert x * (p - 1) == (x - 1) * p + (p - x);
      DivModUnique(x * (p - 1), p, x - 1, p - x);
    }
  }

  lemma {:induction false} PowersOfOne(n: nat)
    ensures Pow(1, n) == 1
  {
    if n > 0 { PowersOfOne(n - 1); }
  }

  /** Where `a` is no square, every number has another as its partner, and the product of all is a power of `a`. */
  lemma NonResidue(a: nat, p: nat)
    requires Prime(p) && p % 2 == 1 && !Divides(p, a) && !Residue(a, p)
    ensures Congruent(Pow(a, p / 2), -1, p)
  {
    var all := Upto(p - 1);
    forall x | x in all
      ensures HasPartner(x, all, a, p)
    {
      var y := Partner(x, a, p);
      assert all[y - 1] == y;
    }
    assert Paired(all, a, p);
    PairedProduct(all, a, p);
    Wilson(p);
  }

  /** The criterion of Euler, with the sign in place of the power: 1 for squares and -1 for the others. */
  lemma SignIsResidue(a: nat, p: nat)
    requires Prime(p) && p % 2 == 1 && !Divides(p, a)
    ensures Sign(a, p) == if Residue(a, p) then 1 else -1
  {
    hide Prime, Prod, Gcd, Pow;
    PrimeCoprime(p, a);
    SignIs(a, p, p / 2);
    if Residue(a, p) {
      var x: nat :| Congruent(x * x, a, p);
      SquareSign(x, a, p);
    } else {
      NonResidue(a, p);
      Gauss(p, a);
      SignByResidue(Sign(a, p), p);
    }
  }

  lemma SignByResidue(s: int, p: nat)
    requires p > 2 && Congruent(s, -1, p) && (s == 1 || s == -1)
    ensures s == -1
  {
    CongruentIff(1, -1, p);
    if s == 1 { DividesLe(p, 2); }
  }

  lemma SquareSign(x: nat, a: nat, p: nat)
    requires Prime(p) && p % 2 == 1 && !Divides(p, a) && Congruent(x * x, a, p)
    ensures Sign(a, p) == 1
  {
    hide Prime, Prod;
    if Divides(p, x) {
      DividesMultiple(p, x);
      Assoc(p, x / p, x);
      DividesIntro(p, (x / p) * x);
    }
    PrimeCoprime(p, x);
    PrimeCoprime(p, x * x);
    SignMultiplies(x, x, p);
    SignPeriodic(a, x * x, p, p / 2);
    SignIs(x, p, p / 2);
  }
}
