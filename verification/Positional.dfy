/** Numbers written with the most significant digit first, in any base. */
module Positional {
  import opened Arith

  function BVal(s: seq<nat>, b: nat): nat {
    if s == [] then 0 else BVal(s[..|s| - 1], b) * b + s[|s| - 1]
  }

  /** The number of values with `n` digits. */
  function Span(b: nat, n: nat): (r: nat)
    requires b >= 1
    ensures r >= 1
  {
    PowPos(b, n);
    Pow(b, n)
  }

  predicate Below(s: seq<nat>, b: nat) {
    forall i | 0 <= i < |s| :: s[i] < b
  }

  lemma BEmpty(b: nat)
    ensures BVal([], b) == 0 && Pow(b, 0) == 1
  {}

  lemma BAppend(s: seq<nat>, d: nat, b: nat)
    ensures BVal(s + [d], b) == BVal(s, b) * b + d
  {
    assert (s + [d])[..|s|] == s;
  }

  lemma {:induction false} BConcat(s: seq<nat>, t: seq<nat>, b: nat)
    ensures BVal(s + t, b) == BVal(s, b) * Pow(b, |t|) + BVal(t, b)
    decreases |t|
  {
    if t == [] {
      assert s + t == s;
      BEmpty(b);
    } else {
      var k := |t| - 1;
      assert (s + t)[..|s| + k] == s + t[..k];
      BConcat(s, t[..k], b);
      BStep(BVal(s, b), Pow(b, k), BVal(t[..k], b), t[k], b);
    }
  }

  lemma BStep(x: int, p: int, y: int, d: int, b: int)
    ensures (x * p + y) * b + d == x * (b * p) + (y * b + d)
  {
    assert (x * p + y) * b == x * p * b + y * b;
    assert x * p * b == x * (b * p);
  }

  /** A digit in front. */
  lemma BCons(d: nat, s: seq<nat>, b: nat)
    ensures BVal([d] + s, b) == d * Pow(b, |s|) + BVal(s, b)
  {
    BConcat([d], s, b);
    assert [d][..0] == [];
    BEmpty(b);
  }

  lemma {:induction false} BBound(s: seq<nat>, b: nat)
    requires Below(s, b)
    ensures BVal(s, b) < Pow(b, |s|)
  {
    if s == [] {
      BEmpty(b);
    } else {
      BBound(s[..|s| - 1], b);
      RoomBelow(BVal(s[..|s| - 1], b), s[|s| - 1], b, Pow(b, |s| - 1));
    }
  }

  lemma RoomBelow(x: int, d: int, b: int, p: int)
    requires x < p && d < b && 0 <= b
    ensures x * b + d < b * p
  {
    MulLe(x + 1, p, b);
    assert (x + 1) * b == x * b + b && p * b == b * p;
  }

  lemma {:induction false} BZero(s: seq<nat>, b: nat)
    requires forall i | 0 <= i < |s| :: s[i] == 0
    ensures BVal(s, b) == 0
  {
    if s != [] { BZero(s[..|s| - 1], b); }
  }

  /** Leading zeros do not count. */
  lemma BTrim(s: seq<nat>, k: nat, b: nat)
    requires k <= |s| && forall i | 0 <= i < k :: s[i] == 0
    ensures BVal(s, b) == BVal(s[k..], b)
  {
    assert s == s[..k] + s[k..];
    BConcat(s[..k], s[k..], b);
    BZero(s[..k], b);
  }

  /** Without leading zeros the length is that of the number. */
  lemma BLength(s: seq<nat>, b: nat)
    requires s != [] && s[0] != 0 && Below(s, b)
    ensures Pow(b, |s| - 1) <= BVal(s, b) < Pow(b, |s|)
  {
    assert s == [s[0]] + s[1..];
    BCons(s[0], s[1..], b);
    BBound(s, b);
    PowPos(b, |s| - 1);
    MulLe(1, s[0], Pow(b, |s| - 1));
  }

  lemma ModHigh(v: int, t: int, p: int, q: int)
    requires 0 <= v < p && 0 < q && 0 <= t
    ensures 0 < q * p && (v + t * p) % (q * p) == v + (t % q) * p
  {
    var h, l := t / q, t % q;
    assert t == h * q + l;
    assert (h * q + l) * p == h * (q * p) + l * p;
    MulLe(l + 1, q, p);
    assert (l + 1) * p == l * p + p;
    MulLe(0, l, p);
    MulLt(0, q, p);
    DivModUnique(v + t * p, q * p, h, v + l * p);
  }
}
