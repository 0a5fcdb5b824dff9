/** Single-pass operations on digit arrays: Knuth's Algorithms A and S, comparison, copying. */
module Linear {
  import opened Arith
  import opened Digits
  import opened Value

  /** Every digit outside `[lo, hi)` is the same in both. */
  ghost predicate SameOutside(s: seq<Digit>, t: seq<Digit>, lo: nat, hi: nat) {
    |s| == |t| && forall i | 0 <= i < |s| && !(lo <= i < hi) :: s[i] == t[i]
  }

  lemma ValEmpty(s: seq<Digit>, lo: nat)
    requires lo <= |s|
    ensures Val(s, lo, lo) == 0 && P(0) == 1
  {}

  /** The digits of `w` written so far and the carry `k` hold the sum of the digits of `u` and `v` read so far. */
  lemma AddStep(w: seq<Digit>, w': seq<Digit>, wo: nat, u: seq<Digit>, uo: nat, v: seq<Digit>, j: nat, k: int, k': int)
    requires wo + j < |w| == |w'| && uo + j < |u| && j < |v|
    requires forall i | wo <= i < wo + j :: w[i] == w'[i]
    requires Val(w, wo, wo + j) + k * P(j) == Val(u, uo, uo + j) + Val(v, 0, j)
    requires w'[wo + j] + k' * BASE == u[uo + j] + v[j] + k
    ensures Val(w', wo, wo + j + 1) + k' * P(j + 1) == Val(u, uo, uo + j + 1) + Val(v, 0, j + 1)
  {
    hide Val, P;
    ValExtend(w, w', wo, wo + j);
    ValExtend(u, u, uo, uo + j);
    ValExtend(v, v, 0, j);
    PStep(j);
    Spread(u[uo + j], v[j], P(j));
    CarryStep(Val(w, wo, wo + j), k, Val(u, uo, uo + j) + Val(v, 0, j), w'[wo + j], k', u[uo + j] as int + v[j] as int,
      P(j));
  }

  /** mpAdd on the digits at `w + wo`, `u + uo` and `v`; `w` may be `u` itself. */
  method MpAdd(w: array<Digit>, wo: nat, u: array<Digit>, uo: nat, v: array<Digit>, n: nat) returns (k: Digit)
    requires w != v && (w == u ==> wo == uo)
    requires wo + n <= w.Length && uo + n <= u.Length && n <= v.Length
    modifies w
    ensures k <= 1
    ensures Val(w[..], wo, wo + n) + k * P(n) == old(Val(u[..], uo, uo + n)) + old(Val(v[..], 0, n))
    ensures SameOutside(w[..], old(w[..]), wo, wo + n)
  {
    hide Val, P;
    ghost var us, vs := u[..], v[..];
    Sizes();
    ValEmpty(w[..], wo);
    ValEmpty(us, uo);
    ValEmpty(vs, 0);
    k := 0;
    for j := 0 to n
      invariant k <= 1
      invariant Val(w[..], wo, wo + j) + k * P(j) == Val(us, uo, uo + j) + Val(vs, 0, j)
      invariant SameOutside(w[..], old(w[..]), wo, wo + j)
    {
      ghost var before, k0 := w[..], k;
      var vj := v[j];
      assert u[uo + j] == us[uo + j] && vj == vs[j];
      w[wo + j] := AddW(u[uo + j], k);
      k := if w[wo + j] < k then 1 else 0;
      w[wo + j] := AddW(w[wo + j], vj);
      if w[wo + j] < vj {
        k := k + 1;
      }
      AddStep(before, w[..], wo, us, uo, vs, j, k0, k);
    }
  }

  lemma SubStep(w: seq<Digit>, w': seq<Digit>, u: seq<Digit>, v: seq<Digit>, j: nat, k: int, k': int)
    requires j < |w| == |w'| && j < |u| && j < |v|
    requires forall i | 0 <= i < j :: w[i] == w'[i]
    requires Val(w, 0, j) - k * P(j) == Val(u, 0, j) - Val(v, 0, j)
    requires w'[j] - k' * BASE == u[j] - v[j] - k
    ensures Val(w', 0, j + 1) - k' * P(j + 1) == Val(u, 0, j + 1) - Val(v, 0, j + 1)
  {
    hide Val, P;
    ValExtend(w, w', 0, j);
    ValExtend(u, u, 0, j);
    ValExtend(v, v, 0, j);
    PStep(j);
    SpreadDifference(u[j], v[j], P(j));
    Negate(k, P(j));
    Negate(k', P(j + 1));
    CarryStep(Val(w, 0, j), -k, Val(u, 0, j) - Val(v, 0, j), w'[j], -k', u[j] as int - v[j] as int, P(j));
  }

  lemma SpreadDifference(a: int, b: int, p: int)
    ensures (a - b) * p == a * p - b * p
  {}

  lemma Negate(a: int, p: int)
    ensures -a * p == -(a * p)
  {
  }

  /** mpSubtract; the borrow is 1 exactly when `v` exceeds `u`. */
  method MpSubtract(w: array<Digit>, u: array<Digit>, v: array<Digit>, n: nat) returns (k: Digit)
    requires w != v
    requires n <= w.Length && n <= u.Length && n <= v.Length
    modifies w
    ensures k == if old(Num(u, n)) < old(Num(v, n)) then 1 else 0
    ensures Num(w, n) == old(Num(u, n)) - old(Num(v, n)) + k * P(n)
    ensures SameOutside(w[..], old(w[..]), 0, n)
  {
    hide Val, P;
    ghost var us, vs := u[..], v[..];
    Sizes();
    ValEmpty(w[..], 0);
    ValEmpty(us, 0);
    ValEmpty(vs, 0);
    k := 0;
    for j := 0 to n
      invariant k <= 1
      invariant Val(w[..], 0, j) - k * P(j) == Val(us, 0, j) - Val(vs, 0, j)
      invariant SameOutside(w[..], old(w[..]), 0, j)
    {
      ghost var before, k0 := w[..], k;
      var vj := v[j];
      assert u[j] == us[j] && vj == vs[j];
      w[j] := SubW(u[j], k);
      k := if w[j] > MAX_DIGIT - k then 1 else 0;
      w[j] := SubW(w[j], vj);
      if w[j] > MAX_DIGIT - vj {
        k := k + 1;
      }
      SubStep(before, w[..], us, vs, j, k0, k);
    }
    ValBound(w[..], 0, n);
    assert k * P(n) == if k == 0 then 0 else P(n);
  }

  /** The number held in the first `n` digits of `a`. */
  ghost function Num(a: array<Digit>, n: nat): nat
    requires n <= a.Length
    reads a
  {
    Val(a[..], 0, n)
  }

  lemma ShortStep(w: seq<Digit>, w': seq<Digit>, u: seq<Digit>, j: nat, c: int, k: int, k': int)
    requires j < |w| == |w'| && j < |u|
    requires forall i | 0 <= i < j :: w[i] == w'[i]
    requires Val(w, 0, j) + k * P(j) == Val(u, 0, j) + c
    requires w'[j] + k' * BASE == u[j] + k
    ensures Val(w', 0, j + 1) + k' * P(j + 1) == Val(u, 0, j + 1) + c
  {
    hide Val, P;
    ValExtend(w, w', 0, j);
    ValExtend(u, u, 0, j);
    PStep(j);
    CarryStep(Val(w, 0, j), k, Val(u, 0, j) + c, w'[j], k', u[j] as int, P(j));
  }

  lemma ShortStart(w: seq<Digit>, u: seq<Digit>, c: int, k: int)
    requires 0 < |w| && 0 < |u|
    requires w[0] + k * BASE == u[0] + c
    ensures Val(w, 0, 1) + k * P(1) == Val(u, 0, 1) + c
  {
    PStep(0);
    ValEmpty(w, 0);
    ValEmpty(u, 0);
    assert Val(w, 0, 1) == Val(w, 0, 0) + w[0] * P(0);
    assert Val(u, 0, 1) == Val(u, 0, 0) + u[0] * P(0);
  }

  /** mpShortAdd: add a single digit, in place or into another array. */
  method MpShortAdd(w: array<Digit>, u: array<Digit>, v: Digit, n: nat) returns (k: Digit)
    requires 1 <= n <= w.Length && n <= u.Length
    modifies w
    ensures k <= 1 && Num(w, n) + k * P(n) == old(Num(u, n)) + v
    ensures SameOutside(w[..], old(w[..]), 0, n)
  {
    hide Val, P;
    ghost var us := u[..];
    Sizes();
    w[0] := AddW(u[0], v);
    k := if w[0] < v then 1 else 0;
    ShortStart(w[..], us, v, k);
    for j := 1 to n
      invariant k <= 1
      invariant Val(w[..], 0, j) + k * P(j) == Val(us, 0, j) + v
      invariant SameOutside(w[..], old(w[..]), 0, j)
    {
      ghost var before, k0 := w[..], k;
      assert u[j] == us[j];
      w[j] := AddW(u[j], k);
      k := if w[j] < k then 1 else 0;
      ShortStep(before, w[..], us, j, v, k0, k);
    }
  }

  lemma BorrowStep(w: seq<Digit>, w': seq<Digit>, u: seq<Digit>, j: nat, c: int, k: int, k': int)
    requires j < |w| == |w'| && j < |u|
    requires forall i | 0 <= i < j :: w[i] == w'[i]
    requires Val(w, 0, j) - k * P(j) == Val(u, 0, j) - c
    requires w'[j] - k' * BASE == u[j] - k
    ensures Val(w', 0, j + 1) - k' * P(j + 1) == Val(u, 0, j + 1) - c
  {
    hide Val, P;
    Negate(k, P(j));
    Negate(k', P(j + 1));
    Negate(k', BASE);
    ShortStep(w, w', u, j, -c, -k, -k');
  }

  /** mpShortSub: the borrow is 1 exactly when the digit exceeds the number. */
  method MpShortSub(w: array<Digit>, u: array<Digit>, v: Digit, n: nat) returns (k: Digit)
    requires 1 <= n <= w.Length && n <= u.Length
    modifies w
    ensures k == if old(Num(u, n)) < v then 1 else 0
    ensures Num(w, n) == old(Num(u, n)) - v + k * P(n)
    ensures SameOutside(w[..], old(w[..]), 0, n)
  {
    hide Val, P;
    ghost var us := u[..];
    Sizes();
    w[0] := SubW(u[0], v);
    k := if w[0] > MAX_DIGIT - v then 1 else 0;
    ShortStart(w[..], us, -(v as int), -(k as int));
    assert Val(w[..], 0, 1) - k * P(1) == Val(us, 0, 1) - v;
    for j := 1 to n
      invariant k <= 1
      invariant Val(w[..], 0, j) - k * P(j) == Val(us, 0, j) - v
      invariant SameOutside(w[..], old(w[..]), 0, j)
    {
      ghost var before, k0 := w[..], k;
      assert u[j] == us[j];
      w[j] := SubW(u[j], k);
      k := if w[j] > MAX_DIGIT - k then 1 else 0;
      BorrowStep(before, w[..], us, j, v, k0, k);
    }
    ValBound(w[..], 0, n);
    assert k * P(n) == if k == 0 then 0 else P(n);
  }

  /** mpCompare: the sign of `a - b`. */
  method MpCompare(a: array<Digit>, b: array<Digit>, n: nat) returns (c: int)
    requires n <= a.Length && n <= b.Length
    ensures c == if Num(a, n) < Num(b, n) then -1 else if Num(a, n) > Num(b, n) then 1 else 0
  {
    hide Val, P;
    var i := n;
    while i != 0
      invariant 0 <= i <= n
      invariant forall k | i <= k < n :: a[..][k] == b[..][k]
    {
      i := i - 1;
      assert a[i] == a[..][i] && b[i] == b[..][i];
      if a[i] > b[i] {
        ValLess(b[..], a[..], i, n);
        return 1;
      }
      if a[i] < b[i] {
        ValLess(a[..], b[..], i, n);
        return -1;
      }
    }
    ValSame(a[..], 0, b[..], 0, n);
    return 0;
  }

  /** mpIsZero: -1 for an empty array, otherwise whether the number is zero. */
  method MpIsZero(a: array<Digit>, n: nat) returns (z: int)
    requires n <= a.Length
    ensures z == if n == 0 then -1 else if Num(a, n) == 0 then 1 else 0
  {
    if n == 0 { return -1; }
    ValZero(a[..], 0, n);
    for i := 0 to n
      invariant forall k | 0 <= k < i :: a[..][k] == 0
    {
      assert a[i] == a[..][i];
      if a[i] != 0 { return 0; }
    }
    return 1;
  }

  /** mpSizeof: the number of significant digits. */
  method MpSizeof(a: array<Digit>, n: nat) returns (k: nat)
    requires n <= a.Length
    ensures k <= n && Num(a, n) == Num(a, k)
    ensures k > 0 ==> a[k - 1] != 0 && Num(a, n) >= P(k - 1)
  {
    hide Val, P;
    k := n;
    while k != 0
      invariant k <= n
      invariant forall i | k <= i < n :: a[..][i] == 0
    {
      assert a[k - 1] == a[..][k - 1];
      if a[k - 1] != 0 {
        ValTop(a[..], 0, k);
        break;
      }
      k := k - 1;
    }
    ValTrim(a[..], 0, k, n);
  }

  method MpSetEqual(a: array<Digit>, b: array<Digit>, n: nat)
    requires n <= a.Length && n <= b.Length
    modifies a
    ensures Num(a, n) == old(Num(b, n))
    ensures forall i | 0 <= i < n :: a[i] == old(b[i])
    ensures SameOutside(a[..], old(a[..]), 0, n)
  {
    hide Val;
    for i := 0 to n
      invariant forall k | 0 <= k < i :: a[..][k] == old(b[..])[k]
      invariant SameOutside(a[..], old(a[..]), 0, i)
    {
      assert b[i] == old(b[..])[i];
      a[i] := b[i];
    }
    ValSame(a[..], 0, old(b[..]), 0, n);
    assert forall i | 0 <= i < n :: a[i] == a[..][i];
  }

  method MpSetZero(a: array<Digit>, n: nat)
    requires n <= a.Length
    modifies a
    ensures Num(a, n) == 0
    ensures forall i | 0 <= i < n :: a[i] == 0
    ensures SameOutside(a[..], old(a[..]), 0, n)
  {
    hide Val;
    Sizes();
    var k: nat := n;
    while k != 0
      invariant k <= n
      invariant forall i | k <= i < n :: a[..][i] == 0
      invariant SameOutside(a[..], old(a[..]), k, n)
    {
      k := k - 1;
      a[k] := 0;
    }
    ValZero(a[..], 0, n);
    assert forall i | 0 <= i < n :: a[i] == a[..][i];
  }

  method MpSetDigit(a: array<Digit>, d: Digit, n: nat)
    requires 1 <= n <= a.Length
    modifies a
    ensures Num(a, n) == d
    ensures SameOutside(a[..], old(a[..]), 0, n)
  {
    hide Val, P;
    Sizes();
    for i := 1 to n
      invariant forall k | 1 <= k < i :: a[..][k] == 0
      invariant SameOutside(a[..], old(a[..]), 1, i)
    {
      a[i] := 0;
    }
    a[0] := d;
    ValLow(a[..], 0, n);
    ValZero(a[..], 1, n);
  }

  /** mpShortCmp: the sign of `a - d`, also for an empty `a`. */
  method MpShortCmp(a: array<Digit>, d: Digit, n: nat) returns (c: int)
    requires n <= a.Length
    ensures c == if Num(a, n) < d then -1 else if Num(a, n) > d then 1 else 0
  {
    hide Val, P;
    if n == 0 {
      ValEmpty(a[..], 0);
      return if d != 0 then -1 else 0;
    }
    ValLow(a[..], 0, n);
    ValZero(a[..], 1, n);
    for i := 1 to n
      invariant forall k | 1 <= k < i :: a[..][k] == 0
    {
      assert a[i] == a[..][i];
      if a[i] != 0 {
        MulLe(1, Val(a[..], 1, n), BASE);
        return 1;
      }
    }
    assert a[0] == a[..][0];
    if a[0] < d { return -1; }
    if a[0] > d { return 1; }
    return 0;
  }
}
