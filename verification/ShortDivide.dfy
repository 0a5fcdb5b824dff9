/** Division of a number by one digit (Knuth volume 2, section 4.3.1, exercise 16). */
module ShortDivide {
  import opened Arith
  import opened Digits
  import opened Value
  import opened Linear
  import opened Shift
  import opened SinglePrecision

  lemma BitTop(v: nat, k: nat)
    requires v < Pow2(k + 1)
    ensures Bit(v, k) <==> v >= Pow2(k)
  {
    var p := Pow2(k);
    assert Pow2(k + 1) == 2 * p;
    DivModUnique(v, p, if v < p then 0 else 1, if v < p then v else v - p);
  }

  /** The normalising loop: the left shift that brings the highest set bit to the top. */
  method FindShift(v: Digit) returns (shift: nat)
    requires v != 0
    ensures shift < BITS && v * Pow2(shift) < BASE <= 2 * (v * Pow2(shift))
    ensures v < Pow2(BITS - shift)
  {
    hide Pow2, Bit;
    shift := 0;
    while shift < BITS && !Bit(v, BITS - 1 - shift)
      invariant shift <= BITS && v < Pow2(BITS - shift)
    {
      BitTop(v, BITS - 1 - shift);
      shift := shift + 1;
    }
    if shift == BITS {
      Pow2Add(0, 0);
    } else {
      BitTop(v, BITS - 1 - shift);
      NormalShift(v, shift);
    }
  }

  lemma NormalShift(v: int, shift: nat)
    requires shift < BITS && Pow2(BITS - 1 - shift) <= v < Pow2(BITS - shift)
    ensures v * Pow2(shift) < BASE <= 2 * (v * Pow2(shift))
  {
    var p := Pow2(shift);
    Pow2Add(BITS - shift, shift);
    Pow2Add(BITS - 1 - shift, shift);
    Pow2Add(BITS - 1, 1);
    MulLt(v, Pow2(BITS - shift), p);
    MulLe(Pow2(BITS - 1 - shift), v, p);
  }

  /** Undoing the normalisation of dividend and divisor by the common factor `p`. */
  lemma Unnormalise(u: int, v: int, p: int, q: int, r: int)
    requires p > 0 && u * p == q * (v * p) + r && 0 <= r < v * p
    ensures r / p == u - q * v && 0 <= u - q * v < v
  {
    var d := u - q * v;
    assert q * (v * p) == q * v * p;
    assert r == d * p + 0;
    DivModUnique(r, p, d, 0);
    CancelLt(d, v, p);
    if d < 0 { MulLe(d, -1, p); }
  }

  lemma DivStep(q: seq<Digit>, q': seq<Digit>, uu: seq<Digit>, top: int, j: nat, n: nat, v: int, r: int, r': int)
    requires j < n <= |q| == |q'| && n <= |uu|
    requires forall i | j < i < n :: q[i] == q'[i]
    requires top * P(n - j - 1) + Val(uu, j + 1, n) == Val(q, j + 1, n) * v + r
    requires r * BASE + uu[j] == q'[j] * v + r'
    ensures top * P(n - j) + Val(uu, j, n) == Val(q', j, n) * v + r'
  {
    hide Val, P;
    PStep(n - j - 1);
    ValLow(uu, j, n);
    ValLow(q', j, n);
    ValSame(q, j + 1, q', j + 1, n - j - 1);
    DivCombine(top, P(n - j - 1), Val(uu, j + 1, n), Val(q, j + 1, n), v, r, uu[j], q'[j], r');
  }

  lemma DivCombine(top: int, p: int, h: int, q: int, v: int, r: int, d: int, e: int, r': int)
    requires top * p + h == q * v + r && r * BASE + d == e * v + r'
    ensures top * (BASE * p) + (d + BASE * h) == (e + BASE * q) * v + r'
  {
    assert (top * p + h) * BASE == top * (BASE * p) + BASE * h;
    assert (q * v + r) * BASE == BASE * q * v + r * BASE;
  }

  /** A double digit whose high half is below the divisor has a one-digit quotient. */
  lemma QuotientFits(u0: Digit, u1: int, v: int, q: int, r: int)
    requires 0 <= u1 < v && u1 * BASE + u0 == q * v + r && 0 <= r
    ensures q < BASE
  {
    MulLe(u1, v - 1, BASE);
    CancelLt(q, BASE, v);
  }

  /** mpShortDiv: quotient in `q`, remainder returned; a zero divisor leaves `q` alone. */
  method MpShortDiv(q: array<Digit>, u: array<Digit>, v: Digit, n: nat) returns (r: Digit)
    requires n <= q.Length && n <= u.Length
    modifies q
    ensures v == 0 ==> r == 0 && q[..] == old(q[..])
    ensures v != 0 ==> r < v && old(Num(u, n)) == Num(q, n) * v + r
    ensures SameOutside(q[..], old(q[..]), 0, n)
  {
    hide Val, P, Pow2;
    Sizes();
    if n == 0 {
      ValEmpty(u[..], 0);
      ValEmpty(q[..], 0);
      return 0;
    }
    if v == 0 {
      return 0;
    }
    ghost var x := Num(u, n);
    var shift := FindShift(v);
    var vv: Digit := v * Pow2(shift);
    DivModUnique(shift, BITS, 0, shift);
    var overflow := MpShiftLeft(q, u, shift, n);
    ghost var uu := q[..];
    r := overflow;
    assert r < vv by { MulLe(1, v, Pow2(shift)); }
    ValEmpty(uu, n);
    ValEmpty(q[..], n);
    var j: nat := n;
    while j != 0
      invariant j <= n && r < vv
      invariant overflow * P(n - j) + Val(uu, j, n) == Val(q[..], j, n) * vv + r
      invariant SameOutside(q[..], uu, j, n)
    {
      j := j - 1;
      ghost var before, r0 := q[..], r;
      assert q[j] == uu[j];
      var d, r', q2 := SpDivide(q[j], r, vv);
      QuotientFits(uu[j], r0, vv, q2 * BASE + d, r');
      q[j] := d;
      r := r';
      DivStep(before, q[..], uu, overflow, j, n, vv, r0, r);
    }
    Unnormalise(x, v, Pow2(shift), Num(q, n), r);
    r := r / Pow2(shift);
  }
}
