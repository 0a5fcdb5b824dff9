/** Walking the bits of a number from the top, as the exponentiation routines do. */
module ExponentBits {
  import opened Arith
  import opened Digits
  import opened Value
  import opened Linear
  import opened Shift
  import opened ShortDivide

  /** Bits still to be read when bit `bit` of digit `n - 1` is next. */
  function Pos(bit: nat, n: nat): nat {
    if n == 0 then 0 else (n - 1) * BITS + bit + 1
  }

  /** mpNEXTBITMASK, the mask standing at bit `bit`. */
  function NextBit(bit: nat, n: nat): (r: (nat, nat))
    requires bit < BITS && (n > 0 || bit > 0)
    ensures r.0 < BITS && r.1 <= n
    ensures n > 0 ==> Pos(r.0, r.1) == Pos(bit, n) - 1
    ensures n > 0 && r.1 == 0 ==> r.0 == BITS - 1
    ensures n == 0 ==> r == (bit - 1, 0)
  {
    if bit == 0 then
      assert n > 1 ==> (n - 1) * BITS == (n - 2) * BITS + BITS;
      (BITS - 1, n - 1)
    else (bit - 1, n)
  }

  /** The number formed by the bits of `e` already read when `pos` remain. */
  function Prefix(e: nat, pos: nat): nat {
    e / Pow2(pos)
  }

  lemma PrefixStep(e: nat, pos: nat)
    requires pos > 0
    ensures Prefix(e, pos - 1) == 2 * Prefix(e, pos) + (if Bit(e, pos - 1) then 1 else 0)
  {
    Pow2Add(pos - 1, 1);
    assert Pow2(1) == 2;
    DivDiv(e, Pow2(pos - 1), 2);
  }

  /** The bit tested in the digit is the bit of the number. */
  lemma BitOfNumber(e: seq<Digit>, len: nat, bit: nat, n: nat)
    requires 0 < n <= len <= |e| && bit < BITS
    ensures Bit(e[n - 1], bit) <==> Bit(Val(e, 0, len), Pos(bit, n) - 1)
  {
    hide Val, P, Bit;
    ValSplit(e, 0, n - 1, len);
    ValLow(e, n - 1, len);
    ValBound(e, 0, n - 1);
    WholeDigits(n - 1);
    Pow2Add((n - 1) * BITS, bit);
    BitSplit(bit);
    Pow2Add(BITS - bit - 1, 1);
    BitArith(Val(e, 0, n - 1), P(n - 1), e[n - 1], Val(e, n, len), bit, Pow2(BITS - bit - 1), (n - 1) * BITS + bit);
  }

  lemma HighDigits(d: nat, q: nat, half: nat, hi: nat)
    requires q > 0
    ensures d + q * (half * 2) * hi == (d / q + half * hi * 2) * q + d % q
  {
    assert d == (d / q) * q + d % q;
    Spread(d / q, half * hi * 2, q);
    assert q * (half * 2) * hi == (half * hi * 2) * q;
  }

  lemma BitArith(low: nat, p: nat, d: Digit, hi: nat, bit: nat, half: nat, k: nat)
    requires low < p && BASE == Pow2(bit) * (half * 2) && Pow2(k) == p * Pow2(bit)
    ensures 0 <= low + p * (d + BASE * hi)
    ensures Bit(d, bit) <==> Bit(low + p * (d + BASE * hi), k)
  {
    hide Pow;
    var e, q := d + BASE * hi, Pow2(bit);
    PowPos(2, bit);
    MulLe(0, e, p);
    Assoc(e, p, 1);
    DivModUnique(low + p * e, p, e, low);
    DivDiv(low + p * e, p, q);
    HighDigits(d, q, half, hi);
    DivModUnique(e, q, d / q + half * hi * 2, d % q);
    ModOfMultiple(half * hi, 2, d / q);
  }

  /** The first set bit of a digit, searching from the top. */
  method FindTopBit(d: Digit) returns (bit: nat)
    requires d != 0
    ensures bit < BITS && Pow2(bit) <= d < Pow2(bit + 1)
  {
    hide Pow2, Bit;
    bit := BITS - 1;
    assert d < Pow2(BITS - 1 + 1);
    while !Bit(d, bit)
      invariant bit < BITS && d < Pow2(bit + 1)
      decreases bit
    {
      BitTop(d, bit);
      Pow2Add(0, 0);
      bit := bit - 1;
    }
    BitTop(d, bit);
  }

  /** At the most significant set bit exactly the leading 1 is about to be read. */
  lemma TopPrefix(e: seq<Digit>, len: nat, bit: nat, n: nat)
    requires 0 < n <= len <= |e| && bit < BITS && Val(e, 0, len) == Val(e, 0, n)
    requires Pow2(bit) <= e[n - 1] < Pow2(bit + 1)
    ensures Prefix(Val(e, 0, len), Pos(bit, n) - 1) == 1 && Prefix(Val(e, 0, len), Pos(bit, n)) == 0
  {
    hide Val, P, Prefix, Pow2;
    ValSplit(e, 0, n - 1, n);
    ValLow(e, n - 1, n);
    ValEmpty(e, n);
    ValBound(e, 0, n - 1);
    WholeDigits(n - 1);
    TopPrefixAt(Val(e, 0, n - 1), P(n - 1), e[n - 1], bit, (n - 1) * BITS);
  }

  lemma TopPrefixAt(low: nat, p: nat, d: nat, bit: nat, k: nat)
    requires low < p == Pow2(k) && Pow2(bit) <= d < Pow2(bit + 1)
    ensures 0 <= low + p * d && Prefix(low + p * d, k + bit) == 1 && Prefix(low + p * d, k + bit + 1) == 0
  {
    hide Pow2;
    Pow2Add(k, bit);
    Pow2Add(k, bit + 1);
    assert Pow2(bit + 1) == Pow2(bit) * 2 by { Pow2Add(bit, 1); Pow2Add(0, 0); Double(); }
    MulLe(0, d, p);
    TopArith(low, p, d, Pow2(bit));
  }

  lemma Double()
    ensures Pow2(1) == 2
  {}

  lemma TopArith(low: nat, p: nat, d: nat, q: nat)
    requires low < p && q <= d < q * 2
    ensures p * q > 0 && (low + p * d) / (p * q) == 1 && (low + p * d) / (p * (q * 2)) == 0
  {
    MulLe(q, d, p);
    MulLe(d + 1, q * 2, p);
    assert p * (q * 2) == 2 * (p * q);
    DivModUnique(low + p * d, p * q, 1, low + p * d - p * q);
    DivModUnique(low + p * d, p * (q * 2), 0, low + p * d);
  }

  /** mpBitLength: the number of significant bits. */
  method MpBitLength(d: array<Digit>, len: nat) returns (bits: nat)
    requires len <= d.Length
    ensures bits == 0 <==> Num(d, len) == 0
    ensures bits > 0 ==> Prefix(Num(d, len), bits - 1) == 1
    ensures Prefix(Num(d, len), bits) == 0
  {
    hide Val, P, Prefix;
    var n := MpSizeof(d, len);
    if n == 0 {
      ValEmpty(d[..], 0);
      ZeroPrefix(0);
      return 0;
    }
    var bit := FindTopBit(d[n - 1]);
    assert d[n - 1] == d[..][n - 1];
    TopPrefix(d[..], len, bit, n);
    ZeroPrefix(Pos(bit, n) - 1);
    bits := Pos(bit, n);
  }

  lemma ZeroPrefix(pos: nat)
    ensures Prefix(0, pos) == 0
  {
    DivModUnique(0, Pow2(pos), 0, 0);
  }
}
