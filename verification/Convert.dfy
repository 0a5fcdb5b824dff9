/** Conversion between big digits, octets and strings of digits in base 10 or 16. */
module Convert {
  import opened Arith
  import opened Digits
  import opened Value
  import opened Linear
  import opened ExponentBits
  import opened Positional
  import opened RadixStrings
  import opened DecimalLengths
  import opened Shift

  type Octet = d: nat | d < 256

  /** Octets to a digit. */
  const BYTES: nat := BITS / 8

  lemma ByteSizes()
    ensures BITS == 8 * BYTES && BYTES > 0
  {}

  lemma {:induction false} BytePowers(m: nat)
    ensures Pow2(8 * m) == Pow(256, m)
  {
    PowPow(2, 8, m);
    EightBits();
  }

  lemma EightBits()
    ensures Pow(2, 8) == 256
  {
    PowAdd(2, 4, 4);
  }

  lemma DigitPowers(n: nat)
    ensures P(n) == Pow(256, n * BYTES)
  {
    ByteSizes();
    BytePowers(n * BYTES);
    WholeDigits(n);
    assert n * BITS == 8 * (n * BYTES);
  }

  /**
   * The inner loop of the conversions, over the digits from the last to the first: multiplied by `mul` and
   * increased by `add`, modulo the room there is.
   */
  method MulAdd(d: array<Octet>, mul: nat, add: nat, b: nat)
    requires 2 <= b <= 256 && Below(d[..], b)
    modifies d
    ensures Below(d[..], b) && BVal(d[..], b) == (old(BVal(d[..], b)) * mul + add) % Span(b, d.Length)
  {
    hide BVal, Span, Pow, Multiplied;
    ghost var was, n := d[..], d.Length;
    var t: nat := add;
    var j: nat := d.Length;
    MulStart(was, mul, add, b);
    while j > 0
      invariant j <= n && Below(d[..], b) && Multiplied(d[..], was, j, t, mul, add, b)
      decreases j
    {
      ghost var before := d[..];
      var x: nat, carry: nat := CarryDigit(t, d[j - 1], mul, b);
      d[j - 1] := x;
      MulStep(before, d[..], was, j, t, x, carry, mul, add, b);
      t := carry;
      j := j - 1;
    }
    MulDone(d[..], was, t, mul, add, b);
  }

  method CarryDigit(t: nat, d: nat, mul: nat, b: nat) returns (x: nat, carry: nat)
    requires b >= 1
    ensures x == (t + d * mul) % b && carry == (t + d * mul) / b && x < b
  {
    var s: nat := t + d * mul;
    x, carry := s % b, s / b;
  }

  /** The digits from `j` on are done, and `t` is carried to the ones before. */
  ghost predicate Multiplied(d: seq<nat>, was: seq<nat>, j: nat, t: nat, mul: nat, add: nat, b: nat) {
    && |d| == |was| && j <= |d| && Below(d, b) && d[..j] == was[..j]
    && BVal(d[j..], b) + t * Pow(b, |d| - j) == BVal(was[j..], b) * mul + add
  }

  lemma MulStart(was: seq<nat>, mul: nat, add: nat, b: nat)
    requires Below(was, b)
    ensures Multiplied(was, was, |was|, add, mul, add, b)
  {
    assert was[|was|..] == [];
    BEmpty(b);
  }

  lemma MulStep(d: seq<nat>, d': seq<nat>, was: seq<nat>, j: nat, t: nat, x: nat, t': nat, mul: nat, add: nat, b: nat)
    requires 0 < j <= |d| && b > 0 && Multiplied(d, was, j, t, mul, add, b) && d' == d[j - 1 := x]
    requires x == (t + d[j - 1] * mul) % b && t' == (t + d[j - 1] * mul) / b
    ensures Multiplied(d', was, j - 1, t', mul, add, b)
  {
    hide BVal, Pow;
    var y := was[j - 1];
    assert d[..j][j - 1] == was[..j][j - 1] == y;
    assert d'[j - 1..] == [x] + d[j..] && was[j - 1..] == [y] + was[j..];
    BCons(x, d[j..], b);
    BCons(y, was[j..], b);
    CarryOn(BVal(d[j..], b), t, BVal(was[j..], b), y, mul, add, b, Pow(b, |d| - j), x, t');
    PowNext(b, |d| - j);
    assert d'[..j - 1] == d[..j][..j - 1];
  }

  lemma MulDone(d: seq<nat>, was: seq<nat>, t: nat, mul: nat, add: nat, b: nat)
    requires Multiplied(d, was, 0, t, mul, add, b) && b >= 1
    ensures BVal(d, b) == (BVal(was, b) * mul + add) % Span(b, |d|)
  {
    hide BVal, Pow;
    assert d[0..] == d && was[0..] == was;
    BBound(d, b);
    DivModUnique(BVal(was, b) * mul + add, Pow(b, |d|), t, BVal(d, b));
  }

  lemma CarryOn(low: int, t0: int, w: int, x: int, mul: int, add: int, b: int, p: int, d: int, t: int)
    requires low + t0 * p == w * mul + add && b > 0 && t0 + x * mul >= 0
    requires d == (t0 + x * mul) % b && t == (t0 + x * mul) / b
    ensures (d * p + low) + t * (b * p) == (x * p + w) * mul + add
  {
    var s := t0 + x * mul;
    assert s == b * t + d;
    assert (b * t + d) * p == t * (b * p) + d * p;
    assert (t0 + x * mul) * p == t0 * p + x * mul * p;
    assert (x * p + w) * mul == x * mul * p + w * mul;
  }

  /** `t | octet << k` while `t` has only `k` bits. */
  lemma OrOctet(c: Octet, t: nat, m: nat)
    requires t < Pow(256, m)
    ensures 0 <= c * Pow2(8 * m) && BitOr(c * Pow2(8 * m), t) == c * Pow(256, m) + t < Pow(256, m + 1)
  {
    BytePowers(m);
    OrDisjoint(c, t, 8 * m, Pow2(8 * m));
    MulLe(c + 1, 256, Pow(256, m));
    assert (c + 1) * Pow(256, m) == c * Pow(256, m) + Pow(256, m);
  }

  lemma WithinDigit(t: nat, m: nat)
    requires t < Pow(256, m) && m <= BYTES
    ensures t < BASE
  {
    ByteSizes();
    PowMono(256, m, BYTES);
    BytePowers(BYTES);
  }

  lemma OneOctet(c: Octet, low: seq<Octet>, t: nat, m: nat)
    requires m == |low| < BYTES && t == BVal(low, 256) < Pow(256, m)
    ensures 0 <= c * Pow2(8 * m) && BitOr(c * Pow2(8 * m), t) == BVal([c] + low, 256) < Pow(256, m + 1)
    ensures BitOr(c * Pow2(8 * m), t) < BASE
  {
    hide BVal, Pow, Pow2, BitOr;
    OrOctet(c, t, m);
    BCons(c, low, 256);
    WithinDigit(c * Pow(256, m) + t, m + 1);
  }

  /** The octets of one digit, taken from the end. */
  method TakeDigit(c: array<Octet>, end: nat) returns (t: Digit, j: nat)
    requires end <= c.Length
    ensures j == (if end < BYTES then 0 else end - BYTES) && t == BVal(c[j..end], 256)
  {
    hide BVal, Pow, Pow2, BitOr;
    Sizes();
    ByteSizes();
    t := 0;
    j := end;
    var k := 0;
    ghost var all := c[..end];
    assert all[end..] == [];
    BEmpty(256);
    while j > 0 && k < BITS
      invariant j <= end && k == 8 * (end - j) && t == BVal(all[j..], 256) < Pow(256, end - j)
      invariant end - j <= BYTES
    {
      var d := c[j - 1];
      assert all[j - 1..] == [d] + all[j..];
      OneOctet(d, all[j..], t, end - j);
      t := BitOr(d * Pow2(k), t);
      j := j - 1;
      k := k + 8;
    }
    assert all[j..] == c[j..end];
  }

  lemma TakeStep(w: seq<Digit>, w': seq<Digit>, i: nat, c: seq<Octet>, j: nat, mid: nat, end: nat)
    requires i < |w| == |w'| && (forall k | 0 <= k < i :: w[k] == w'[k]) && j <= mid <= end <= |c|
    requires end - mid == i * BYTES && Val(w, 0, i) == BVal(c[mid..end], 256) && w'[i] == BVal(c[j..mid], 256)
    ensures Val(w', 0, i + 1) == BVal(c[j..end], 256)
  {
    hide BVal, Val, P;
    ValExtend(w, w', 0, i);
    DigitPowers(i);
    assert c[j..end] == c[j..mid] + c[mid..end];
    BConcat(c[j..mid], c[mid..end], 256);
  }

  /** Which octets were taken decides what fits. */
  lemma TakenAll(c: seq<Octet>, j: nat, i: nat, n: nat)
    requires j <= |c| && |c| - j <= i * BYTES && i <= n
    requires j > 0 ==> i == n && |c| - j == n * BYTES
    ensures BVal(c[j..], 256) == BVal(c, 256) % P(n)
  {
    hide BVal, P, Pow;
    DigitPowers(i);
    DigitPowers(n);
    BBound(c[j..], 256);
    PowMono(256, |c| - j, i * BYTES);
    MulLe(i, n, BYTES);
    PowMono(256, i * BYTES, n * BYTES);
    assert c == c[..j] + c[j..];
    BConcat(c[..j], c[j..], 256);
    if j == 0 {
      assert c[..0] == [];
      BEmpty(256);
      DivModUnique(BVal(c, 256), P(n), 0, BVal(c[j..], 256));
    } else {
      DivModUnique(BVal(c, 256), P(n), BVal(c[..j], 256), BVal(c[j..], 256));
    }
  }

  /** mpConvFromOctets: the number, as far as it fits. */
  method MpConvFromOctets(a: array<Digit>, ndigits: nat, c: array<Octet>, nbytes: nat) returns (used: nat)
    requires ndigits <= a.Length && nbytes <= c.Length
    modifies a
    ensures Num(a, ndigits) == BVal(c[..nbytes], 256) % P(ndigits)
    ensures SameOutside(a[..], old(a[..]), 0, ndigits)
    ensures used == if nbytes <= BYTES * ndigits then (nbytes + BYTES - 1) / BYTES else ndigits
    ensures used <= ndigits && Num(a, used) == Num(a, ndigits)
  {
    hide BVal, Val, P, Pow;
    MpSetZero(a, ndigits);
    var i, j: nat := 0, nbytes;
    assert c[nbytes..nbytes] == [];
    BEmpty(256);
    ValEmpty(a[..], 0);
    assert forall k | 0 <= k < ndigits :: a[..][k] == a[k];
    while i < ndigits && j > 0
      invariant i <= ndigits && j <= nbytes && (j > 0 ==> nbytes - j == i * BYTES) && nbytes - j <= i * BYTES
      invariant i > 0 ==> (i - 1) * BYTES < nbytes - j
      invariant Val(a[..], 0, i) == BVal(c[..][j..nbytes], 256)
      invariant forall k | i <= k < ndigits :: a[..][k] == 0
      invariant SameOutside(a[..], old(a[..]), 0, ndigits)
    {
      ghost var before := a[..];
      var t, next := TakeDigit(c, j);
      a[i] := t;
      assert c[..][next..j] == c[next..j];
      TakeStep(before, a[..], i, c[..], next, j, nbytes);
      assert (i + 1) * BYTES == i * BYTES + BYTES;
      j := next;
      i := i + 1;
    }
    ValTrim(a[..], 0, i, ndigits);
    assert c[..][j..nbytes] == c[..nbytes][j..];
    TakenAll(c[..nbytes], j, i, ndigits);
    DigitsSet(i, nbytes, j, ndigits);
    return i;
  }

  /** The digits that were set are as many as the octets take, or all there are. */
  lemma DigitsSet(i: nat, n: nat, j: nat, ndigits: nat)
    requires i <= ndigits && j <= n && n - j <= i * BYTES && (i > 0 ==> (i - 1) * BYTES < n - j)
    requires j > 0 ==> i == ndigits && n - j == i * BYTES
    ensures i == if n <= BYTES * ndigits then (n + BYTES - 1) / BYTES else ndigits
  {
    ByteSizes();
    if j == 0 {
      MulLe(i, ndigits, BYTES);
      DivModUnique(n + BYTES - 1, BYTES, i, n + BYTES - 1 - i * BYTES);
    }
  }

  /** One more octet of `t`. */
  lemma NextOctet(t: nat, m: nat)
    ensures Pow(256, m) > 0 && Pow(256, m + 1) > 0
    ensures ((t / Pow(256, m)) % 256) * Pow(256, m) + t % Pow(256, m) == t % Pow(256, m + 1)
  {
    var p := Pow(256, m);
    PowPos(256, m);
    PowPos(256, m + 1);
    ModHigh(t % p, t / p, p, 256);
    assert t == t % p + (t / p) * p;
  }

  /** The octets of one digit, written from the end. */
  method GiveDigit(c: array<Octet>, end: nat, t: Digit) returns (j: nat)
    requires end <= c.Length
    modifies c
    ensures j == (if end < BYTES then 0 else end - BYTES) && BVal(c[j..end], 256) == t % Span(256, end - j)
    ensures c[end..] == old(c[end..]) && c[..j] == old(c[..j])
  {
    hide BVal, Pow;
    ByteSizes();
    j := end;
    var k := 0;
    assert c[end..end] == [];
    BEmpty(256);
    while j > 0 && k < BITS
      invariant j <= end && k == 8 * (end - j) && end - j <= BYTES
      invariant BVal(c[j..end], 256) == t % Span(256, end - j)
      invariant c[end..] == old(c[end..]) && c[..j] == old(c[..j])
    {
      ghost var before := c[..];
      BytePowers(end - j);
      NextOctet(t, end - j);
      c[j - 1] := (t / Pow2(k)) % 256;
      OneMoreOctet(before, c[..], c[j - 1], j, end);
      BCons(c[j - 1], before[j..end], 256);
      assert c[..j - 1] == old(c[..j])[..j - 1];
      j := j - 1;
      k := k + 8;
    }
  }

  lemma OneMoreOctet(was: seq<Octet>, now: seq<Octet>, x: Octet, j: nat, end: nat)
    requires 0 < j <= end <= |was| && now == was[j - 1 := x]
    ensures now[j - 1..end] == [x] + was[j..end] && now[end..] == was[end..] && now[..j - 1] == was[..j - 1]
  {}

  lemma GiveStep(w: seq<Digit>, i: nat, low: seq<Octet>, high: seq<Octet>)
    requires i < |w| && |high| == i * BYTES
    requires BVal(high, 256) == Val(w, 0, i) && BVal(low, 256) == w[i] % Span(256, |low|)
    ensures BVal(low + high, 256) == Val(w, 0, i + 1) % Span(256, |low| + |high|)
  {
    hide BVal, P, Pow;
    DigitPowers(i);
    ValBound(w, 0, i);
    BConcat(low, high, 256);
    PowAdd(256, |low|, |high|);
    PowPos(256, |low|);
    ModHigh(Val(w, 0, i), w[i], P(i), Span(256, |low|));
  }

  /** The digits given from the end of the buffer, until either runs out. */
  method GiveDigits(a: array<Digit>, ndigits: nat, c: array<Octet>, nbytes: nat) returns (i: nat, j: nat)
    requires ndigits <= a.Length && nbytes <= c.Length
    modifies c
    ensures i <= ndigits && j <= nbytes && (i == ndigits || j == 0) && c[nbytes..] == old(c[nbytes..])
    ensures if j > 0 then nbytes - j == i * BYTES else nbytes <= i * BYTES
    ensures BVal(c[j..nbytes], 256) == Val(a[..], 0, i) % Span(256, nbytes - j)
  {
    hide BVal, Val, P, Pow;
    i, j := 0, nbytes;
    assert c[nbytes..nbytes] == [];
    BEmpty(256);
    ValEmpty(a[..], 0);
    while i < ndigits && j > 0
      invariant i <= ndigits && j <= nbytes && c[nbytes..] == old(c[nbytes..])
      invariant if j > 0 then nbytes - j == i * BYTES else nbytes <= i * BYTES
      invariant BVal(c[j..nbytes], 256) == Val(a[..], 0, i) % Span(256, nbytes - j)
    {
      ghost var before := c[..];
      FullPrefix(a[..], i, nbytes - j);
      var next := GiveDigit(c, j, a[i]);
      GivenSlices(before, c[..], next, j, nbytes);
      GiveStep(a[..], i, c[next..j], before[j..nbytes]);
      assert (i + 1) * BYTES == i * BYTES + BYTES;
      j := next;
      i := i + 1;
    }
  }

  lemma GivenSlices(was: seq<Octet>, now: seq<Octet>, next: nat, j: nat, nbytes: nat)
    requires next <= j <= nbytes <= |was| == |now| && now[j..] == was[j..]
    ensures now[next..nbytes] == now[next..j] + was[j..nbytes] && now[nbytes..] == was[nbytes..]
  {
    assert was[j..nbytes] == now[j..][..nbytes - j];
    assert now[nbytes..] == now[j..][nbytes - j..];
  }

  /** mpConvToOctets: the number, as far as it fits, with leading zeros; the octets it needs are returned. */
  method MpConvToOctets(a: array<Digit>, ndigits: nat, c: array<Octet>, nbytes: nat) returns (noctets: nat)
    requires ndigits <= a.Length && nbytes <= c.Length
    modifies c
    ensures BVal(c[..nbytes], 256) == Num(a, ndigits) % Span(256, nbytes) && c[nbytes..] == old(c[nbytes..])
    ensures Num(a, ndigits) < Pow(256, noctets) && (noctets > 0 ==> Num(a, ndigits) >= Pow(256, noctets - 1))
  {
    hide BVal, Val, P, Pow;
    var nbits := MpBitLength(a, ndigits);
    noctets := (nbits + 7) / 8;
    OctetsNeeded(Num(a, ndigits), nbits, noctets);
    var i, j := GiveDigits(a, ndigits, c, nbytes);
    if j > 0 {
      FullPrefix(a[..], i, nbytes - j);
      Fits(a[..], i, nbytes - j, nbytes);
    } else {
      CutOff(a[..], i, ndigits, nbytes);
    }
    ghost var before := c[..];
    ClearFront(c, j);
    assert c[j..nbytes] == before[j..nbytes] && c[nbytes..] == before[nbytes..];
    assert c[..nbytes][j..] == c[j..nbytes];
    BTrim(c[..nbytes], j, 256);
  }

  /** The octets in front set to zero. */
  method ClearFront(c: array<Octet>, top: nat)
    requires top <= c.Length
    modifies c
    ensures forall k | 0 <= k < top :: c[k] == 0
    ensures forall k | top <= k < c.Length :: c[k] == old(c[k])
  {
    var j: nat := top;
    while j > 0
      invariant j <= top && forall k | j <= k < top :: c[k] == 0
      invariant forall k | top <= k < c.Length :: c[k] == old(c[k])
    {
      j := j - 1;
      c[j] := 0;
    }
  }

  lemma Fits(w: seq<Digit>, i: nat, m: nat, n: nat)
    requires i <= |w| && m == i * BYTES && m <= n
    ensures Val(w, 0, i) % Span(256, n) == Val(w, 0, i)
  {
    hide P, Val, Pow;
    DigitPowers(i);
    ValBound(w, 0, i);
    PowMono(256, m, n);
    DivModUnique(Val(w, 0, i), Span(256, n), 0, Val(w, 0, i));
  }

  /** Digits above do not matter to the octets below. */
  lemma CutOff(w: seq<Digit>, i: nat, n: nat, m: nat)
    requires i <= n <= |w| && m <= i * BYTES
    ensures Val(w, 0, n) % Span(256, m) == Val(w, 0, i) % Span(256, m)
  {
    hide P, Val, Pow;
    ValSplit(w, 0, i, n);
    DigitPowers(i);
    PowAdd(256, i * BYTES - m, m);
    var x, y, q := Val(w, 0, i), Val(w, i, n), Pow(256, i * BYTES - m);
    assert P(i) * y == (q * y) * Span(256, m);
    ModOfMultiple(q * y, Span(256, m), x);
  }

  /** While there is room, nothing is cut off. */
  lemma FullPrefix(w: seq<Digit>, i: nat, m: nat)
    requires i <= |w| && m == i * BYTES
    ensures Val(w, 0, i) % Span(256, m) == Val(w, 0, i)
  {
    hide P, Val;
    DigitPowers(i);
    ValBound(w, 0, i);
    DivModUnique(Val(w, 0, i), P(i), 0, Val(w, 0, i));
  }

  lemma OctetsNeeded(x: nat, bits: nat, noctets: nat)
    requires noctets == (bits + 7) / 8 && Prefix(x, bits) == 0
    requires if bits == 0 then x == 0 else Prefix(x, bits - 1) == 1
    ensures x < Pow(256, noctets) && (noctets > 0 ==> x >= Pow(256, noctets - 1))
  {
    BytePowers(noctets);
    PowMono(2, bits, 8 * noctets);
    if noctets > 0 {
      BytePowers(noctets - 1);
      PowMono(2, 8 * (noctets - 1), bits - 1);
    }
  }

  /** Horner's rule survives cutting off at `m`. */
  lemma HornerMod(v: nat, k: nat, d: nat, m: nat)
    requires m > 0
    ensures ((v % m) * k + d) % m == (v * k + d) % m
  {
    var q, r := v / m, v % m;
    assert v == q * m + r;
    assert (q * m + r) * k + d == (q * k) * m + (r * k + d);
    ModOfMultiple(q * k, m, r * k + d);
  }

  lemma PrefixNext(s: seq<nat>, i: nat, b: nat)
    requires i < |s|
    ensures BVal(s[..i + 1], b) == BVal(s[..i], b) * b + s[i]
  {
    assert s[..i + 1] == s[..i] + [s[i]];
    BAppend(s[..i], s[i], b);
  }

  /** All octets fed into digits of another base. */
  method Rebase(bytes: array<Octet>, digits: array<Octet>, base: nat)
    requires (base == 10 || base == 16) && bytes != digits && forall i | 0 <= i < digits.Length :: digits[i] == 0
    modifies digits
    ensures Below(digits[..], base) && BVal(digits[..], base) == BVal(bytes[..], 256) % Span(base, digits.Length)
  {
    hide BVal, Span, Pow;
    ghost var all := bytes[..];
    BZero(digits[..], base);
    BEmpty(256);
    assert all[..0] == [];
    for i := 0 to bytes.Length
      invariant Below(digits[..], base) && bytes[..] == all
      invariant BVal(digits[..], base) == BVal(all[..i], 256) % Span(base, digits.Length)
    {
      PrefixNext(all, i, 256);
      HornerMod(BVal(all[..i], 256), 256, all[i], Span(base, digits.Length));
      assert bytes[i] == all[i];
      MulAdd(digits, 256, bytes[i], base);
    }
    assert all[..bytes.Length] == all;
  }

  /** Digits provided for `n` octets: two each in hexadecimal. */
  function LengthIn(base: nat, n: nat): (r: nat)
    ensures if base == 10 then 240824 * n <= 100000 * r < 240824 * n + 100000 else r == 2 * n
  {
    if base == 10 then DigitsFor(n) else 2 * n
  }

  lemma NothingLost(x: nat, base: nat, n: nat)
    requires (base == 10 || base == 16) && x < Pow(256, n)
    ensures x % Span(base, LengthIn(base, n)) == x
  {
    hide Pow;
    if base == 10 {
      EnoughDigits(n);
    } else {
      PowPow(16, 2, n);
      Sixteen();
    }
    DivModUnique(x, Span(base, LengthIn(base, n)), 0, x);
  }

  lemma Sixteen()
    ensures Pow(16, 2) == 256
  {
    assert Pow(16, 1) == 16 * Pow(16, 0);
  }

  /** The string part of conv_to_base: as many characters as fit, and a terminator. */
  method PutString(digits: array<Octet>, isig: nat, s: array<char>, smax: nat, base: nat, ghost x: nat)
    requires (base == 10 || base == 16) && isig < digits.Length && 0 < smax <= s.Length
    requires Below(digits[..], base) && digits[isig..] == DigitsOf(x, base) && x > 0
    modifies s
    ensures WrittenTo(s[..], smax, Text(x, base)) && s[smax..] == old(s[smax..])
  {
    hide Below, DigitsOf, CharDigit, DigitChar;
    var nchars := digits.Length - isig;
    DigitsOfFacts(x, base);
    TextIs(digits[isig..], x, base);
    var i := 0;
    while i < nchars && i < smax - 1
      invariant i <= nchars && i <= smax - 1
      invariant forall k | 0 <= k < i :: s[k] == Text(x, base)[k]
      invariant s[smax..] == old(s[smax..])
    {
      assert digits[isig..][i] == digits[isig + i] == digits[..][isig + i];
      OneBelow(digits[..], isig + i, base);
      s[i] := DigitChar(digits[isig + i]);
      i := i + 1;
    }
    s[i] := '\0';
  }

  /** As much of the text as fits, terminated. */
  ghost predicate WrittenTo(s: string, smax: nat, text: string) {
    var n := if |text| < smax then |text| else smax - 1;
    0 < smax <= |s| && n < |s| && s[..n] == text[..n] && s[n] == '\0'
  }

  lemma OneBelow(s: seq<nat>, i: nat, base: nat)
    requires Below(s, base) && i < |s|
    ensures s[i] < base
  {}

  lemma TextIs(ds: seq<nat>, x: nat, base: nat)
    requires (base == 10 || base == 16) && x > 0 && ds == DigitsOf(x, base)
    ensures |Text(x, base)| == |ds| && forall k | 0 <= k < |ds| :: ds[k] < 16 && Text(x, base)[k] == DigitChar(ds[k])
  {
    DigitsOfFacts(x, base);
  }

  /**
   * conv_to_base: the text of the number, however long it is. Nothing is written past the buffer, except that
   * for the number zero a second character is written even if the buffer has only one.
   */
  method ConvToBase(a: array<Digit>, ndigits: nat, s: array<char>, smax: nat, base: nat) returns (nchars: nat)
    requires (base == 10 || base == 16) && ndigits <= a.Length && smax <= s.Length
    requires smax == 1 && Num(a, ndigits) == 0 ==> s.Length >= 2
    modifies s
    ensures nchars == |Text(Num(a, ndigits), base)|
    ensures if Num(a, ndigits) == 0 then nchars == 1
            else nchars > 0 && Pow(base, nchars - 1) <= Num(a, ndigits) < Pow(base, nchars)
    ensures smax > 0 ==> WrittenTo(s[..], smax, Text(Num(a, ndigits), base))
    ensures smax > 0 ==> ShowsDigits(s[..if nchars < smax then nchars else smax - 1], Num(a, ndigits), nchars, base)
    ensures s[smax..] == if smax == 1 && Num(a, ndigits) == 0 then ['\0'] + old(s[2..]) else old(s[smax..])
    ensures s[smax..] == old(s[smax..]) <==> smax != 1 || Num(a, ndigits) != 0 || old(s[1]) == '\0'
  {
    hide BVal, Val, P, Pow, Below, DigitsOf, WrittenTo, ShowsDigits, DigitChar, Text;
    ghost var x := Num(a, ndigits);
    TextLength(x, base);
    if smax > 0 {
      for i := 0 to smax - 1
        invariant forall k | 0 <= k < i :: s[k] == '0'
        invariant s[smax..] == old(s[smax..])
      {
        s[i] := '0';
      }
      s[smax - 1] := '\0';
    }
    var z := MpIsZero(a, ndigits);
    if z != 0 {
      ValEmpty(a[..], 0);
      if smax > 0 {
        s[1] := '\0';
        ZeroWritten(s[..], smax, base);
        WrittenShows(s[..], smax, x, base);
      }
      return 1;
    }
    var nbytes := ndigits * BYTES;
    var bytes := new Octet[nbytes](_ => 0);
    var n := MpConvToOctets(a, ndigits, bytes, nbytes);
    assert bytes[..nbytes] == bytes[..];
    FullPrefix(a[..], ndigits, nbytes);
    var newlen := LengthIn(base, n);
    NothingLost(x, base, n);
    var newdigits := new Octet[newlen](_ => 0);
    Rebase(bytes, newdigits, base);
    var isig := 0;
    while isig < newlen && newdigits[isig] == 0
      invariant isig <= newlen && forall k | 0 <= k < isig :: newdigits[..][k] == 0
    {
      isig := isig + 1;
    }
    Significant(newdigits[..], isig, base, x);
    nchars := newlen - isig;
    TextIs(newdigits[isig..], x, base);
    if smax > 0 {
      PutString(newdigits, isig, s, smax, base, x);
      WrittenShows(s[..], smax, x, base);
    }
  }

  lemma TextLength(x: nat, base: nat)
    requires base == 10 || base == 16
    ensures |Text(x, base)| > 0 && (x == 0 ==> |Text(x, base)| == 1)
    ensures x > 0 ==> Pow(base, |Text(x, base)| - 1) <= x < Pow(base, |Text(x, base)|)
  {
    TextValue(x, base);
  }

  lemma ZeroWritten(s: string, smax: nat, base: nat)
    requires (base == 10 || base == 16) && 0 < smax <= |s| && 2 <= |s| && s[1] == '\0'
    requires s[0] == if smax == 1 then '\0' else '0'
    ensures WrittenTo(s, smax, Text(0, base))
  {
    assert smax == 1 || s[..1] == "0";
  }

  /** The characters are the first of `n` digits of the number, by their codes: '0' is 48 and 'a' is 97. */
  ghost predicate ShowsDigits(s: string, x: nat, n: nat, base: nat)
    requires base >= 2 && |s| <= n
  {
    forall k | 0 <= k < |s| :: 0 < Span(base, n - 1 - k) && CodeOf(s[k], x / Span(base, n - 1 - k) % base)
  }

  predicate CodeOf(c: char, d: nat) {
    c as int == if d < 10 then 48 + d else 97 + (d - 10)
  }

  lemma WrittenShows(s: string, smax: nat, x: nat, base: nat)
    requires (base == 10 || base == 16) && WrittenTo(s, smax, Text(x, base))
    ensures var n := |Text(x, base)|; ShowsDigits(s[..if n < smax then n else smax - 1], x, n, base)
  {
    hide Pow, Text;
    var text := Text(x, base);
    var t := s[..if |text| < smax then |text| else smax - 1];
    forall k | 0 <= k < |t|
      ensures CodeOf(t[k], x / Span(base, |text| - 1 - k) % base)
    {
      TextAt(x, base, k, Span(base, |text| - 1 - k));
    }
  }

  /** Zero written to a buffer of one character: the character after the buffer does not survive. */
  method PastTheBuffer(s: array<char>) returns (nchars: nat)
    requires s.Length >= 2 && s[1] != '\0'
    modifies s
    ensures nchars == 1 && s[1] != old(s[1])
  {
    hide Val, P, Pow;
    var a := new Digit[1](_ => 0);
    ValZero(a[..], 0, 1);
    nchars := ConvToBase(a, 1, s, 1, 10);
    assert s[1..][0] == s[1];
  }

  /** From the first digit that is not zero, the digits are those of the number. */
  lemma Significant(ds: seq<nat>, isig: nat, base: nat, x: nat)
    requires (base == 10 || base == 16) && Below(ds, base) && BVal(ds, base) == x > 0
    requires isig <= |ds| && (forall k | 0 <= k < isig :: ds[k] == 0) && (isig < |ds| ==> ds[isig] != 0)
    ensures isig < |ds| && ds[isig..] == DigitsOf(x, base)
  {
    hide Pow;
    BTrim(ds, isig, base);
    DigitsUnique(ds[isig..], base);
  }

  /** Octets provided for a string of `n` characters. */
  function OctetsIn(base: nat, n: nat): (r: nat)
    ensures if base == 10 then 41524 * n <= 100000 * r < 41524 * n + 100000 else n <= 2 * r < n + 2
  {
    if base == 10 then OctetsFor(n) else (n + 1) / 2
  }

  /**
   * mpConvFromDecimal and mpConvFromHex: the value of the string, cut off at the octets provided and at the
   * digits there are.
   */
  method ConvFromString(a: array<Digit>, ndigits: nat, s: string, base: nat) returns (used: nat)
    requires (base == 10 || base == 16) && ndigits <= a.Length
    modifies a
    ensures Num(a, ndigits) == StringValue(s, base) % Span(256, OctetsIn(base, |s|)) % P(ndigits)
    ensures SameOutside(a[..], old(a[..]), 0, ndigits) && (s == "" ==> used == 0)
    ensures var n := OctetsIn(base, |s|);
      used == if n <= BYTES * ndigits then (n + BYTES - 1) / BYTES else ndigits
    ensures used <= ndigits && Num(a, used) == Num(a, ndigits)
  {
    hide BVal, Val, P, Pow, Span, CharDigit, StringValue, Below, LengthIn, OctetsIn;
    MpSetZero(a, ndigits);
    NothingWritten(s, base, ndigits);
    if |s| == 0 {
      ValEmpty(a[..], 0);
      assert OctetsIn(base, 0) == 0;
      ByteSizes();
      return 0;
    }
    ghost var before := a[..];
    var newlen := OctetsIn(base, |s|);
    var newdigits := new Octet[newlen](_ => 0);
    BZero(newdigits[..], 256);
    AllOctets(newdigits[..]);
    for i := 0 to |s|
      invariant BVal(newdigits[..], 256) == StringValue(s[..i], base) % Span(256, newlen)
      invariant a[..] == before
    {
      var t := CharDigit(s[i], base);
      StringStep(s, i, base);
      AllOctets(newdigits[..]);
      if t < 0 {
        continue;
      }
      HornerMod(StringValue(s[..i], base), base, t, Span(256, newlen));
      MulAdd(newdigits, base, t, 256);
    }
    assert s[..|s|] == s && newdigits[..newlen] == newdigits[..];
    used := MpConvFromOctets(a, ndigits, newdigits, newlen);
  }

  lemma StringStep(s: string, i: nat, base: nat)
    requires i < |s|
    ensures var t := CharDigit(s[i], base);
      StringValue(s[..i + 1], base) == if t < 0 then StringValue(s[..i], base) else StringValue(s[..i], base) * base + t
  {
    assert s[..i + 1][..i] == s[..i];
  }

  lemma NothingWritten(s: string, base: nat, ndigits: nat)
    ensures StringValue(s[..0], base) == 0 && (s == "" ==> StringValue(s, base) == 0)
  {}

  lemma AllOctets(s: seq<Octet>)
    ensures Below(s, 256)
  {}

  /** Hexadecimal strings are never cut off, so what was written is read back. */
  lemma HexRoundTrip(x: nat)
    ensures var t := Text(x, 16); StringValue(t, 16) % Span(256, OctetsIn(16, |t|)) == x
  {
    hide Pow, StringValue, CharDigit;
    var t := Text(x, 16);
    var n := OctetsIn(16, |t|);
    TextValue(x, 16);
    StringBound(t, 16);
    PowMono(16, |t|, 2 * n);
    PowPow(16, 2, n);
    Sixteen();
    DivModUnique(x, Span(256, n), 0, x);
  }

  /** Decimal strings are read back exactly if the octets provided can hold the number. */
  lemma DecimalRoundTrip(x: nat)
    ensures var t := Text(x, 10);
      StringValue(t, 10) % Span(256, OctetsIn(10, |t|)) == x <==> x < Pow(256, OctetsFor(|t|))
  {
    hide Pow, StringValue, CharDigit;
    TextValue(x, 10);
    var m := Span(256, OctetsFor(|Text(x, 10)|));
    if x < m { DivModUnique(x, m, 0, x); }
  }

  /** For that it is enough to count the characters: up to 1810 there is room for every number. */
  lemma ShortDecimal(x: nat)
    requires |Text(x, 10)| <= 1810
    ensures x < Pow(256, OctetsFor(|Text(x, 10)|))
  {
    hide Pow;
    TextValue(x, 10);
    PowPos(256, OctetsFor(|Text(x, 10)|));
    EnoughOctets(|Text(x, 10)|);
  }

  /**
   * The number in `a` written to a string and read into `b`. In hexadecimal it is the same number again; in
   * decimal exactly if the octets allotted to the string hold it, as they do up to 1810 characters.
   */
  method WriteAndRead(a: array<Digit>, b: array<Digit>, ndigits: nat, base: nat) returns (s: string)
    requires (base == 10 || base == 16) && a != b && ndigits <= a.Length && ndigits <= b.Length
    modifies b
    ensures s == Text(Num(a, ndigits), base)
    ensures Num(b, ndigits) == Num(a, ndigits) <==> base == 16 || Num(a, ndigits) < Pow(256, OctetsFor(|s|))
    ensures |s| <= 1810 ==> Num(b, ndigits) == Num(a, ndigits)
  {
    hide Val, P, Pow, StringValue, DigitsOf;
    ghost var x := Num(a, ndigits);
    var buffer := new char[0];
    var nchars := ConvToBase(a, ndigits, buffer, 0, base);
    buffer := new char[nchars + 1];
    nchars := ConvToBase(a, ndigits, buffer, nchars + 1, base);
    s := buffer[..nchars];
    var used := ConvFromString(b, ndigits, s, base);
    if base == 16 {
      HexRoundTrip(x);
    } else {
      DecimalRoundTrip(x);
      if |s| <= 1810 { ShortDecimal(x); }
    }
    TextValue(x, base);
    ValBound(a[..], 0, ndigits);
    Unreduced(x, Span(256, OctetsIn(base, |s|)), P(ndigits));
  }

  lemma Unreduced(x: nat, m: nat, p: nat)
    requires x < p && m > 0
    ensures x % m % p == x % m
  {
    DivModUnique(x % m, p, 0, x % m);
  }

  /** They cannot always: 1811 nines are cut off. */
  lemma NinesAreCutOff()
    ensures var s := Nines(1811); StringValue(s, 10) % Span(256, OctetsIn(10, |s|)) != StringValue(s, 10)
  {
    hide Pow, StringValue;
    NinesValue(1811);
    TooFewOctets();
  }
}
