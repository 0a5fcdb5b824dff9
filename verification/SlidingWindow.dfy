/** mpModExp_windowed: sliding-window exponentiation (Menezes, algorithm 14.85). */
module SlidingWindow {
  import opened Arith
  import opened Digits
  import opened Value
  import opened Linear
  import opened Shift
  import opened ExponentBits
  import opened ModExp

  /** The `k` bits of `e` read from position `pos`, zeros standing for bits past the end (at most `l` of them). */
  function Window(e: nat, pos: nat, k: nat, l: nat): int
    requires k <= pos + l
  {
    Prefix(e * Pow2(l), pos + l - k) - Prefix(e, pos) * Pow2(k)
  }

  lemma PaddedPrefix(e: nat, pos: nat, l: nat)
    ensures 0 <= e * Pow2(l) && Prefix(e * Pow2(l), pos + l) == Prefix(e, pos)
  {
    Pow2Add(l, pos);
    DivModUnique(e * Pow2(l), Pow2(l), e, 0);
    DivDiv(e * Pow2(l), Pow2(l), Pow2(pos));
  }

  /** Bits past the end read as zero. */
  lemma PaddedBit(e: nat, l: nat, i: nat)
    ensures 0 <= e * Pow2(l)
    ensures i < l ==> !Bit(e * Pow2(l), i)
    ensures i >= l ==> (Bit(e * Pow2(l), i) <==> Bit(e, i - l))
  {
    if i >= l {
      PaddedPrefix(e, i - l, l);
    } else {
      Pow2Add(i, l - i);
      Pow2Add(l - i - 1, 1);
      Double();
      PaddedZero(e, Pow2(i), Pow2(l - i - 1), Pow2(l));
    }
  }

  lemma PaddedZero(e: nat, p: nat, h: nat, q: nat)
    requires p > 0 && q == p * (h * 2)
    ensures 0 <= e * q && (e * q / p) % 2 == 0
  {
    assert e * q == (e * h * 2) * p;
    DivModUnique(e * q, p, e * h * 2, 0);
    DivModUnique(e * h * 2, 2, e * h, 0);
  }

  lemma WindowStep(e: nat, pos: nat, k: nat, l: nat)
    requires k + 1 <= pos + l
    ensures 0 <= e * Pow2(l)
    ensures Window(e, pos, k + 1, l) == 2 * Window(e, pos, k, l) + (if Bit(e * Pow2(l), pos + l - k - 1) then 1 else 0)
  {
    hide Prefix, Bit;
    PaddedPrefix(e, pos, l);
    PrefixStep(e * Pow2(l), pos + l - k);
    Pow2Add(k, 1);
    Double();
    assert Prefix(e, pos) * (Pow2(k) * 2) == 2 * (Prefix(e, pos) * Pow2(k));
  }

  lemma {:induction false} WindowBound(e: nat, pos: nat, k: nat, l: nat)
    requires k <= pos + l
    ensures 0 <= Window(e, pos, k, l) < Pow2(k)
    decreases k
  {
    if k == 0 {
      PaddedPrefix(e, pos, l);
      Pow2Add(0, 0);
    } else {
      hide Window, Bit;
      WindowBound(e, pos, k - 1, l);
      WindowStep(e, pos, k - 1, l);
      Pow2Add(k - 1, 1);
      Double();
    }
  }

  /** An odd window lies wholly within the exponent: it is a run of its bits. */
  lemma OddWindow(e: nat, pos: nat, k: nat, l: nat)
    requires 1 <= k <= l && Window(e, pos, k, l) % 2 == 1
    ensures k <= pos && Prefix(e, pos) * Pow2(k) + Window(e, pos, k, l) == Prefix(e, pos - k)
  {
    hide Prefix, Bit;
    if k > pos {
      WindowStep(e, pos, k - 1, l);
      PaddedBit(e, l, pos + l - k);
      assert false;
    }
    PaddedPrefix(e, pos - k, l);
  }

  /** Read the look-ahead buffer and trim it to end in a 1: the length less one and the value of the window. */
  method ReadWindow(e: array<Digit>, n: nat, mask: nat, nwd: nat, winlen: nat) returns (lkabuf: nat, lkalen: nat)
    requires 0 < nwd <= n <= e.Length && mask < BITS && 1 <= winlen <= 8 && Bit(e[nwd - 1], mask)
    ensures lkalen < winlen && lkalen + 1 <= Pos(mask, nwd)
    ensures lkabuf % 2 == 1 && lkabuf < Pow2(winlen)
    ensures Prefix(Num(e, n), Pos(mask, nwd)) * Pow2(lkalen + 1) + lkabuf
      == Prefix(Num(e, n), Pos(mask, nwd) - 1 - lkalen)
  {
    hide Val, Bit, Prefix, Window, Pow2, Pos;
    ghost var E, es, pos := Num(e, n), e[..], Pos(mask, nwd);
    PosPositive(mask, nwd);
    var lkamask: nat, lkanwd: nat := mask, nwd;
    lkabuf := 1;
    FirstBit(es, n, mask, nwd, winlen);
    for i := 0 to winlen - 1
      invariant lkamask < BITS && lkanwd <= nwd
      invariant i < pos ==> lkanwd > 0 && Pos(lkamask, lkanwd) == pos - i
      invariant i >= pos ==> lkanwd == 0 && lkamask + i >= BITS - 1 + pos
      invariant lkabuf == Window(E, pos, i + 1, winlen)
    {
      lkamask, lkanwd := NextBit(lkamask, lkanwd).0, NextBit(lkamask, lkanwd).1;
      PosZero(lkamask, lkanwd);
      WindowStep(E, pos, i + 1, winlen);
      PaddedBit(E, winlen, pos + winlen - i - 2);
      WindowBound(E, pos, i + 2, winlen);
      lkabuf := lkabuf * 2;
      if lkanwd != 0 {
        BitOfNumber(es, n, lkamask, lkanwd);
        assert e[lkanwd - 1] == es[lkanwd - 1];
      }
      if lkanwd != 0 && Bit(e[lkanwd - 1], lkamask) {
        lkabuf := lkabuf + 1;
      }
    }
    lkalen := winlen - 1;
    while lkalen > 0 && lkabuf % 2 == 0
      invariant lkalen < winlen && lkabuf == Window(E, pos, lkalen + 1, winlen)
    {
      WindowStep(E, pos, lkalen, winlen);
      lkalen := lkalen - 1;
      lkabuf := lkabuf / 2;
    }
    FirstBit(es, n, mask, nwd, winlen);
    WindowBound(E, pos, lkalen + 1, winlen);
    Pow2Mono(lkalen + 1, winlen);
    OddWindow(E, pos, lkalen + 1, winlen);
  }

  lemma PosZero(bit: nat, n: nat)
    ensures Pos(bit, n) == 0 <==> n == 0
  {}

  lemma Pow2Mono(m: nat, n: nat)
    requires m <= n
    ensures Pow2(m) <= Pow2(n)
  {
    PowMono(2, m, n);
  }

  lemma FirstBit(e: seq<Digit>, n: nat, mask: nat, nwd: nat, l: nat)
    requires 0 < nwd <= n <= |e| && mask < BITS && Bit(e[nwd - 1], mask)
    ensures Window(Val(e, 0, n), Pos(mask, nwd), 1, l) == 1
  {
    hide Val, Bit, Window, Prefix;
    var E, pos := Val(e, 0, n), Pos(mask, nwd);
    BitOfNumber(e, n, mask, nwd);
    WindowStep(E, pos, 0, l);
    PaddedBit(E, l, pos + l - 1);
    WindowBound(E, pos, 0, l);
    Pow2Add(0, 0);
  }

  const WINDOW_LEN_TABLE: seq<nat> := [5, 16, 64, 240, 768, 1024, 2048, 4096]

  /** The window length chosen for an exponent of `nbits` bits. */
  method WindowLength(nbits: nat) returns (winlen: nat)
    ensures winlen <= 8 && (winlen >= 2 ==> nbits >= 16)
  {
    winlen := 0;
    while winlen < |WINDOW_LEN_TABLE| && winlen < BITS
      invariant winlen <= 8 && (winlen >= 2 ==> nbits >= 16)
    {
      if WINDOW_LEN_TABLE[winlen] > nbits {
        break;
      }
      winlen := winlen + 1;
    }
  }

  /** Entry `i` of the table is `g^(2i+1)` modulo `m`, up to reduction. */
  ghost predicate Table(gtable: seq<array<Digit>>, g: nat, m: nat, n: nat)
    requires forall i | 0 <= i < |gtable| :: n <= gtable[i].Length
    reads gtable
  {
    forall i | 0 <= i < |gtable| :: Reduce(Num(gtable[i], n), m) == Reduce(Pow(g, 2 * i + 1), m)
  }

  /** Step 1: precompute g, g^3, g^5, ... in `ngt` entries; entry 0 is `g` itself. */
  method BuildTable(g: array<Digit>, m: array<Digit>, n: nat, ngt: nat, t1: array<Digit>, t2: array<Digit>)
    returns (gtable: seq<array<Digit>>)
    requires 1 <= n <= g.Length && n <= m.Length && ngt >= 1 && 2 * n <= t1.Length && 2 * n <= t2.Length
    requires m != g && t1 != t2 && t1 != m && t2 != m && t1 != g && t2 != g
    modifies m, t1, t2
    ensures m[..] == old(m[..])
    ensures |gtable| == ngt && gtable[0] == g && forall i | 1 <= i < ngt :: fresh(gtable[i])
    ensures forall i | 0 <= i < |gtable| :: n <= gtable[i].Length
    ensures Table(gtable, Num(g, n), Num(m, n), n)
  {
    hide Val, P, Reduce, Pow;
    ghost var G, M, ms := Num(g, n), Num(m, n), m[..];
    var g2 := MpAlloc(2 * n);
    MpModMult(g2, g, g, m, n);
    gtable := [g];
    TableStart(G, M);
    for i := 1 to ngt
      modifies m, t1, t2
      invariant |gtable| == i && gtable[0] == g && forall k | 1 <= k < i :: fresh(gtable[k])
      invariant forall k | 0 <= k < i :: n <= gtable[k].Length && gtable[k] != m && gtable[k] != t1 && gtable[k] != t2
      invariant forall k | 0 <= k < i :: Reduce(Num(gtable[k], n), M) == Reduce(Pow(G, 2 * k + 1), M)
      invariant m[..] == ms
    {
      var t := MpAlloc(2 * n);
      MpSetEqual(t, gtable[i - 1], n);
      ghost var before := Num(t, n);
      ModMultTemp(t, g2, m, n, t1, t2);
      TableStep(G, before, Num(g2, n), Num(t, n), i, M);
      gtable := gtable + [t];
    }
  }

  lemma TableStart(g: nat, m: nat)
    ensures Reduce(g, m) == Reduce(Pow(g, 2 * 0 + 1), m)
  {
    PowOne(g);
  }

  lemma TableStep(g: nat, before: nat, g2: nat, after: nat, i: nat, m: nat)
    requires i >= 1 && Reduce(before, m) == Reduce(Pow(g, 2 * (i - 1) + 1), m)
    requires g2 == Reduce(g * g, m) && after == Reduce(g2 * before, m)
    ensures Reduce(after, m) == Reduce(Pow(g, 2 * i + 1), m)
  {
    hide Reduce;
    ReduceTwice(g * g, m);
    PowOne(g);
    PowAdd(g, 1, 1);
    PowerTimes(before, g, 2 * (i - 1) + 1, g2, 2, m);
  }

  /** The accumulator: nothing yet while `aisone`, otherwise `g^c` modulo `m`. */
  ghost predicate Accumulator(aisone: bool, a: nat, g: nat, c: nat, m: nat) {
    if aisone then c == 0 else c >= 1 && Reduce(a, m) == Reduce(Pow(g, c), m)
  }

  /**
   * The bits consumed are those of `c`, with an open window's value still to be multiplied in
   * after `lkalen` more squarings.
   */
  ghost predicate Consumed(e: nat, rem: nat, c: nat, inWindow: bool, lkalen: nat, idxmult: nat) {
    if inWindow then lkalen <= rem && c * Pow2(lkalen) + 2 * idxmult + 1 == Prefix(e, rem - lkalen)
    else c == Prefix(e, rem)
  }

  lemma OpenWindow(e: nat, rem: nat, c: nat, lkabuf: nat, lkalen: nat)
    requires rem >= 1 && lkalen + 1 <= rem && lkabuf % 2 == 1
    requires Consumed(e, rem, c, false, 0, 0)
    requires Prefix(e, rem) * Pow2(lkalen + 1) + lkabuf == Prefix(e, rem - 1 - lkalen)
    ensures Consumed(e, rem - 1, 2 * c, true, lkalen, lkabuf / 2)
  {
    hide Prefix;
    Pow2Add(lkalen, 1);
    Double();
    assert 2 * c * Pow2(lkalen) == c * (Pow2(lkalen) * 2);
  }

  lemma InsideWindow(e: nat, rem: nat, c: nat, lkalen: nat, idxmult: nat)
    requires rem >= 1 && lkalen >= 1 && Consumed(e, rem, c, true, lkalen, idxmult)
    ensures Consumed(e, rem - 1, 2 * c, true, lkalen - 1, idxmult)
  {
    hide Prefix;
    Pow2Add(lkalen - 1, 1);
    Double();
    assert 2 * c * Pow2(lkalen - 1) == c * (Pow2(lkalen - 1) * 2);
  }

  lemma CloseWindow(e: nat, rem: nat, c: nat, idxmult: nat)
    requires Consumed(e, rem, c, true, 0, idxmult)
    ensures Consumed(e, rem, c + 2 * idxmult + 1, false, 0, 0)
  {
    Pow2Add(0, 0);
  }

  lemma ZeroBit(e: nat, rem: nat, c: nat)
    requires rem >= 1 && Consumed(e, rem, c, false, 0, 0) && !Bit(e, rem - 1)
    ensures Consumed(e, rem - 1, 2 * c, false, 0, 0)
  {
    PrefixStep(e, rem);
  }

  lemma SquareAccumulator(aisone: bool, a: nat, a': nat, g: nat, c: nat, m: nat)
    requires Accumulator(aisone, a, g, c, m) && (!aisone ==> a' == Reduce(a * a, m))
    ensures Accumulator(aisone, a', g, 2 * c, m) && (!aisone ==> a' == Reduce(a', m))
  {
    hide Reduce;
    if !aisone { PowerSquare(a, g, c, m); ReduceTwice(a * a, m); }
  }

  lemma MultiplyAccumulator(aisone: bool, a: nat, a': nat, g: nat, c: nat, z: nat, i: nat, m: nat)
    requires Accumulator(aisone, a, g, c, m) && Reduce(z, m) == Reduce(Pow(g, 2 * i + 1), m)
    requires a' == if aisone then z else Reduce(z * a, m)
    ensures Accumulator(false, a', g, c + 2 * i + 1, m) && (!aisone ==> a' == Reduce(a', m))
  {
    hide Reduce;
    if !aisone { PowerTimes(a, g, c, z, 2 * i + 1, m); ReduceTwice(z * a, m); }
  }

  /** Steps 2 and 3: scan the exponent once from the top. */
  method ScanExponent(a: array<Digit>, gtable: seq<array<Digit>>, e: array<Digit>, m: array<Digit>, n: nat, nbits: nat,
                      winlen: nat,
                      t1: array<Digit>, t2: array<Digit>, ghost G: nat)
    requires 1 <= n <= e.Length && n <= m.Length && 2 * n <= a.Length && 2 * n <= t1.Length && 2 * n <= t2.Length
    requires a != m && a != e && a != t1 && a != t2 && m != e && m != t1 && m != t2 && e != t1 && e != t2 && t1 != t2
    requires 2 <= winlen <= 8 && winlen < nbits && |gtable| == Pow2(winlen - 1)
    requires forall i | 0 <= i < |gtable| :: n <= gtable[i].Length && gtable[i] != a && gtable[i] != m
    requires forall i | 0 <= i < |gtable| :: gtable[i] != t1 && gtable[i] != t2
    requires Table(gtable, G, Num(m, n), n)
    requires Prefix(Num(e, n), nbits - 1) == 1 && Prefix(Num(e, n), nbits) == 0
    modifies a, m, t1, t2
    ensures m[..] == old(m[..])
    ensures Num(a, n) == Reduce(Pow(G, Num(e, n)), Num(m, n))
  {
    hide Val, P, Reduce, Pow, Prefix, Bit, Pos, Pow2, Accumulator, Consumed;
    ghost var E, M, es, ms := Num(e, n), Num(m, n), e[..], m[..];
    ghost var c: nat := 0;
    var nwd: nat := MpSizeof(e, n);
    NotZero(E, nbits);
    ValEmpty(es, 0);
    var mask: nat := FindTopBit(e[nwd - 1]);
    assert e[nwd - 1] == es[nwd - 1];
    TopPrefix(es, n, mask, nwd);
    PosPositive(mask, nwd);
    TopUnique(E, Pos(mask, nwd) - 1, nbits - 1);
    TopBitSet(E, nbits);
    StartState(E, nbits, Num(a, n), G, M);
    var aisone, inWindow := true, false;
    var lkalen: nat, idxmult: nat := 0, 0;
    while nwd != 0
      modifies a, m, t1, t2
      invariant mask < BITS && nwd <= n
      invariant Accumulator(aisone, Num(a, n), G, c, M)
      invariant Consumed(E, Pos(mask, nwd), c, inWindow, lkalen, idxmult)
      invariant if inWindow then 1 <= lkalen <= Pos(mask, nwd) && idxmult < |gtable| else lkalen == 0
      invariant aisone && !inWindow ==> Pos(mask, nwd) == nbits
      invariant aisone && inWindow ==> Pos(mask, nwd) - lkalen + winlen >= nbits
      invariant aisone || Num(a, n) == Reduce(Num(a, n), M) || Pos(mask, nwd) + winlen >= nbits
      invariant m[..] == ms
      decreases Pos(mask, nwd)
    {
      ghost var rem := Pos(mask, nwd);
      PosPositive(mask, nwd);
      BitOfNumber(es, n, mask, nwd);
      assert e[nwd - 1] == es[nwd - 1];
      ghost var a0 := Num(a, n);
      if !aisone {
        ModSquareTemp(a, m, n, t1, t2);
      }
      SquareAccumulator(aisone, a0, Num(a, n), G, c, M);
      if !inWindow {
        if Bit(e[nwd - 1], mask) {
          inWindow := true;
          var lkabuf;
          lkabuf, lkalen := ReadWindow(e, n, mask, nwd, winlen);
          NotInWindow(E, rem, c, idxmult);
          OpenWindow(E, rem, c, lkabuf, lkalen);
          idxmult := lkabuf / 2;
          HalfIndex(lkabuf, winlen);
        } else {
          NotInWindow(E, rem, c, idxmult);
          ZeroBit(E, rem, c);
          NotInWindow(E, rem - 1, 2 * c, idxmult);
        }
      } else {
        InsideWindow(E, rem, c, lkalen, idxmult);
        if lkalen > 0 {
          lkalen := lkalen - 1;
        }
      }
      c := 2 * c;
      if inWindow && lkalen < 1 {
        a0 := Num(a, n);
        ghost var z := Num(gtable[idxmult], n);
        if aisone {
          MpSetEqual(a, gtable[idxmult], n);
        } else {
          ModMultTemp(a, gtable[idxmult], m, n, t1, t2);
        }
        MultiplyAccumulator(aisone, a0, Num(a, n), G, c, z, idxmult, M);
        aisone := false;
        CloseWindow(E, rem - 1, c, idxmult);
        c := c + 2 * idxmult + 1;
        inWindow := false;
        lkalen := 0;
        NotInWindow(E, rem - 1, c, idxmult);
      }
      mask, nwd := NextBit(mask, nwd).0, NextBit(mask, nwd).1;
    }
    PosZero(mask, nwd);
    if inWindow {
      assert false;
    }
    Finished(E, c, aisone, Num(a, n), G, M, lkalen, idxmult);
  }

  lemma NotZero(e: nat, nbits: nat)
    requires nbits > 0 && Prefix(e, nbits - 1) == 1
    ensures e != 0
  {
    if e == 0 { ZeroPrefix(nbits - 1); }
  }

  lemma TopUnique(e: nat, a: nat, b: nat)
    requires Prefix(e, a) == 1 && Prefix(e, b) == 1
    ensures a == b
  {
    PrefixRange(e, a);
    PrefixRange(e, b);
    if a < b { Pow2Mono(a + 1, b); } else if b < a { Pow2Mono(b + 1, a); }
  }

  lemma PrefixRange(e: nat, a: nat)
    requires Prefix(e, a) == 1
    ensures Pow2(a) <= e < Pow2(a + 1)
  {
    Pow2Add(a, 1);
    Double();
    assert e == 1 * Pow2(a) + e % Pow2(a);
  }

  lemma TopBitSet(e: nat, nbits: nat)
    requires nbits > 0 && Prefix(e, nbits - 1) == 1
    ensures Bit(e, nbits - 1)
  {}

  lemma StartState(e: nat, nbits: nat, a: nat, g: nat, m: nat)
    requires Prefix(e, nbits) == 0
    ensures Accumulator(true, a, g, 0, m) && Consumed(e, nbits, 0, false, 0, 0)
  {}

  /** Outside a window the look-ahead fields do not matter. */
  lemma NotInWindow(e: nat, rem: nat, c: nat, idxmult: nat)
    ensures Consumed(e, rem, c, false, 0, idxmult) == Consumed(e, rem, c, false, 0, 0)
  {}

  lemma HalfIndex(lkabuf: nat, winlen: nat)
    requires winlen >= 1 && lkabuf < Pow2(winlen)
    ensures lkabuf / 2 < Pow2(winlen - 1)
  {
    Pow2Add(winlen - 1, 1);
    Double();
  }

  lemma Finished(e: nat, c: nat, aisone: bool, a: nat, g: nat, m: nat, lkalen: nat, idxmult: nat)
    requires Accumulator(aisone, a, g, c, m) && Consumed(e, 0, c, false, lkalen, idxmult) && e != 0
    ensures !aisone && Reduce(a, m) == Reduce(Pow(g, e), m)
  {
    PrefixZero(e);
  }

  /** mpModExp_windowed: `yout = g^e mod m`; 1 is returned for exponents 0 and 1. */
  method MpModExpWindowed(yout: array<Digit>, g: array<Digit>, e: array<Digit>, m: array<Digit>, n: nat)
    returns (code: int)
    requires 1 <= n <= yout.Length && n <= g.Length && n <= e.Length && n <= m.Length
    requires m != yout && m != g && m != e
    modifies yout, m
    ensures m[..] == old(m[..])
    ensures Num(yout, n) ==
      if old(Num(e, n)) == 0 then 1 else Reduce(Pow(old(Num(g, n)), old(Num(e, n))), old(Num(m, n)))
    ensures var G, E, M := old(Num(g, n)), old(Num(e, n)), old(Num(m, n));
      M > 0 ==> (Num(yout, n) == Pow(G, E) % M <==> E > 0 || M > 1)
    ensures SameOutside(yout[..], old(yout[..]), 0, n)
    ensures code == if old(Num(e, n)) <= 1 then 1 else 0
  {
    hide Val, P, Reduce, Pow, Prefix, Pow2;
    ghost var G, E, M := Num(g, n), Num(e, n), Num(m, n);
    RawPower(G, E, M);
    var nbits := MpBitLength(e, n);
    if nbits == 0 {
      Sizes();
      MpSetDigit(yout, 1, n);
      return 1;
    }
    BitsOfSmall(E, nbits);
    if nbits == 1 {
      PowOne(G);
      ReduceIs(G, M);
      MpModulo(yout, g, n, m, n);
      return 1;
    }
    var winlen := WindowLength(nbits);
    if winlen <= 1 {
      MpModExp1(yout, g, e, m, n);
      return 0;
    }
    var temp1 := MpAlloc(2 * n);
    var temp2 := MpAlloc(2 * n);
    var a := MpAlloc(2 * n);
    var gtable := BuildTable(g, m, n, Pow2(winlen - 1), temp1, temp2);
    ScanExponent(a, gtable, e, m, n, nbits, winlen, temp1, temp2, G);
    MpSetEqual(yout, a, n);
    return 0;
  }

  lemma BitsOfSmall(e: nat, nbits: nat)
    requires nbits > 0 && Prefix(e, nbits - 1) == 1
    ensures nbits == 1 <==> e == 1
    ensures nbits > 1 ==> e > 1
  {
    PrefixRange(e, nbits - 1);
    Pow2Add(0, 0);
    Double();
    if nbits > 1 { Pow2Mono(1, nbits - 1); }
  }

  /** mpModExp in the allocating build. */
  method MpModExp(yout: array<Digit>, x: array<Digit>, e: array<Digit>, m: array<Digit>, n: nat) returns (code: int)
    requires 1 <= n <= yout.Length && n <= x.Length && n <= e.Length && n <= m.Length
    requires m != yout && m != x && m != e
    modifies yout, m
    ensures m[..] == old(m[..])
    ensures Num(yout, n) ==
      if old(Num(e, n)) == 0 then 1 else Reduce(Pow(old(Num(x, n)), old(Num(e, n))), old(Num(m, n)))
    ensures var X, E, M := old(Num(x, n)), old(Num(e, n)), old(Num(m, n));
      M > 0 ==> (Num(yout, n) == Pow(X, E) % M <==> E > 0 || M > 1)
    ensures SameOutside(yout[..], old(yout[..]), 0, n)
    ensures code == if old(Num(e, n)) <= 1 then 1 else 0
  {
    code := MpModExpWindowed(yout, x, e, m, n);
  }
}
