/** The resizable numbers of BigDigits/bigd.c. */
module Bigds {
  import opened Arith
  import opened Digits
  import opened Value
  import opened Linear
  import opened Multiply
  import opened Square
  import opened Divide
  import opened Shift
  import opened ModExp

  function Larger(a: nat, b: nat): nat {
    if a > b then a else b
  }

  class Bigd {
    var digits: array<Digit>
    var ndigits: nat
    var maxdigits: nat

    /** bdNew. */
    constructor ()
      ensures Valid() && Number() == 0 && ndigits == 0 && fresh(digits)
    {
      digits := new Digit[1](_ => 0);
      ndigits := 0;
      maxdigits := 1;
      new;
      ValEmpty(digits[..], 0);
    }

    ghost predicate Shaped()
      reads this
    {
      1 <= maxdigits == digits.Length && ndigits <= maxdigits
    }

    /** An empty number has a zero in its first digit, which the short operations read. */
    ghost predicate Clean()
      requires Shaped()
      reads this, digits
    {
      ndigits == 0 ==> digits[0] == 0
    }

    ghost predicate Valid()
      reads this, digits
    {
      Shaped() && Clean()
    }

    ghost function Number(): nat
      requires Shaped()
      reads this, digits
    {
      Num(digits, ndigits)
    }

    /** bd_resize: room for `newsize` digits, those above the number being zero; digits beyond are cut off. */
    method Resize(newsize: nat)
      requires Shaped()
      modifies this, digits
      ensures Shaped() && newsize <= maxdigits && old(maxdigits) <= maxdigits
        && (digits == old(digits) || fresh(digits))
      ensures ndigits == if newsize < old(ndigits) then newsize else old(ndigits)
      ensures forall i | ndigits <= i < Larger(newsize, old(ndigits)) :: digits[i] == 0
      ensures newsize >= old(ndigits) ==> Number() == Num(digits, newsize) == old(Number())
      ensures digits[0] == if ndigits == 0 && Larger(newsize, old(ndigits)) > 0 then 0 else old(digits[0])
    {
      hide Val, P;
      if newsize < ndigits {
        for i := newsize to ndigits
          invariant Shaped() && digits == old(digits) && ndigits == old(ndigits) && maxdigits == old(maxdigits)
          invariant forall k | newsize <= k < i :: digits[k] == 0
          invariant i == 0 || newsize > 0 ==> digits[0] == old(digits[0])
        {
          digits[i] := 0;
        }
        ndigits := newsize;
        return;
      }
      if maxdigits < newsize {
        Grow(newsize);
      }
      ghost var was := digits[..];
      for i := ndigits to newsize
        invariant Shaped() && newsize <= maxdigits && ndigits == old(ndigits) && old(maxdigits) <= maxdigits
        invariant digits == old(digits) || fresh(digits)
        invariant forall k | ndigits <= k < i :: digits[..][k] == 0
        invariant SameOutside(digits[..], was, ndigits, i)
      {
        digits[i] := 0;
      }
      ValSame(digits[..], 0, was, 0, ndigits);
      ValTrim(digits[..], 0, ndigits, newsize);
      assert digits[..][0] == digits[0] && was[0] == old(digits[0]);
    }

    /** The larger array of bd_resize. */
    method Grow(newsize: nat)
      requires Shaped() && maxdigits < newsize
      modifies this`digits, this`maxdigits, digits
      ensures Shaped() && maxdigits == newsize && fresh(digits) && Number() == old(Number())
        && digits[0] == old(digits[0])
    {
      hide Val, P;
      var newp := new Digit[newsize](_ => 0);
      ghost var was := digits[..];
      for i := 0 to maxdigits
        invariant forall k | 0 <= k < i :: newp[..][k] == was[k]
        modifies newp
      {
        newp[i] := digits[i];
      }
      ValSame(newp[..], 0, was, 0, ndigits);
      assert newp[..][0] == was[0];
      MpSetZero(digits, maxdigits);
      digits := newp;
      maxdigits := newsize;
    }
  }

  /** Different numbers have different digit arrays. */
  ghost predicate Apart(a: Bigd, b: Bigd)
    reads a`digits, b`digits
  {
    a != b ==> a.digits != b.digits
  }

  /** Zeros above a number do not change it. */
  lemma Padded(b: Bigd, n: nat)
    requires b.Shaped() && b.ndigits <= n <= b.maxdigits && forall i | b.ndigits <= i < n :: b.digits[i] == 0
    ensures Num(b.digits, n) == b.Number()
  {
    ValTrim(b.digits[..], 0, b.ndigits, n);
  }

  /** A carry into the digit above. */
  lemma CarryDigit(s: seq<Digit>, t: seq<Digit>, n: nat, k: Digit)
    requires n < |s| == |t| && (forall i | 0 <= i < n :: t[i] == s[i]) && t[n] == k
    ensures Val(t, 0, n + 1) == Val(s, 0, n) + k * P(n)
  {
    ValExtend(s, t, 0, n);
  }

  /** The size set from the significant digits of a number of at least one digit. */
  lemma SizedClean(b: Bigd, n: nat)
    requires b.Shaped() && 0 < n <= b.maxdigits && b.Number() == Num(b.digits, n)
    ensures b.Clean()
  {
    if b.ndigits == 0 {
      ValEmpty(b.digits[..], 0);
      ValZero(b.digits[..], 0, n);
      assert b.digits[..][0] == b.digits[0];
    }
  }

  /** The carry out of a sum tells whether the sum exceeds the digits added. */
  lemma CarryIs(s: seq<Digit>, n: nat, carry: Digit)
    requires n <= |s| && carry <= 1
    ensures Val(s, 0, n) + carry * P(n) >= P(n) <==> carry == 1
  {
    ValBound(s, 0, n);
    if carry == 0 { assert carry * P(n) == 0; }
  }

  /** bdShortAdd reads the first digit even of an empty number: right exactly if that digit is zero. */
  method BdShortAdd(w: Bigd, u: Bigd, d: Digit) returns (carry: Digit)
    requires w.Shaped() && u.Shaped() && Apart(w, u)
    modifies w, w.digits
    ensures w.Valid() && w.Number() == old(Seen(w, u)) + d && (w.digits == old(w.digits) || fresh(w.digits))
    ensures carry == if old(Seen(w, u)) + d >= P(old(Larger(u.ndigits, 1))) then 1 else 0
  {
    hide Val, P;
    Sizes();
    SeenDigits(w, u);
    var digSize := Larger(u.ndigits, 1);
    w.Resize(digSize + 1);
    if w == u { Padded(u, digSize); }
    carry := MpShortAdd(w.digits, u.digits, d, digSize);
    CarryIs(w.digits[..], digSize, carry);
    StoreCarry(w, digSize, carry);
  }

  /** A carry stored in the digit above; the size is not reduced. */
  method StoreCarry(w: Bigd, digSize: nat, carry: Digit)
    requires w.Shaped() && 0 < digSize < w.maxdigits
    modifies w`ndigits, w.digits
    ensures w.Valid() && w.Number() == old(Num(w.digits, digSize)) + carry * P(digSize)
  {
    hide Val, P;
    if carry != 0 {
      ghost var s := w.digits[..];
      w.digits[digSize] := carry;
      CarryDigit(s, w.digits[..], digSize, carry);
      w.ndigits := digSize + 1;
    } else {
      w.ndigits := digSize;
    }
  }

  /** What the short addition takes for the number `u`. */
  ghost function Seen(w: Bigd, u: Bigd): nat
    requires u.Shaped()
    reads u, u.digits
  {
    if w == u || u.Clean() then u.Number() else u.digits[0]
  }

  lemma SeenDigits(w: Bigd, u: Bigd)
    requires u.Shaped()
    ensures w != u ==> Seen(w, u) == Num(u.digits, Larger(u.ndigits, 1))
  {
    if u.ndigits == 0 {
      OneDigit(u.digits[..], 1);
      ValEmpty(u.digits[..], 0);
    }
  }

  /** Setting the size of a result: one digit more for a carry. */
  method FinishSum(w: Bigd, digSize: nat, carry: Digit)
    requires w.Shaped() && digSize < w.maxdigits
    modifies w`ndigits, w.digits
    ensures w.Shaped() && w.Number() == old(Num(w.digits, digSize)) + carry * P(digSize)
    ensures w.Clean() <==> (digSize > 0 || carry != 0 || old(w.digits[0]) == 0)
    ensures !w.Clean() ==> w.digits[0] == old(w.digits[0])
  {
    hide Val, P;
    ghost var s := w.digits[..];
    if carry != 0 {
      w.digits[digSize] := carry;
      CarryDigit(s, w.digits[..], digSize, carry);
      w.ndigits := digSize + 1;
    } else {
      w.ndigits := MpSizeof(w.digits, digSize);
      if digSize > 0 { SizedClean(w, digSize); }
    }
  }

  /** Two operands brought to the same size. */
  method ResizePair(u: Bigd, v: Bigd, n: nat)
    requires u.Valid() && v.Valid() && Apart(u, v) && u.ndigits <= n && v.ndigits <= n
    modifies u, u.digits, v, v.digits
    ensures u.Valid() && v.Valid() && Apart(u, v) && n <= u.maxdigits && n <= v.maxdigits
    ensures u.ndigits == old(u.ndigits) && v.ndigits == old(v.ndigits)
    ensures (u.digits == old(u.digits) || fresh(u.digits)) && (v.digits == old(v.digits) || fresh(v.digits))
    ensures u.Number() == Num(u.digits, n) == old(u.Number()) && v.Number() == Num(v.digits, n) == old(v.Number())
    ensures forall i | u.ndigits <= i < n :: u.digits[i] == 0
  {
    hide Val, P;
    v.Resize(n);
    u.Resize(n);
    if u == v { Padded(v, n); }
  }

  /** Operands of the same size and room for the result. */
  method Prepare(w: Bigd, u: Bigd, v: Bigd, n: nat, wn: nat)
    requires w.Shaped() && u.Valid() && v.Valid() && w != v && Apart(w, u) && Apart(w, v) && Apart(u, v)
    requires n == Larger(u.ndigits, v.ndigits) <= wn
    modifies w, w.digits, u, u.digits, v, v.digits
    ensures w.Shaped() && u.Valid() && v.Valid() && Apart(w, u) && Apart(w, v) && Apart(u, v)
    ensures n <= u.maxdigits && n <= v.maxdigits && wn <= w.maxdigits
    ensures Num(u.digits, n) == old(u.Number()) && v.Number() == Num(v.digits, n) == old(v.Number())
    ensures u != w ==> u.Number() == old(u.Number())
    ensures w.digits == old(w.digits) || fresh(w.digits)
    ensures (u.digits == old(u.digits) || fresh(u.digits)) && (v.digits == old(v.digits) || fresh(v.digits))
    ensures n == 0 ==> w.digits[0] == if (wn > 0) == (old(w.ndigits) == 0) then 0 else old(w.digits[0])
  {
    hide Val, P;
    ResizePair(u, v, n);
    ghost var d0 := w.digits[0];
    w.Resize(wn);
    if w == u { Padded(u, n); }
  }

  /**
   * bdAdd. The sum is right, but when both summands are empty a stale first digit stays behind in an empty
   * result; the invariant that an empty number has a zero digit survives exactly otherwise.
   */
  method BdAdd(w: Bigd, u: Bigd, v: Bigd) returns (carry: Digit)
    requires w.Shaped() && u.Valid() && v.Valid() && w != v && Apart(w, u) && Apart(w, v) && Apart(u, v)
    modifies w, w.digits, u, u.digits, v, v.digits
    ensures w.Shaped() && w.Number() == old(u.Number()) + old(v.Number())
    ensures w.Clean() <==> (old(u.ndigits) > 0 || old(v.ndigits) > 0 || old(w.ndigits) == 0 || old(w.digits[0]) == 0)
    ensures !w.Clean() ==> w.digits[0] == old(w.digits[0])
    ensures u != w ==> u.Valid() && u.Number() == old(u.Number())
    ensures v.Valid() && v.Number() == old(v.Number())
    ensures carry == if old(u.Number()) + old(v.Number()) >= P(old(Width(u, v))) then 1 else 0
    ensures Apart(w, u) && Apart(w, v) && Apart(u, v) && (w.digits == old(w.digits) || fresh(w.digits))
    ensures (u.digits == old(u.digits) || fresh(u.digits)) && (v.digits == old(v.digits) || fresh(v.digits))
  {
    hide Val, P;
    Sizes();
    if v.ndigits == 1 {
      OneDigit(v.digits[..], 1);
      carry := BdShortAdd(w, u, v.digits[0]);
      return;
    }
    var digSize := Larger(u.ndigits, v.ndigits);
    Prepare(w, u, v, digSize, digSize + 1);
    ghost var before := w.digits[..];
    carry := MpAdd(w.digits, 0, u.digits, 0, v.digits, digSize);
    CarryIs(w.digits[..], digSize, carry);
    if digSize == 0 {
      ValEmpty(w.digits[..], 0);
      ValEmpty(u.digits[..], 0);
      ValEmpty(v.digits[..], 0);
      assert w.digits[..][0] == w.digits[0] == before[0];
    }
    FinishSum(w, digSize, carry);
  }

  /** bdShortSub. */
  method BdShortSub(w: Bigd, u: Bigd, d: Digit) returns (borrow: Digit)
    requires w.Shaped() && u.Valid() && Apart(w, u)
    modifies w, w.digits
    ensures w.Valid() && (w.digits == old(w.digits) || fresh(w.digits))
    ensures borrow == if old(u.Number()) < d then 1 else 0
    ensures w.Number() == old(u.Number()) - d + borrow * P(old(Larger(u.ndigits, 1)))
  {
    hide Val, P;
    Sizes();
    var digSize := Larger(u.ndigits, 1);
    w.Resize(digSize);
    Padded(u, digSize);
    borrow := MpShortSub(w.digits, u.digits, d, digSize);
    w.ndigits := digSize;
  }

  /** bdSubtract: exact where there is no borrow. */
  method BdSubtract(w: Bigd, u: Bigd, v: Bigd) returns (borrow: Digit)
    requires w.Shaped() && u.Valid() && v.Valid() && w != v && Apart(w, u) && Apart(w, v) && Apart(u, v)
    modifies w, w.digits, u, u.digits, v, v.digits
    ensures w.Shaped() && (old(w.Clean()) ==> w.Clean())
    ensures borrow == if old(u.Number()) < old(v.Number()) then 1 else 0
    ensures w.Number() == old(u.Number()) - old(v.Number()) + borrow * P(old(Width(u, v)))
    ensures u != w ==> u.Valid() && u.Number() == old(u.Number())
    ensures v.Valid() && v.Number() == old(v.Number())
    ensures Apart(w, u) && Apart(w, v) && Apart(u, v) && (w.digits == old(w.digits) || fresh(w.digits))
    ensures (u.digits == old(u.digits) || fresh(u.digits)) && (v.digits == old(v.digits) || fresh(v.digits))
  {
    hide Val, P;
    Sizes();
    if v.ndigits == 1 {
      OneDigit(v.digits[..], 1);
      borrow := BdShortSub(w, u, v.digits[0]);
      return;
    }
    var digSize := Larger(u.ndigits, v.ndigits);
    Prepare(w, u, v, digSize, digSize);
    ghost var before := w.digits[..];
    borrow := MpSubtract(w.digits, u.digits, v.digits, digSize);
    if digSize == 0 { assert w.digits[..][0] == w.digits[0] == before[0]; }
    FinishSize(w, digSize);
  }

  /** The digits over which a sum or difference is taken. */
  ghost function Width(u: Bigd, v: Bigd): nat
    reads u, v
  {
    if v.ndigits == 1 then Larger(u.ndigits, 1) else Larger(u.ndigits, v.ndigits)
  }

  /** Setting the size of a result to its significant digits. */
  method FinishSize(w: Bigd, n: nat)
    requires w.Shaped() && n <= w.maxdigits
    modifies w`ndigits
    ensures w.Shaped() && w.Number() == Num(w.digits, n) && (w.Clean() <==> n > 0 || w.digits[0] == 0)
  {
    hide Val, P;
    w.ndigits := MpSizeof(w.digits, n);
    if n > 0 { SizedClean(w, n); }
  }

  /** bdShortMult, with the same stale digit as bdAdd if the factor is empty. */
  method BdShortMult(w: Bigd, u: Bigd, d: Digit)
    requires w.Shaped() && u.Valid() && Apart(w, u)
    modifies w, w.digits
    ensures w.Shaped() && w.Number() == old(u.Number()) * d && (w.digits == old(w.digits) || fresh(w.digits))
    ensures w.Clean() <==> (old(u.ndigits) > 0 || old(w.ndigits) == 0 || old(w.digits[0]) == 0)
  {
    hide Val, P;
    var digSize := u.ndigits;
    if digSize == 0 { ValEmpty(u.digits[..], 0); }
    w.Resize(digSize + 1);
    ghost var before := w.digits[..];
    var overflow := MpShortMult(w.digits, u.digits, d, digSize);
    if digSize == 0 {
      ValEmpty(w.digits[..], 0);
      assert w.digits[..][0] == w.digits[0] == before[0];
    }
    FinishSum(w, digSize, overflow);
  }

  /** bdMultiply; a one-digit second factor takes the short path and its stale digit. */
  method BdMultiply(w: Bigd, u: Bigd, v: Bigd)
    requires w.Valid() && u.Valid() && v.Valid() && w != u && w != v && Apart(w, u) && Apart(w, v) && Apart(u, v)
    modifies w, w.digits, u, u.digits, v, v.digits
    ensures w.Shaped() && w.Number() == old(u.Number()) * old(v.Number())
    ensures w.Clean() <==> !(old(v.ndigits) == 1 && old(u.ndigits) == 0 && old(w.digits[0]) != 0)
    ensures u.Valid() && u.Number() == old(u.Number()) && v.Valid() && v.Number() == old(v.Number())
    ensures Apart(w, u) && Apart(w, v) && Apart(u, v)
    ensures (u.digits == old(u.digits) || fresh(u.digits)) && (v.digits == old(v.digits) || fresh(v.digits))
    ensures w.digits == old(w.digits) || fresh(w.digits)
  {
    hide Val, P;
    if v.ndigits == 1 {
      OneDigit(v.digits[..], 1);
      BdShortMult(w, u, v.digits[0]);
      return;
    }
    var digSize := Larger(u.ndigits, v.ndigits);
    Prepare(w, u, v, digSize, 2 * digSize);
    ghost var before := w.digits[..];
    MpMultiply(w.digits, u.digits, v.digits, digSize);
    if digSize == 0 { assert w.digits[..][0] == w.digits[0] == before[0]; }
    FinishSize(w, 2 * digSize);
  }

  /** bdSquare. */
  method BdSquare(w: Bigd, x: Bigd)
    requires w.Shaped() && x.Valid() && w != x && Apart(w, x)
    modifies w, w.digits
    ensures w.Valid() && w.Number() == old(x.Number()) * old(x.Number())
    ensures w.digits == old(w.digits) || fresh(w.digits)
  {
    hide Val, P;
    var digSize := Larger(x.ndigits, 1);
    w.Resize(2 * digSize);
    Padded(x, digSize);
    MpSquare(w.digits, x.digits, digSize);
    FinishSize(w, 2 * digSize);
  }

  /** bdSetEqual. */
  method BdSetEqual(a: Bigd, b: Bigd)
    requires a.Shaped() && b.Shaped() && Apart(a, b)
    modifies a, a.digits
    ensures a.Shaped() && a.Number() == old(b.Number()) && a.ndigits == old(b.ndigits) && (old(a.Clean()) ==> a.Clean())
    ensures a.digits == old(a.digits) || fresh(a.digits)
  {
    hide Val, P;
    a.Resize(b.ndigits);
    ghost var before := a.digits[..];
    MpSetEqual(a.digits, b.digits, b.ndigits);
    if b.ndigits == 0 { assert a.digits[..][0] == a.digits[0] == before[0]; }
    a.ndigits := b.ndigits;
  }

  /** bdSetZero clears only the digits in use. */
  method BdSetZero(a: Bigd)
    requires a.Shaped()
    modifies a`ndigits, a.digits
    ensures a.Shaped() && a.Number() == 0 && a.ndigits == 0
    ensures a.Clean() <==> old(a.ndigits) > 0 || old(a.digits[0]) == 0
  {
    hide Val, P;
    ghost var before := a.digits[..];
    MpSetZero(a.digits, a.ndigits);
    if a.ndigits == 0 { assert a.digits[..][0] == a.digits[0] == before[0]; }
    a.ndigits := 0;
    ValEmpty(a.digits[..], 0);
  }

  /** bdSetShort. */
  method BdSetShort(b: Bigd, value: Digit)
    requires b.Shaped()
    modifies b, b.digits
    ensures b.Valid() && b.Number() == value && b.digits[0] == value && (value != 0 ==> b.ndigits == 1)
    ensures b.digits == old(b.digits) || fresh(b.digits)
  {
    hide Val, P;
    b.Resize(1);
    b.digits[0] := value;
    b.ndigits := if value != 0 then 1 else 0;
    OneDigit(b.digits[..], 1);
    ValEmpty(b.digits[..], 0);
  }

  /** bdMultiply_s: through a copy, so any overlap is allowed, and no stale digit gets out. */
  method BdMultiplySafe(w: Bigd, u: Bigd, v: Bigd)
    requires w.Valid() && u.Valid() && v.Valid() && Apart(w, u) && Apart(w, v) && Apart(u, v)
    modifies w, w.digits, u, u.digits, v, v.digits
    ensures w.Valid() && w.Number() == old(u.Number()) * old(v.Number())
    ensures u.Valid() && (u != w ==> u.Number() == old(u.Number()))
    ensures v.Valid() && (v != w ==> v.Number() == old(v.Number()))
    ensures Apart(w, u) && Apart(w, v) && Apart(u, v)
    ensures (w.digits == old(w.digits) || fresh(w.digits)) && (u.digits == old(u.digits) || fresh(u.digits))
    ensures v.digits == old(v.digits) || fresh(v.digits)
  {
    hide Num;
    var ww := new Bigd();
    BdSetEqual(ww, w);
    BdMultiply(ww, u, v);
    BdSetEqual(w, ww);
  }

  /** bdSquare_s. */
  method BdSquareSafe(w: Bigd, x: Bigd)
    requires w.Valid() && x.Valid() && Apart(w, x)
    modifies w, w.digits
    ensures w.Valid() && w.Number() == old(x.Number()) * old(x.Number())
    ensures w.digits == old(w.digits) || fresh(w.digits)
  {
    hide Num;
    var ww := new Bigd();
    BdSetEqual(ww, w);
    BdSquare(ww, x);
    BdSetEqual(w, ww);
  }

  lemma Reassociate(y: int, q: int, z: int)
    ensures y * (q * z) == (z * y) * q
  {}

  lemma PowerStep(y: int, z: int, n: nat, h: nat, b: nat)
    requires n == h + h + b && b <= 1
    ensures y * Pow(z, n) == (if b == 1 then z * y else y) * Pow(z * z, h)
  {
    hide Pow;
    HalfPower(z, h, b);
    if b == 1 { Reassociate(y, Pow(z * z, h), z); }
  }

  /** One bit of the exponent. */
  method PowerRound(y: Bigd, z: Bigd, n: nat) returns (e: nat)
    requires y.Valid() && z.Valid() && y != z && Apart(y, z) && n > 0
    modifies y, y.digits, z, z.digits
    ensures y.Valid() && z.Valid() && Apart(y, z) && e == n / 2
    ensures (y.digits == old(y.digits) || fresh(y.digits)) && (z.digits == old(z.digits) || fresh(z.digits))
    ensures y.Number() == if n % 2 == 1 then old(z.Number()) * old(y.Number()) else old(y.Number())
    ensures e > 0 ==> z.Number() == old(z.Number()) * old(z.Number())
  {
    hide Num;
    if n % 2 == 1 {
      BdMultiplySafe(y, z, y);
    }
    e := n / 2;
    if e > 0 {
      BdSquareSafe(z, z);
    }
  }

  /**
   * bdPower, right to left. It sets `y` to one before it copies the base, so the base must be another number:
   * given `y` itself it answers one, which is right for no other exponent than zero and no other base than one.
   */
  method BdPower(y: Bigd, g: Bigd, n: nat)
    requires y.Valid() && g.Valid() && Apart(y, g)
    modifies y, y.digits
    ensures y.Valid() && y.Number() == if y == g then 1 else Pow(old(g.Number()), n)
    ensures y.Number() == Pow(old(g.Number()), n) <==> y != g || n == 0 || old(g.Number()) == 1
    ensures y.digits == old(y.digits) || fresh(y.digits)
  {
    hide Num, Val, P, Pow;
    Sizes();
    PowerIsOne(g.Number(), n);
    var z := new Bigd();
    BdSetShort(y, 1);
    BdSetEqual(z, g);
    ghost var base := g.Number();
    PowerIsOne(1, n);
    PowOne(base);
    var e := n;
    while e > 0
      invariant y.Valid() && z.Valid() && y != z && Apart(y, z) && fresh(z) && fresh(z.digits)
      invariant y.digits == old(y.digits) || fresh(y.digits)
      invariant y.Number() * (if e == 0 then 1 else Pow(z.Number(), e)) == Pow(base, n)
      decreases e
    {
      PowerStep(y.Number(), z.Number(), e, e / 2, e % 2);
      PowOne(z.Number() * z.Number());
      e := PowerRound(y, z, e);
    }
  }

  lemma {:induction false} PowerIsOne(b: nat, n: nat)
    ensures Pow(b, n) >= 0 && (Pow(b, n) == 1 <==> n == 0 || b == 1)
  {
    if n > 0 {
      PowerIsOne(b, n - 1);
      if b >= 2 { PowPos(b, n - 1); MulLe(1, Pow(b, n - 1), b); }
    }
  }

  /** bdDivide: quotient and remainder; both zero for a zero divisor. */
  method BdDivide(q: Bigd, r: Bigd, u: Bigd, v: Bigd)
    requires q.Valid() && r.Valid() && u.Valid() && v.Valid()
    requires q != r && q != u && q != v && r != u && r != v
    requires Apart(q, r) && Apart(q, u) && Apart(q, v) && Apart(r, u) && Apart(r, v) && Apart(u, v)
    modifies q, q.digits, r, r.digits, v.digits
    ensures q.Valid() && r.Valid() && v.Valid() && v.Number() == old(v.Number())
    ensures v.Number() == 0 ==> q.Number() == 0 && r.Number() == 0
    ensures Apart(q, r) && Apart(q, u) && Apart(q, v) && Apart(r, u) && Apart(r, v)
    ensures (q.digits == old(q.digits) || fresh(q.digits)) && (r.digits == old(r.digits) || fresh(r.digits))
    ensures u.Valid() && u.Number() == old(u.Number())
    ensures v.Number() != 0 ==> u.Number() == q.Number() * v.Number() + r.Number() && r.Number() < v.Number()
  {
    hide Val, P;
    var digSize := u.ndigits;
    q.Resize(digSize);
    r.Resize(digSize);
    ghost var q0 := q.digits[..];
    var code := MpDivide(q.digits, r.digits, u.digits, digSize, v.digits, v.ndigits);
    assert v.digits[..][0] == v.digits[0];
    if digSize == 0 { assert q.digits[..][0] == q.digits[0] == q0[0]; }
    FinishSize(q, digSize);
    FinishSize(r, digSize);
  }

  /** bdModulo, also into the modulus; a zero modulus gives 0. */
  method BdModulo(r: Bigd, u: Bigd, v: Bigd)
    requires r.Valid() && u.Valid() && v.Valid() && r != u && Apart(r, u) && Apart(r, v) && Apart(u, v)
    modifies r, r.digits, v.digits
    ensures r.Valid() && r.Number() == if old(v.Number()) == 0 then 0 else old(u.Number()) % old(v.Number())
    ensures u.Valid() && u.Number() == old(u.Number())
    ensures r != v ==> v.Valid() && v.Number() == old(v.Number())
    ensures Apart(r, u) && Apart(r, v)
    ensures r.digits == old(r.digits) || fresh(r.digits)
  {
    hide Val, P;
    var nr := v.ndigits;
    r.Resize(nr);
    ghost var r0 := r.digits[..];
    MpModulo(r.digits, u.digits, u.ndigits, v.digits, nr);
    assert r != v ==> v.digits[..][0] == v.digits[0];
    if nr == 0 { assert r.digits[..][0] == r.digits[0] == r0[0]; }
    FinishSize(r, nr);
  }

  lemma ShiftRoom(x: nat, nd: nat, s: nat)
    requires x < P(nd)
    ensures x * Pow2(s) < P(nd + s / BITS + 1) && x * Pow2(s) % P(nd + s / BITS + 1) == x * Pow2(s)
  {
    hide P, Pow;
    var k := s / BITS;
    assert s < (k + 1) * BITS;
    PowMono(2, s, (k + 1) * BITS);
    WholeDigits(k + 1);
    PAdd(nd, k + 1);
    PowPos(2, s);
    Below(x, P(nd), Pow2(s), P(k + 1));
  }

  lemma Below(x: nat, p: nat, y: nat, q: nat)
    requires x < p && 0 < y <= q
    ensures 0 <= x * y < p * q && (x * y) % (p * q) == x * y
  {
    MulLt(x, p, y);
    MulLe(y, q, p);
    MulLe(0, x, y);
    Assoc(q, p, 1);
    DivModUnique(x * y, p * q, 0, x * y);
  }

  /** Room in both numbers, which keeps the one to be read. */
  method Widen(a: Bigd, b: Bigd, n: nat)
    requires a.Shaped() && b.Valid() && Apart(a, b) && b.ndigits <= n
    modifies a, a.digits, b, b.digits
    ensures a.Shaped() && b.Valid() && n <= a.maxdigits && n <= b.maxdigits
    ensures b.Number() == Num(b.digits, n) == old(b.Number())
    ensures (a.digits == old(a.digits) || fresh(a.digits)) && (b.digits == old(b.digits) || fresh(b.digits))
      && Apart(a, b)
  {
    hide Val, P;
    a.Resize(n);
    b.Resize(n);
  }

  /** bdShiftLeft, by any amount. */
  method BdShiftLeft(a: Bigd, b: Bigd, s: nat)
    requires a.Shaped() && b.Valid() && Apart(a, b)
    modifies a, a.digits, b, b.digits
    ensures a.Valid() && a.Number() == old(b.Number()) * Pow2(s)
    ensures a != b ==> b.Valid() && b.Number() == old(b.Number())
    ensures (a.digits == old(a.digits) || fresh(a.digits)) && (b.digits == old(b.digits) || fresh(b.digits))
      && Apart(a, b)
  {
    hide Val, P, Pow2, Pow;
    var digSize := b.ndigits;
    if s >= BITS {
      digSize := digSize + s / BITS;
    }
    digSize := digSize + 1;
    ValBound(b.digits[..], 0, b.ndigits);
    ShiftRoom(b.Number(), b.ndigits, s);
    Widen(a, b, digSize);
    var carry := MpShiftLeft(a.digits, b.digits, s, digSize);
    FinishSize(a, digSize);
  }

  /** bdCompare: the sign of `a - b`. */
  method BdCompare(a: Bigd, b: Bigd) returns (c: int)
    requires a.Shaped() && b.Shaped()
    ensures c == if a.Number() < b.Number() then -1 else if a.Number() > b.Number() then 1 else 0
  {
    hide Val, P;
    var n := a.ndigits;
    if a.ndigits != b.ndigits {
      var na := MpSizeof(a.digits, a.ndigits);
      var nb := MpSizeof(b.digits, b.ndigits);
      if na > nb {
        SmallerBySize(b.digits[..], nb, a.digits[..], na);
        return 1;
      }
      if na < nb {
        SmallerBySize(a.digits[..], na, b.digits[..], nb);
        return -1;
      }
      n := na;
    }
    c := MpCompare(a.digits, b.digits, n);
  }

  /** Where the invariant fails: after 0 + 0 into a number holding 5, adding one to the sum 0 gives 6. */
  method StaleDigit() returns (x: Bigd)
    ensures x.Shaped() && x.Number() == 6
  {
    Sizes();
    hide Val, P, Num;
    var w := new Bigd();
    var u := new Bigd();
    var v := new Bigd();
    BdSetShort(w, 5);
    var carry := BdAdd(w, u, v);
    assert w.Number() == 0;
    x := new Bigd();
    carry := BdShortAdd(x, w, 1);
  }
}
