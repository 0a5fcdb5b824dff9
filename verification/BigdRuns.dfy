/**
 * Sequences of calls on the numbers of BigDigits/bigd.c: as long as no call leaves a stale digit behind or
 * borrows, a set of objects stands for the numbers that the same operations give on the integers.
 */
module BigdRuns {
  import opened Arith
  import opened Digits
  import opened Linear
  import opened Bigds

  /** The operations with one result `w`, from operands `u` and `v` as far as they have them. */
  datatype Operation =
    | Add | Subtract | Multiply | MultiplySafe | Modulo
    | Square | SquareSafe | SetEqual | SetZero | SetShort(d: Digit)
    | ShortAdd(d: Digit) | ShortSub(d: Digit) | ShortMult(d: Digit) | Power(n: nat) | ShiftLeft(s: nat)

  datatype Command = Compute(op: Operation, w: nat, u: nat, v: nat) | Divide(q: nat, r: nat, u: nat, v: nat)

  /** The operation on the integers. */
  function Result(op: Operation, x: int, y: int): int {
    match op
    case Add => x + y
    case Subtract => x - y
    case Multiply => x * y
    case MultiplySafe => x * y
    case Modulo => if y == 0 then 0 else x % y
    case Square => x * x
    case SquareSafe => x * x
    case SetEqual => x
    case SetZero => 0
    case SetShort(d) => d
    case ShortAdd(d) => x + d
    case ShortSub(d) => x - d
    case ShortMult(d) => x * d
    case Power(n) => Pow(x, n)
    case ShiftLeft(s) => x * Pow2(s)
  }

  /** The overlap rules of bigd.h, written w#v there. */
  predicate Separate<T(==)>(op: Operation, w: T, u: T, v: T) {
    match op
    case Add => w != v
    case Subtract => w != v
    case Multiply => w != u && w != v
    case Modulo => w != u
    case Square => w != u
    case _ => true
  }

  /** No stale digit stays behind, no difference is negative, no power is taken in place. */
  ghost predicate Exact(op: Operation, w: Bigd, u: Bigd, v: Bigd)
    requires w.Shaped() && u.Shaped() && v.Shaped()
    reads w, u, v, w.digits, u.digits, v.digits
  {
    match op
    case Add => u.ndigits > 0 || v.ndigits > 0 || w.ndigits == 0 || w.digits[0] == 0
    case Multiply => v.ndigits != 1 || u.ndigits != 0 || w.digits[0] == 0
    case ShortMult(d) => u.ndigits > 0 || w.ndigits == 0 || w.digits[0] == 0
    case Subtract => u.Number() >= v.Number()
    case ShortSub(d) => u.Number() >= d
    case Power(n) => w != u || n == 0 || u.Number() == 1
    case _ => true
  }

  /** The condition as a caller can check it. */
  method IsExact(op: Operation, w: Bigd, u: Bigd, v: Bigd) returns (b: bool)
    requires w.Shaped() && u.Shaped() && v.Shaped()
    ensures b <==> Exact(op, w, u, v)
  {
    hide Num;
    Sizes();
    match op
    case Add => return u.ndigits > 0 || v.ndigits > 0 || w.ndigits == 0 || w.digits[0] == 0;
    case Multiply => return v.ndigits != 1 || u.ndigits != 0 || w.digits[0] == 0;
    case ShortMult(d) => return u.ndigits > 0 || w.ndigits == 0 || w.digits[0] == 0;
    case Subtract =>
      var c := BdCompare(u, v);
      return c >= 0;
    case ShortSub(d) =>
      var c := MpShortCmp(u.digits, d, u.ndigits);
      return c >= 0;
    case Power(n) =>
      var c := MpShortCmp(u.digits, 1, u.ndigits);
      return w != u || n == 0 || c == 0;
    case _ => return true;
  }

  /** An operation with two operands. */
  method ApplyLong(op: Operation, w: Bigd, u: Bigd, v: Bigd)
    requires op.Add? || op.Subtract? || op.Multiply? || op.MultiplySafe? || op.Modulo?
    requires w.Valid() && u.Valid() && v.Valid() && Apart(w, u) && Apart(w, v) && Apart(u, v) && Separate(op, w, u, v)
    modifies w, w.digits, u, u.digits, v, v.digits
    ensures w.Shaped()
    ensures w.Clean() && w.Number() == Result(op, old(u.Number()), old(v.Number())) <==> old(Exact(op, w, u, v))
    ensures u != w ==> u.Valid() && u.Number() == old(u.Number())
    ensures v != w ==> v.Valid() && v.Number() == old(v.Number())
    ensures Apart(w, u) && Apart(w, v) && Apart(u, v) && (w.digits == old(w.digits) || fresh(w.digits))
    ensures (u.digits == old(u.digits) || fresh(u.digits)) && (v.digits == old(v.digits) || fresh(v.digits))
  {
    hide Num;
    match op
    case Add => var carry := BdAdd(w, u, v);
    case Subtract =>
      var borrow := BdSubtract(w, u, v);
    case Multiply => BdMultiply(w, u, v);
    case MultiplySafe => BdMultiplySafe(w, u, v);
    case Modulo => BdModulo(w, u, v);
  }

  /** An operation with one operand or none. */
  method ApplyShort(op: Operation, w: Bigd, u: Bigd)
    requires !(op.Add? || op.Subtract? || op.Multiply? || op.MultiplySafe? || op.Modulo?)
    requires w.Valid() && u.Valid() && Apart(w, u) && Separate(op, w, u, u)
    modifies w, w.digits, u, u.digits
    ensures w.Shaped() && (w.Clean() && w.Number() == Result(op, old(u.Number()), 0) <==> old(Exact(op, w, u, u)))
    ensures u != w ==> u.Valid() && u.Number() == old(u.Number())
    ensures Apart(w, u) && (w.digits == old(w.digits) || fresh(w.digits))
      && (u.digits == old(u.digits) || fresh(u.digits))
  {
    hide Num, Pow, Pow2;
    match op
    case Square => BdSquare(w, u);
    case SquareSafe => BdSquareSafe(w, u);
    case SetEqual => BdSetEqual(w, u);
    case SetZero => BdSetZero(w);
    case SetShort(d) => BdSetShort(w, d);
    case ShortAdd(d) => var carry := BdShortAdd(w, u, d);
    case ShortSub(d) => var borrow := BdShortSub(w, u, d);
    case ShortMult(d) => BdShortMult(w, u, d);
    case Power(n) => BdPower(w, u, n);
    case ShiftLeft(s) => BdShiftLeft(w, u, s);
  }

  ghost function DigitArrays(bs: seq<Bigd>): set<array<Digit>>
    reads bs`digits
  {
    set b | b in bs :: b.digits
  }

  /** Different objects with arrays of their own. */
  ghost predicate Stored(bs: seq<Bigd>)
    reads bs, DigitArrays(bs)
  {
    && (forall i | 0 <= i < |bs| :: bs[i].Valid())
    && (forall i, j | 0 <= i < j < |bs| :: bs[i] != bs[j] && bs[i].digits != bs[j].digits)
  }

  ghost function Numbers(bs: seq<Bigd>): (xs: seq<int>)
    requires Stored(bs)
    reads bs, DigitArrays(bs)
    ensures |xs| == |bs| && forall i | 0 <= i < |bs| :: xs[i] == bs[i].Number()
  {
    seq(|bs|, i requires 0 <= i < |bs| && Stored(bs) reads bs, DigitArrays(bs) => bs[i].Number())
  }

  /** The call names objects there are, and keeps to the overlap rules. */
  predicate Fits(c: Command, n: nat) {
    match c
    case Compute(op, w, u, v) => w < n && u < n && v < n && Separate(op, w, u, v)
    case Divide(q, r, u, v) => q < n && r < n && u < n && v < n && q != r && q != u && q != v && r != u && r != v
  }

  ghost predicate ExactCall(c: Command, bs: seq<Bigd>)
    requires Fits(c, |bs|) && Stored(bs)
    reads bs, DigitArrays(bs)
  {
    c.Compute? ==> Exact(c.op, bs[c.w], bs[c.u], bs[c.v])
  }

  /** The call on a sequence of integers. */
  function Meaning(c: Command, xs: seq<int>): (ys: seq<int>)
    requires Fits(c, |xs|)
    ensures |ys| == |xs|
  {
    match c
    case Compute(op, w, u, v) => xs[w := Result(op, xs[u], xs[v])]
    case Divide(q, r, u, v) =>
      if xs[v] == 0 then xs[q := 0][r := 0] else xs[q := xs[u] / xs[v]][r := xs[u] % xs[v]]
  }

  /** The calls in order. */
  function Outcome(cs: seq<Command>, xs: seq<int>): (ys: seq<int>)
    requires forall c | c in cs :: Fits(c, |xs|)
    ensures |ys| == |xs|
  {
    if cs == [] then xs else Meaning(cs[|cs| - 1], Outcome(cs[..|cs| - 1], xs))
  }

  /** A call with two operands among the objects. */
  method StepLong(bs: seq<Bigd>, op: Operation, w: nat, u: nat, v: nat)
    requires op.Add? || op.Subtract? || op.Multiply? || op.MultiplySafe? || op.Modulo?
    requires Stored(bs) && Fits(Compute(op, w, u, v), |bs|) && Exact(op, bs[w], bs[u], bs[v])
    modifies bs[w], bs[w].digits, bs[u], bs[u].digits, bs[v], bs[v].digits
    ensures Stored(bs) && bs[w].Number() == Result(op, old(bs[u].Number()), old(bs[v].Number()))
    ensures forall i | 0 <= i < |bs| && i != w :: bs[i].Number() == old(bs[i].Number())
    ensures forall i | 0 <= i < |bs| :: bs[i].digits == old(bs[i].digits) || fresh(bs[i].digits)
  {
    hide Num, Result, Exact;
    ApplyLong(op, bs[w], bs[u], bs[v]);
  }

  /** A call with one operand or none among the objects. */
  method StepShort(bs: seq<Bigd>, op: Operation, w: nat, u: nat)
    requires !(op.Add? || op.Subtract? || op.Multiply? || op.MultiplySafe? || op.Modulo?)
    requires Stored(bs) && w < |bs| && u < |bs| && Separate(op, w, u, u) && Exact(op, bs[w], bs[u], bs[u])
    modifies bs[w], bs[w].digits, bs[u], bs[u].digits
    ensures Stored(bs) && bs[w].Number() == Result(op, old(bs[u].Number()), 0)
    ensures forall i | 0 <= i < |bs| && i != w :: bs[i].Number() == old(bs[i].Number())
    ensures forall i | 0 <= i < |bs| :: bs[i].digits == old(bs[i].digits) || fresh(bs[i].digits)
  {
    hide Num, Result, Exact;
    ApplyShort(op, bs[w], bs[u]);
  }

  /** A division among the objects. */
  method StepDivide(bs: seq<Bigd>, q: nat, r: nat, u: nat, v: nat)
    requires Stored(bs) && Fits(Divide(q, r, u, v), |bs|)
    modifies bs[q], bs[q].digits, bs[r], bs[r].digits, bs[v].digits
    ensures Stored(bs)
    ensures var x, y := old(bs[u].Number()), old(bs[v].Number());
      && bs[q].Number() == (if y == 0 then 0 else x / y)
      && bs[r].Number() == (if y == 0 then 0 else x % y)
    ensures forall i | 0 <= i < |bs| && i != q && i != r :: bs[i].Number() == old(bs[i].Number())
    ensures forall i | 0 <= i < |bs| :: bs[i].digits == old(bs[i].digits) || fresh(bs[i].digits)
  {
    hide Num;
    BdDivide(bs[q], bs[r], bs[u], bs[v]);
    if bs[v].Number() != 0 {
      DivModUnique(bs[u].Number(), bs[v].Number(), bs[q].Number(), bs[r].Number());
    }
  }

  /** One call among the objects: exactly the result changes, and that to the number it should be. */
  method Step(bs: seq<Bigd>, c: Command)
    requires Stored(bs) && Fits(c, |bs|) && ExactCall(c, bs)
    modifies bs, DigitArrays(bs)
    ensures Stored(bs) && Numbers(bs) == Meaning(c, old(Numbers(bs)))
    ensures forall i | 0 <= i < |bs| :: bs[i].digits == old(bs[i].digits) || fresh(bs[i].digits)
  {
    hide Num, Stored;
    match c
    case Compute(op, w, u, v) =>
      if op.Add? || op.Subtract? || op.Multiply? || op.MultiplySafe? || op.Modulo? {
        StepLong(bs, op, w, u, v);
      } else {
        StepShort(bs, op, w, u);
      }
    case Divide(q, r, u, v) => StepDivide(bs, q, r, u, v);
  }

  /**
   * Any sequence of calls. It goes on as long as the conditions checked before each call hold, and then the
   * objects stand for what the calls so far give on the integers.
   */
  method Run(bs: seq<Bigd>, cs: seq<Command>) returns (k: nat)
    requires Stored(bs) && forall c | c in cs :: Fits(c, |bs|)
    modifies bs, DigitArrays(bs)
    ensures k <= |cs| && Stored(bs) && Numbers(bs) == Outcome(cs[..k], old(Numbers(bs)))
    ensures k < |cs| ==> !ExactCall(cs[k], bs)
    ensures forall i | 0 <= i < |bs| :: bs[i].digits == old(bs[i].digits) || fresh(bs[i].digits)
  {
    hide Meaning, ExactCall, Stored, Num;
    k := 0;
    ghost var xs := Numbers(bs);
    assert cs[..0] == [];
    while k < |cs|
      invariant k <= |cs| && Stored(bs) && Numbers(bs) == Outcome(cs[..k], xs)
      invariant forall i | 0 <= i < |bs| :: bs[i].digits == old(bs[i].digits) || fresh(bs[i].digits)
    {
      ghost var before := Numbers(bs);
      var exact := StepIfExact(bs, cs[k]);
      if !exact { return; }
      OutcomeNext(cs, k, xs);
      k := k + 1;
    }
    assert cs[..|cs|] == cs;
  }

  lemma OutcomeNext(cs: seq<Command>, k: nat, xs: seq<int>)
    requires k < |cs| && forall c | c in cs :: Fits(c, |xs|)
    ensures Outcome(cs[..k + 1], xs) == Meaning(cs[k], Outcome(cs[..k], xs))
  {
    assert cs[..k + 1][..k] == cs[..k];
  }

  /** The condition checked, and the call made if it holds. */
  method StepIfExact(bs: seq<Bigd>, c: Command) returns (exact: bool)
    requires Stored(bs) && Fits(c, |bs|)
    modifies bs, DigitArrays(bs)
    ensures Stored(bs) && exact == old(ExactCall(c, bs)) && (!exact ==> !ExactCall(c, bs))
    ensures Numbers(bs) == if exact then Meaning(c, old(Numbers(bs))) else old(Numbers(bs))
    ensures forall i | 0 <= i < |bs| :: bs[i].digits == old(bs[i].digits) || fresh(bs[i].digits)
  {
    hide Meaning, Exact, Num;
    exact := IsExactCall(c, bs);
    if exact {
      Step(bs, c);
    }
  }

  method IsExactCall(c: Command, bs: seq<Bigd>) returns (b: bool)
    requires Fits(c, |bs|) && Stored(bs)
    ensures b <==> ExactCall(c, bs)
  {
    match c
    case Compute(op, w, u, v) => b := IsExact(op, bs[w], bs[u], bs[v]);
    case Divide(_, _, _, _) => return true;
  }
}
