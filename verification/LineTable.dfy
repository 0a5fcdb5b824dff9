/**
 * The table from code positions to lines, as the compiler builds it (src/compile.c) and the stack trace
 * reads it (src/exception.c).
 */
module LineTable {

  datatype Kind = OP | LABEL | OTHER

  /** A node of the instruction list. `opSize` is the size of its opcode with operands; an opcode takes a byte. */
  class Inst {
    const kind: Kind
    const opSize: nat
    const lineno: nat
    var pc: nat
    var size: nat
    var next: Inst?

    constructor (kind: Kind, opSize: nat, lineno: nat)
      requires opSize > 0
      ensures this.kind == kind && this.opSize == opSize && this.lineno == lineno && next == null
    {
      this.kind := kind;
      this.opSize := opSize;
      this.lineno := lineno;
      pc, size, next := 0, 0, null;
    }
  }

  datatype Entry = Entry(pcFrom: nat, pcTo: nat, lineno: nat)

  /** The list from `first` runs through these nodes. */
  ghost predicate Linked(first: Inst?, insts: seq<Inst>)
    reads insts`next
  {
    && (first == if insts == [] then null else insts[0])
    && (forall i | 0 <= i < |insts| :: insts[i].next == NodeAt(insts, i + 1) && insts[i].opSize > 0)
    && (forall i, j | 0 <= i < j < |insts| :: insts[i] != insts[j])
  }

  ghost function NodeAt(insts: seq<Inst>, i: nat): Inst? {
    if i < |insts| then insts[i] else null
  }

  ghost function Width(x: Inst): nat {
    if x.kind == OP then x.opSize else 0
  }

  /** The bytes taken by the first `i` nodes. */
  ghost function Offset(insts: seq<Inst>, i: nat): nat
    requires i <= |insts|
  {
    if i == 0 then 0 else Offset(insts, i - 1) + Width(insts[i - 1])
  }

  /** The line of the last operation among the first `i` nodes, or zero. */
  ghost function LineAt(insts: seq<Inst>, i: nat): nat
    requires i <= |insts|
  {
    if i == 0 then 0 else if insts[i - 1].kind == OP then insts[i - 1].lineno else LineAt(insts, i - 1)
  }

  /** How often the line changes among the first `i` nodes, counting from line zero. */
  ghost function Changes(insts: seq<Inst>, i: nat): nat
    requires i <= |insts|
  {
    if i == 0 then 0
    else Changes(insts, i - 1) + if insts[i - 1].kind == OP && insts[i - 1].lineno != LineAt(insts, i - 1) then 1 else 0
  }

  /** Positions and sizes are set. */
  ghost predicate Placed(insts: seq<Inst>)
    reads insts
  {
    forall i | 0 <= i < |insts| && insts[i].kind == OP ::
      insts[i].pc == Offset(insts, i) && insts[i].size == insts[i].opSize
  }

  /** calc_pc. */
  method CalcPc(first: Inst?, ghost insts: seq<Inst>)
    requires Linked(first, insts)
    modifies insts`pc, insts`size
    ensures Placed(insts)
    ensures forall i | 0 <= i < |insts| && insts[i].kind == LABEL :: insts[i].pc == Offset(insts, i)
    ensures forall j | 0 <= j < |insts| && insts[j].kind != OTHER && NoneBetween(insts, -1, j) :: insts[j].pc == 0
    ensures forall i, j | 0 <= i < j < |insts| && insts[i].kind == OP && insts[j].kind != OTHER
                        && NoneBetween(insts, i, j) :: insts[j].pc == insts[i].pc + insts[i].opSize
  {
    hide NoneBetween;
    var pc := 0;
    var inst := first;
    ghost var i: nat := 0;
    while inst != null
      invariant i <= |insts| && inst == NodeAt(insts, i) && pc == Offset(insts, i)
      invariant forall k | 0 <= k < i && insts[k].kind != OTHER :: insts[k].pc == Offset(insts, k)
      invariant forall k | 0 <= k < i && insts[k].kind == OP :: insts[k].size == insts[k].opSize
      decreases |insts| - i
    {
      if inst.kind == OP || inst.kind == LABEL {
        inst.pc := pc;
      }
      if inst.kind == OP {
        inst.size := inst.opSize;
        pc := pc + inst.opSize;
      }
      inst := inst.next;
      i := i + 1;
    }
    FollowOn(insts);
  }

  /** Each position is that after the operation before. */
  lemma FollowOn(insts: seq<Inst>)
    requires forall k | 0 <= k < |insts| && insts[k].kind != OTHER :: insts[k].pc == Offset(insts, k)
    ensures forall j | 0 <= j < |insts| && insts[j].kind != OTHER && NoneBetween(insts, -1, j) :: insts[j].pc == 0
    ensures forall i, j | 0 <= i < j < |insts| && insts[i].kind == OP && insts[j].kind != OTHER
                        && NoneBetween(insts, i, j) :: insts[j].pc == insts[i].pc + insts[i].opSize
  {
    hide NoneBetween;
    forall j | 0 <= j < |insts| && insts[j].kind != OTHER && NoneBetween(insts, -1, j)
      ensures insts[j].pc == 0
    {
      OffsetSkips(insts, 0, j);
    }
    forall i, j | 0 <= i < j < |insts| && insts[i].kind == OP && insts[j].kind != OTHER && NoneBetween(insts, i, j)
      ensures insts[j].pc == insts[i].pc + insts[i].opSize
    {
      OffsetSkips(insts, i + 1, j);
    }
  }

  /** No operation lies strictly between. */
  ghost predicate NoneBetween(insts: seq<Inst>, i: int, j: int)
    requires -1 <= i && j <= |insts|
  {
    forall k | i < k < j :: insts[k].kind != OP
  }

  lemma {:induction false} OffsetSkips(insts: seq<Inst>, i: nat, j: nat)
    requires i <= j <= |insts| && NoneBetween(insts, i - 1, j)
    ensures Offset(insts, j) == Offset(insts, i)
    decreases j
  {
    if i < j { OffsetSkips(insts, i, j - 1); }
  }

  /** The entries cover the positions up to `end` without gap or overlap, and the line changes at each. */
  ghost predicate Partition(tbl: seq<Entry>, end: nat) {
    && (forall k | 0 <= k < |tbl| :: tbl[k].pcFrom < tbl[k].pcTo)
    && (tbl == [] ==> end == 0) && (tbl != [] ==> tbl[0].pcFrom == 0 && tbl[|tbl| - 1].pcTo == end)
    && (forall k, l | 0 <= k && l == k + 1 && l < |tbl| ::
          tbl[k].pcTo == tbl[l].pcFrom && tbl[k].lineno != tbl[l].lineno)
  }

  /** The entry for the operation at node `j`. */
  ghost predicate Entered(tbl: seq<Entry>, insts: seq<Inst>, j: nat)
    requires j < |insts|
  {
    var k := Changes(insts, j + 1) - 1;
    && 0 <= k < |tbl| && tbl[k].lineno == insts[j].lineno
    && tbl[k].pcFrom <= Offset(insts, j) && Offset(insts, j + 1) <= tbl[k].pcTo
  }

  /** The entries made for the first `n` nodes. */
  ghost predicate Covers(tbl: seq<Entry>, insts: seq<Inst>, n: nat)
    requires n <= |insts|
  {
    && |tbl| == Changes(insts, n) && Partition(tbl, Offset(insts, n))
    && (tbl != [] ==> tbl[|tbl| - 1].lineno == LineAt(insts, n))
    && (forall j | 0 <= j < n && insts[j].kind == OP :: Entered(tbl, insts, j))
  }

  /** An operation on a new line gets a new entry. */
  lemma NewEntry(tbl: seq<Entry>, insts: seq<Inst>, n: nat)
    requires n < |insts| && Covers(tbl, insts, n) && insts[n].kind == OP && insts[n].opSize > 0
    requires insts[n].lineno != LineAt(insts, n)
    ensures Covers(tbl + [Entry(Offset(insts, n), Offset(insts, n) + insts[n].opSize, insts[n].lineno)], insts, n + 1)
  {
    var e := Entry(Offset(insts, n), Offset(insts, n) + insts[n].opSize, insts[n].lineno);
    forall j | 0 <= j < n + 1 && insts[j].kind == OP
      ensures Entered(tbl + [e], insts, j)
    {
      if j < n { assert Entered(tbl, insts, j); }
    }
  }

  /** An operation on the same line stretches the last entry. */
  lemma SameEntry(tbl: seq<Entry>, insts: seq<Inst>, n: nat)
    requires n < |insts| && Covers(tbl, insts, n) && insts[n].kind == OP && tbl != []
    requires insts[n].lineno == LineAt(insts, n)
    ensures Covers(tbl[|tbl| - 1 := tbl[|tbl| - 1].(pcTo := Offset(insts, n) + insts[n].opSize)], insts, n + 1)
  {
    var now := tbl[|tbl| - 1 := tbl[|tbl| - 1].(pcTo := Offset(insts, n) + insts[n].opSize)];
    forall j | 0 <= j < n + 1 && insts[j].kind == OP
      ensures Entered(now, insts, j)
    {
      if j < n { OffsetGrow(insts, j + 1, n); assert Entered(tbl, insts, j); } else { Within(tbl); }
    }
  }

  lemma Within(tbl: seq<Entry>)
    requires tbl != [] && forall k | 0 <= k < |tbl| :: tbl[k].pcFrom < tbl[k].pcTo
    ensures tbl[|tbl| - 1].pcFrom < tbl[|tbl| - 1].pcTo
  {}

  lemma {:induction false} OffsetGrow(insts: seq<Inst>, i: nat, j: nat)
    requires i <= j <= |insts|
    ensures Offset(insts, i) <= Offset(insts, j)
    decreases j
  {
    if i < j { OffsetGrow(insts, i, j - 1); }
  }

  lemma NoEntry(tbl: seq<Entry>, insts: seq<Inst>, n: nat)
    requires n < |insts| && Covers(tbl, insts, n) && insts[n].kind != OP
    ensures Covers(tbl, insts, n + 1)
  {}

  /** The first operation has a line, or none has. */
  ghost predicate StartsWithLine(insts: seq<Inst>) {
    || (forall j | 0 <= j < |insts| && insts[j].kind == OP :: insts[j].lineno == 0)
    || (forall j | 0 <= j < |insts| && FirstOperation(insts, j) :: insts[j].lineno != 0)
  }

  ghost predicate FirstOperation(insts: seq<Inst>, j: nat)
    requires j < |insts|
  {
    insts[j].kind == OP && forall i | 0 <= i < j :: insts[i].kind != OP
  }

  /** The same, by the changes of line. */
  ghost predicate Startable(insts: seq<Inst>) {
    Changes(insts, |insts|) > 0 ==> forall j | 0 <= j < |insts| && insts[j].kind == OP :: Changes(insts, j + 1) > 0
  }

  /** The first pass of make_lineno_table. */
  method CountEntries(anchor: Inst?, ghost insts: seq<Inst>) returns (size: nat)
    requires Linked(anchor, insts)
    ensures size == Changes(insts, |insts|)
  {
    var inst := anchor;
    var lineno := 0;
    size := 0;
    ghost var i: nat := 0;
    while inst != null
      invariant i <= |insts| && inst == NodeAt(insts, i) && lineno == LineAt(insts, i) && size == Changes(insts, i)
      decreases |insts| - i
    {
      if inst.kind == OP && lineno != inst.lineno {
        lineno := inst.lineno;
        size := size + 1;
      }
      inst := inst.next;
      i := i + 1;
    }
  }

  /**
   * make_lineno_table. It stops at the assertion in its second pass exactly if the first operation has line
   * zero while some other has not; otherwise the entries partition the code and hold the line of every operation.
   */
  method MakeLinenoTable(anchor: Inst?, ghost insts: seq<Inst>) returns (ok: bool, tbl: array<Entry>)
    requires Linked(anchor, insts) && Placed(insts)
    ensures ok <==> StartsWithLine(insts)
    ensures ok ==> tbl.Length == Changes(insts, |insts|)
    ensures ok && tbl.Length > 0 ==> Partition(tbl[..], Offset(insts, |insts|))
    ensures ok && tbl.Length > 0 ==> forall j | 0 <= j < |insts| && insts[j].kind == OP :: Entered(tbl[..], insts, j)
  {
    StartableIff(insts);
    var size := CountEntries(anchor, insts);
    tbl := new Entry[size](_ => Entry(0, 0, 0));
    if size == 0 {
      return true, tbl;
    }
    hide Partition, Entered, Startable, StartsWithLine;
    ok := FillEntries(anchor, insts, tbl);
    if ok {
      CoversDone(tbl[..], insts);
    }
  }

  lemma CoversDone(tbl: seq<Entry>, insts: seq<Inst>)
    requires Covers(tbl, insts, |insts|)
    ensures Partition(tbl, Offset(insts, |insts|))
    ensures forall j | 0 <= j < |insts| && insts[j].kind == OP :: Entered(tbl, insts, j)
  {}

  /** What the list gives at node `n`. */
  lemma NodeFacts(anchor: Inst?, insts: seq<Inst>, n: nat)
    requires Linked(anchor, insts) && Placed(insts) && n <= |insts|
    ensures anchor == NodeAt(insts, 0) && LineAt(insts, 0) == 0 == Changes(insts, 0) && Seen(insts, 0)
    ensures n < |insts| ==>
      && insts[n].next == NodeAt(insts, n + 1) && insts[n].opSize > 0
      && (insts[n].kind == OP ==> insts[n].pc == Offset(insts, n) && insts[n].size == insts[n].opSize)
  {}

  /** Every operation so far has an entry. */
  ghost predicate Seen(insts: seq<Inst>, n: nat)
    requires n <= |insts|
  {
    forall j | 0 <= j < n && insts[j].kind == OP :: Changes(insts, j + 1) > 0
  }

  lemma SeenNext(insts: seq<Inst>, n: nat)
    requires n < |insts| && Seen(insts, n)
    ensures Changes(insts, n + 1) <= Changes(insts, |insts|)
    ensures var x := insts[n];
      if x.kind == OP then
        && LineAt(insts, n + 1) == x.lineno
        && Changes(insts, n + 1) == Changes(insts, n) + (if x.lineno != LineAt(insts, n) then 1 else 0)
        && (Changes(insts, n + 1) > 0 ==> Seen(insts, n + 1))
        && (Changes(insts, n + 1) == 0 && Changes(insts, |insts|) > 0 ==> !Startable(insts))
      else LineAt(insts, n + 1) == LineAt(insts, n) && Changes(insts, n + 1) == Changes(insts, n) && Seen(insts, n + 1)
  {
    ChangesGrow(insts, n + 1, |insts|);
  }

  lemma SeenAll(insts: seq<Inst>)
    requires Seen(insts, |insts|)
    ensures Startable(insts)
  {}

  /** The second pass of make_lineno_table. */
  method FillEntries(anchor: Inst?, ghost insts: seq<Inst>, tbl: array<Entry>) returns (ok: bool)
    requires Linked(anchor, insts) && Placed(insts) && tbl.Length == Changes(insts, |insts|) > 0
    modifies tbl
    ensures ok <==> Startable(insts)
    ensures ok ==> Covers(tbl[..], insts, |insts|)
  {
    hide Covers, Changes, LineAt, Offset, Linked, Placed, Startable;
    NothingYet(insts);
    NodeFacts(anchor, insts, 0);
    var inst := anchor;
    var i := -1;
    var lineno := 0;
    ghost var n: nat := 0;
    assert tbl[..0] == [];
    while inst != null
      invariant n <= |insts| && inst == NodeAt(insts, n) && lineno == LineAt(insts, n)
      invariant i == Changes(insts, n) - 1 < tbl.Length
      invariant Seen(insts, n)
      invariant Covers(tbl[..i + 1], insts, n)
      decreases |insts| - n
    {
      NodeFacts(anchor, insts, n);
      SeenNext(insts, n);
      ghost var was := tbl[..i + 1];
      if inst.kind == OP {
        if lineno != inst.lineno {
          NewEntry(was, insts, n);
          i := i + 1;
          tbl[i] := Entry(inst.pc, inst.pc + inst.size, inst.lineno);
          lineno := inst.lineno;
          assert tbl[..i + 1] == was + [tbl[i]];
        } else {
          if i == -1 {
            return false;
          }
          assert was != [];
          SameEntry(was, insts, n);
          tbl[i] := tbl[i].(pcTo := inst.pc + inst.size);
          assert tbl[..i + 1] == was[i := tbl[i]];
        }
      } else {
        NoEntry(was, insts, n);
      }
      inst := inst.next;
      n := n + 1;
    }
    assert tbl[..tbl.Length] == tbl[..];
    SeenAll(insts);
    return true;
  }

  lemma StartableIff(insts: seq<Inst>)
    ensures Startable(insts) <==> StartsWithLine(insts)
  {
    var n := |insts|;
    if Changes(insts, n) == 0 {
      forall j | 0 <= j < n && insts[j].kind == OP ensures insts[j].lineno == 0 { NoLines(insts, j); }
    } else {
      SomeLine(insts, n);
      FirstChange(insts, n);
      if !Startable(insts) {
        var j :| 0 <= j < n && insts[j].kind == OP && Changes(insts, j + 1) == 0;
        ZeroFirst(insts, j);
      }
    }
  }

  lemma {:induction false} SomeLine(insts: seq<Inst>, i: nat)
    requires i <= |insts| && Changes(insts, i) > 0
    ensures exists j :: 0 <= j < i && insts[j].kind == OP && insts[j].lineno != 0
  {
    if Changes(insts, i - 1) > 0 {
      SomeLine(insts, i - 1);
    } else {
      NoLine(insts, i - 1);
      assert insts[i - 1].kind == OP;
    }
  }

  /** Where every operation is counted, the first one has a line. */
  lemma FirstChange(insts: seq<Inst>, n: nat)
    requires n == |insts|
    ensures Startable(insts) && Changes(insts, n) > 0 ==>
      forall j | 0 <= j < n && FirstOperation(insts, j) :: insts[j].lineno != 0
  {
    forall j | 0 <= j < n && FirstOperation(insts, j)
      ensures Changes(insts, j + 1) > 0 ==> insts[j].lineno != 0
    {
      BeforeFirst(insts, j);
    }
  }

  lemma {:induction false} BeforeFirst(insts: seq<Inst>, i: nat)
    requires i <= |insts| && forall k | 0 <= k < i :: insts[k].kind != OP
    ensures Changes(insts, i) == 0 && LineAt(insts, i) == 0
  {
    if i > 0 { BeforeFirst(insts, i - 1); }
  }

  /** An operation not counted means that the first one has line zero. */
  lemma {:induction false} ZeroFirst(insts: seq<Inst>, j: nat)
    requires j < |insts| && insts[j].kind == OP && Changes(insts, j + 1) == 0
    ensures exists i :: 0 <= i < |insts| && FirstOperation(insts, i) && insts[i].lineno == 0
    decreases j
  {
    if exists i :: 0 <= i < j && insts[i].kind == OP {
      var i :| 0 <= i < j && insts[i].kind == OP;
      ChangesGrow(insts, i + 1, j + 1);
      ZeroFirst(insts, i);
    } else {
      BeforeFirst(insts, j);
      assert FirstOperation(insts, j);
    }
  }

  lemma NothingYet(insts: seq<Inst>)
    ensures Covers([], insts, 0)
  {}

  lemma {:induction false} ChangesGrow(insts: seq<Inst>, i: nat, j: nat)
    requires i <= j <= |insts|
    ensures Changes(insts, i) <= Changes(insts, j)
    decreases j
  {
    if i < j { ChangesGrow(insts, i, j - 1); }
  }

  /** Entries further on begin no earlier. */
  lemma {:induction false} Ascending(tbl: seq<Entry>, end: nat, k: nat, l: nat)
    requires Partition(tbl, end) && k < l < |tbl|
    ensures tbl[k].pcTo <= tbl[l].pcFrom
    decreases l
  {
    if k + 1 < l { Ascending(tbl, end, k, l - 1); }
  }

  /** The loop of YogException_get_stacktrace. The pc of a running frame is past the instruction executed. */
  method Lookup(tbl: array<Entry>, framePc: nat, ghost end: nat) returns (lineno: nat)
    requires tbl.Length > 0 ==> Partition(tbl[..], end)
    ensures forall k | 0 <= k < tbl.Length && tbl[k].pcFrom < framePc <= tbl[k].pcTo :: lineno == tbl[k].lineno
    ensures (forall k | 0 <= k < tbl.Length :: !(tbl[k].pcFrom < framePc <= tbl[k].pcTo)) ==> lineno == 0
  {
    lineno := 0;
    var pc := framePc - 1;
    for i := 0 to tbl.Length
      invariant lineno == 0 && forall k | 0 <= k < i :: !(tbl[k].pcFrom <= pc < tbl[k].pcTo)
    {
      if tbl[i].pcFrom <= pc && pc < tbl[i].pcTo {
        forall k | i < k < tbl.Length ensures tbl[i].pcTo <= tbl[k].pcFrom { Ascending(tbl[..], end, i, k); }
        return tbl[i].lineno;
      }
    }
  }

  /** The line reported for a pc inside or right after an operation's bytes is the line of that operation. */
  method LineOfOperation(anchor: Inst?, ghost insts: seq<Inst>, ghost j: nat, framePc: nat) returns (lineno: nat)
    requires Linked(anchor, insts) && StartsWithLine(insts)
    requires j < |insts| && insts[j].kind == OP && Offset(insts, j) < framePc <= Offset(insts, j) + insts[j].opSize
    modifies insts`pc, insts`size
    ensures lineno == insts[j].lineno
  {
    hide Partition, StartsWithLine, Placed;
    CalcPc(anchor, insts);
    var ok, tbl := MakeLinenoTable(anchor, insts);
    lineno := Lookup(tbl, framePc, Offset(insts, |insts|));
    if tbl.Length == 0 {
      NoLines(insts, j);
    } else {
      assert Entered(tbl[..], insts, j);
    }
  }

  /** Without a change of line, every operation has line zero. */
  lemma {:induction false} NoLines(insts: seq<Inst>, j: nat)
    requires j < |insts| && insts[j].kind == OP && Changes(insts, |insts|) == 0
    ensures insts[j].lineno == 0
  {
    ChangesGrow(insts, j + 1, |insts|);
    NoLine(insts, j + 1);
  }

  lemma {:induction false} NoLine(insts: seq<Inst>, i: nat)
    requires i <= |insts| && Changes(insts, i) == 0
    ensures LineAt(insts, i) == 0
  {
    if i > 0 { NoLine(insts, i - 1); }
  }
}
