/**
 * Compiling bodies into code objects (src/compile.c): the table of local variables, and how many
 * enclosing frames each code object keeps.
 */
module CodeObjects {
  import opened Scopes
  import opened ScopeCompiler

  datatype Option<T> = None | Some(value: T)

  /** What name resolution decides of a code object; its instructions are not part of this model. */
  datatype Code = Code(ctx: Context, vars: map<ID, Var>, locals: seq<ID>, outerSize: nat, children: seq<Code>)

  function ScopeOf(code: Code): Scope {
    Scope(code.ctx, code.vars)
  }

  /** Every nonlocal level is within the enclosing scopes and, for a function or block, ends at the variable. */
  ghost predicate Reaches(scope: Scope, outers: seq<Scope>) {
    forall n | n in scope.vars && scope.vars[n].kind.Nonlocal? ::
      && 1 <= scope.vars[n].kind.level <= |outers|
      && (Indexed(scope.ctx) ==> Holds(outers[scope.vars[n].kind.level - 1], n, scope.vars[n].kind.slot))
  }

  /** The scope has the local variable, at the slot: its index, or its name in a class or package. */
  ghost predicate Holds(o: Scope, name: ID, slot: nat) {
    && name in o.vars && o.vars[name].kind.Local?
    && slot == if Indexed(o.ctx) then o.vars[name].kind.index else name
  }

  /** Parameters, and assigned variables of bodies other than blocks, are local; others are looked up outside. */
  ghost predicate Resolves(scope: Scope, outers: seq<Scope>) {
    forall n | n in scope.vars ::
      var v := scope.vars[n];
      if v.param then v.kind.Local?
      else if v.isNonlocal then v.kind == OuterKind(scope.ctx, outers, 0, n)
      else if scope.ctx == Block then v.kind == BlockKind(outers, 0, n)
      else if v.isAssigned then v.kind.Local?
      else v.kind == OuterKind(scope.ctx, outers, 0, n)
  }

  /** The variables of a body and their flags, by what the body and the blocks in it say. */
  ghost predicate Says(scope: Scope, params: seq<ID>, events: seq<Event>) {
    var inner := if scope.ctx == Block then {} else InnerStored(events);
    && scope.vars.Keys == SetOf(params) + MentionedNames(events) + inner
    && (forall n | n in scope.vars ::
          && scope.vars[n].param == (n in params)
          && scope.vars[n].isAssigned == (n in StoredNames(events) + inner)
          && scope.vars[n].isNonlocal == (n in DeclaredNames(events)))
  }

  /** The table of local names lists exactly the local variables, each at its index. */
  ghost predicate Lists(locals: seq<ID>, vars: map<ID, Var>) {
    && (forall i | 0 <= i < |locals| :: locals[i] in vars && vars[locals[i]].kind == Local(i))
    && (forall n | n in vars && vars[n].kind.Local? :: vars[n].kind.index < |locals| && locals[vars[n].kind.index] == n)
  }

  /** `size` frames outward are enough for the body and all bodies in it, and no fewer are. */
  ghost predicate Tight(size: nat, vars: map<ID, Var>, children: seq<Code>) {
    && Enough(size, vars) && (forall c | c in children :: c.outerSize - 1 <= size)
    && (size == 0 || UsesLevel(size, vars) || exists c :: c in children && c.outerSize - 1 == size)
  }

  ghost predicate Enough(size: nat, vars: map<ID, Var>) {
    forall n | n in vars && vars[n].kind.Nonlocal? :: vars[n].kind.level <= size
  }

  ghost predicate UsesLevel(level: nat, vars: map<ID, Var>) {
    exists n :: n in vars && vars[n].kind.Nonlocal? && vars[n].kind.level == level
  }

  /** What bodies so far need around them. */
  ghost predicate Exact(depth: nat, children: seq<Code>) {
    (forall c | c in children :: c.outerSize - 1 <= depth)
      && (depth == 0 || exists c :: c in children && c.outerSize - 1 == depth)
  }

  /** `code` is what a body with these parameters and events compiles to inside the scopes `outers`. */
  ghost predicate Compiled(code: Code, params: seq<ID>, events: seq<Event>, outers: seq<Scope>)
    decreases events, 1
  {
    && params <= code.locals && Lists(code.locals, code.vars)
    && Says(ScopeOf(code), params, events) && Resolves(ScopeOf(code), outers)
    && Reaches(ScopeOf(code), outers)
    && Tight(code.outerSize, code.vars, code.children)
    && AllCompiled(code.children, events, [ScopeOf(code)] + outers)
  }

  /** One code object for each body among `events`, in order. */
  ghost predicate AllCompiled(codes: seq<Code>, events: seq<Event>, outers: seq<Scope>)
    decreases events, 0
  {
    if events == [] then codes == []
    else
      var e, rest := events[|events| - 1], events[..|events| - 1];
      if e.BlockArg? || e.Define? then
        && codes != []
        && codes[|codes| - 1].ctx == (if e.BlockArg? then Block else if e.isClass then Class else Func)
        && Compiled(codes[|codes| - 1], if e.BlockArg? then e.params else if e.isClass then [] else [SELF] + e.params,
                    e.events, outers)
        && AllCompiled(codes[..|codes| - 1], rest, outers)
      else AllCompiled(codes, rest, outers)
  }

  function BodyContext(e: Event): Context {
    if e.Define? then if e.isClass then Class else Func else Block
  }

  /** The parameters of a body with `self`; a class has none. */
  function BodyParams(e: Event): seq<ID>
    requires e.BlockArg? || e.Define?
  {
    if e.Define? && e.isClass then [] else Leading(BodyContext(e), e.params)
  }

  /** Some block of the body assigns the name, or a block in that does, other than to a parameter of its own. */
  ghost predicate AssignedInBlock(events: seq<Event>, name: ID)
    decreases events
  {
    exists e | e in events :: e.BlockArg? &&
      ((name !in e.params && AssignedHere(e.events, name)) || AssignedInBlock(e.events, name))
  }

  ghost predicate AssignedHere(events: seq<Event>, name: ID) {
    Store(name) in events || exists e | e in events :: e.Define? && e.name == name
  }

  lemma {:induction false} InnerStoredIs(events: seq<Event>, name: ID)
    ensures name in InnerStored(events) <==> AssignedInBlock(events, name)
    decreases events
  {
    if events != [] {
      var e, rest := events[|events| - 1], events[..|events| - 1];
      assert events == rest + [e];
      InnerStoredIs(rest, name);
      AssignedMore(rest, e, name);
      if e.BlockArg? {
        InnerStoredIs(e.events, name);
        StoredIs(e.events, name);
      }
    }
  }

  lemma AssignedMore(events: seq<Event>, e: Event, name: ID)
    ensures AssignedInBlock(events + [e], name) <==>
      || AssignedInBlock(events, name)
      || (e.BlockArg? && ((name !in e.params && AssignedHere(e.events, name)) || AssignedInBlock(e.events, name)))
  {
    assert forall x :: x in events + [e] <==> x in events || x == e;
  }

  lemma StoredIs(events: seq<Event>, name: ID)
    ensures name in StoredNames(events) <==> AssignedHere(events, name)
  {
    if name in StoredNames(events) {
      var e :| e in events && Stores(e) && e.name == name;
    }
  }

  /** The variables of a compiled body: its parameters, the names it mentions, and those its blocks assign. */
  lemma CompiledVariables(code: Code, params: seq<ID>, events: seq<Event>, outers: seq<Scope>, name: ID)
    requires Compiled(code, params, events, outers)
    ensures name in code.vars <==>
      || name in params || (exists e | e in events :: !e.BlockArg? && e.name == name)
      || (code.ctx != Block && AssignedInBlock(events, name))
    ensures name in code.vars ==>
      && (code.vars[name].param <==> name in params)
      && (code.vars[name].isNonlocal <==> DeclareNonlocal(name) in events)
      && (code.vars[name].isAssigned <==>
            AssignedHere(events, name) || (code.ctx != Block && AssignedInBlock(events, name)))
  {
    InnerStoredIs(events, name);
    StoredIs(events, name);
  }

  /** Its own variables: the parameters, each at its place, and outside blocks what it assigns and does not declare. */
  lemma CompiledOwn(code: Code, params: seq<ID>, events: seq<Event>, outers: seq<Scope>, name: ID)
    requires Compiled(code, params, events, outers) && name in code.vars
    ensures forall i | 0 <= i < |params| && params[i] == name :: code.vars[name].kind == Local(i)
    ensures code.vars[name].kind.Local? <==>
      name in params || (code.ctx != Block && DeclareNonlocal(name) !in events && code.vars[name].isAssigned)
  {
    CompiledVariables(code, params, events, outers, name);
    forall i | 0 <= i < |params| && params[i] == name
      ensures code.vars[name].kind == Local(i)
    {
      assert code.locals[i] == name;
    }
    NotLocal(code.ctx, outers, 0, name);
  }

  lemma {:induction false} NotLocal(ctx: Context, outers: seq<Scope>, i: nat, name: ID)
    ensures !OuterKind(ctx, outers, i, name).Local? && !BlockKind(outers, i, name).Local?
    decreases |outers| - i
  {
    if i < |outers| { NotLocal(ctx, outers, i + 1, name); }
  }

  /**
   * A name of a block that is no parameter and not declared nonlocal is the variable of the nearest function or block
   * that has it; else that of the first class or package around if it is local there, or global.
   */
  lemma CompiledInBlock(code: Code, params: seq<ID>, events: seq<Event>, outers: seq<Scope>, name: ID, k: nat)
    requires Compiled(code, params, events, outers) && name in code.vars && code.ctx == Block
    requires name !in params && DeclareNonlocal(name) !in events
    ensures NearestInside(outers, k, name) ==>
      code.vars[name].kind ==
      match outers[k].vars[name].kind
      case Global => Global
      case Local(n) => Nonlocal(k + 1, n)
      case Nonlocal(l, s) => Nonlocal(k + 1 + l, s)
    ensures NotInside(outers, k, name) ==>
      code.vars[name].kind ==
      if name in outers[k].vars && outers[k].vars[name].kind.Local? then Nonlocal(k + 1, name) else Global
  {
    if k < |outers| { BlockKindIs(outers, 0, k, name); }
  }

  /**
   * A name declared nonlocal, or outside blocks one that is not assigned, is the variable of the nearest scope below
   * the package that has it, classes apart for functions and blocks; or global if there is none.
   */
  lemma CompiledOutside(code: Code, params: seq<ID>, events: seq<Event>, outers: seq<Scope>, name: ID, k: nat)
    requires Compiled(code, params, events, outers) && name in code.vars && name !in params
    requires DeclareNonlocal(name) in events || (code.ctx != Block && !code.vars[name].isAssigned)
    ensures NearestSeen(code.ctx, outers, k, name) ==>
      var inside := outers[k].ctx == Func || outers[k].ctx == Block;
      code.vars[name].kind ==
      match outers[k].vars[name].kind
      case Global => Global
      case Local(n) => Nonlocal(k + 1, if inside then n else name)
      case Nonlocal(l, s) => Nonlocal(k + 1 + l, if inside then s else name)
    ensures NoneSeen(code.ctx, outers, name) ==> code.vars[name].kind == Global
  {
    CompiledVariables(code, params, events, outers, name);
    if NearestSeen(code.ctx, outers, k, name) { OuterKindIs(code.ctx, outers, 0, k, name); }
    if NoneSeen(code.ctx, outers, name) { OuterKindNone(code.ctx, outers, 0, name); }
  }

  lemma CompiledBody(codes: seq<Code>, events: seq<Event>, outers: seq<Scope>, code: Code, e: Event)
    requires e.BlockArg? || e.Define?
    requires AllCompiled(codes, events, outers)
    requires code.ctx == BodyContext(e) && Compiled(code, BodyParams(e), e.events, outers)
    ensures AllCompiled(codes + [code], events + [e], outers)
  {
    hide Compiled;
    assert (events + [e])[..|events|] == events && (codes + [code])[..|codes|] == codes;
  }

  lemma CompiledName(codes: seq<Code>, events: seq<Event>, outers: seq<Scope>, e: Event)
    requires !e.BlockArg? && !e.Define?
    requires AllCompiled(codes, events, outers)
    ensures AllCompiled(codes, events + [e], outers)
  {
    hide Compiled;
    assert (events + [e])[..|events|] == events;
  }

  /** No duplicated parameter in this body or any body in it. */
  predicate GoodBody(events: seq<Event>) {
    forall e | e in events :: GoodEvent(e)
  }

  predicate GoodEvent(e: Event) {
    match e
    case BlockArg(params, body) => GoodParams(false, params) && GoodBody(body)
    case Define(_, isClass, params, body) => (isClass || GoodParams(true, params)) && GoodBody(body)
    case _ => true
  }

  lemma {:induction false} GoodBodyBlocks(events: seq<Event>)
    requires GoodBody(events)
    ensures GoodBlocks(events)
  {
    forall e | e in events && e.BlockArg?
      ensures GoodParams(false, e.params) && GoodBlocks(e.events)
    {
      assert GoodEvent(e);
      GoodBodyBlocks(e.events);
    }
  }

  lemma OutersCons(t: VarTable, ts: seq<VarTable>)
    ensures Outers([t] + ts) == [Scope(t.ctx, t.vars)] + Outers(ts)
  {
    hide Outers;
    var os := Outers([t] + ts);
    forall i | 0 <= i < |os|
      ensures os[i] == ([Scope(t.ctx, t.vars)] + Outers(ts))[i]
    {
      if i > 0 { assert ([t] + ts)[i] == ts[i - 1]; }
    }
  }

  lemma SoundReaches(t: VarTable)
    requires t.Sound()
    ensures Reaches(Scope(t.ctx, t.vars), Outers(t.chain))
  {
    forall n | n in t.vars && t.vars[n].kind.Nonlocal?
      ensures 1 <= t.vars[n].kind.level <= |t.chain|
      ensures Indexed(t.ctx) ==> Holds(Outers(t.chain)[t.vars[n].kind.level - 1], n, t.vars[n].kind.slot)
    {
      assert t.LeadsFor(n, t.vars[n].kind);
    }
  }

  function Max(a: int, b: int): int {
    if a < b then b else a
  }

  /** A body being compiled, and the bodies around it. */
  class CompileData {
    const vars: VarTable
    const outerData: CompileData?
    var outerDepth: nat
    ghost const chain: seq<CompileData>

    constructor (vars: VarTable, outerData: CompileData?)
      requires outerData != null ==> outerData.Chained()
      ensures this.vars == vars && this.outerData == outerData && outerDepth == 0 && Chained()
      ensures chain == All(outerData)
    {
      this.vars := vars;
      this.outerData := outerData;
      outerDepth := 0;
      chain := All(outerData);
      new;
      forall i | 0 <= i < |chain|
        ensures chain[i].chain == chain[i + 1..] && chain[i].HeadOf(chain[i].chain)
      {
        if i > 0 { assert chain[i] == outerData.chain[i - 1] && chain[i + 1..] == outerData.chain[i..]; }
      }
    }

    ghost predicate HeadOf(ds: seq<CompileData>) {
      outerData == if ds == [] then null else ds[0]
    }

    ghost predicate Chained() {
      && HeadOf(chain)
      && (forall i | 0 <= i < |chain| :: chain[i].chain == chain[i + 1..] && chain[i].HeadOf(chain[i].chain))
    }
  }

  /** The body and those around it, nearest first. */
  ghost function All(data: CompileData?): seq<CompileData> {
    if data == null then [] else [data] + data.chain
  }

  /** A body keeps at least one frame fewer than the body inside it. */
  ghost predicate Stepped(ds: seq<CompileData>)
    reads ds
  {
    forall i, j | 0 <= i < |ds| && j == i + 1 && j < |ds| :: ds[j].outerDepth >= ds[i].outerDepth - 1
  }

  lemma {:induction false} SteppedFar(ds: seq<CompileData>, i: nat)
    requires Stepped(ds) && i < |ds|
    ensures ds[i].outerDepth >= ds[0].outerDepth - i
  {
    if i > 0 {
      SteppedFar(ds, i - 1);
      var j := i - 1;
      assert ds[i].outerDepth >= ds[j].outerDepth - 1;
    }
  }

  /** The bodies around the outer body; all bodies differ. */
  lemma AllOuter(data: CompileData)
    requires data.Chained()
    ensures All(data.outerData) == data.chain && data !in data.chain
    ensures data.outerData != null ==> data.outerData.Chained()
  {
    if data.chain != [] {
      var d := data.outerData;
      assert d.chain == data.chain[1..];
      forall i | 0 <= i < |d.chain|
        ensures d.chain[i].chain == d.chain[i + 1..] && d.chain[i].HeadOf(d.chain[i].chain)
      {
        assert d.chain[i] == data.chain[i + 1] && d.chain[i + 1..] == data.chain[i + 2..];
      }
    }
    forall i | 0 <= i < |data.chain| ensures data.chain[i] != data { assert |data.chain[i].chain| < |data.chain|; }
  }

  lemma SteppedCons(d: CompileData, ds: seq<CompileData>)
    ensures Stepped([d] + ds) <==> Stepped(ds) && (ds != [] ==> ds[0].outerDepth >= d.outerDepth - 1)
  {
    var all := [d] + ds;
    assert forall i | 1 <= i < |all| :: all[i] == ds[i - 1];
    assert forall i | 0 <= i < |ds| :: ds[i] == all[i + 1];
    if Stepped(all) && ds != [] {
      var one := 1;
      assert all[one].outerDepth >= all[0].outerDepth - 1;
    }
  }

  lemma FirstOfAll(data: CompileData)
    ensures var ds := All(data);
      data in ds && (forall d | d in data.chain :: d in ds) && ds[0] == data
        && forall i | 1 <= i < |ds| :: ds[i] == data.chain[i - 1]
  {
    assert forall i | 0 <= i < |data.chain| :: data.chain[i] == All(data)[i + 1];
    assert All(data)[0] == data;
  }

  /** update_outer_depth: raising a body raises those around it by one less each, until one is high enough. */
  method UpdateOuterDepth(data: CompileData?, depth: int)
    requires data != null ==> data.Chained()
    requires Stepped(All(data))
    modifies (set d | d in All(data))`outerDepth
    ensures forall i | 0 <= i < |All(data)| :: All(data)[i].outerDepth == Max(old(All(data)[i].outerDepth), depth - i)
    ensures Stepped(All(data))
    decreases |All(data)|
  {
    hide Stepped, CompileData.Chained;
    if data == null {
      return;
    }
    AllOuter(data);
    SteppedCons(data, data.chain);
    ghost var ds := All(data);
    FirstOfAll(data);
    if data.outerDepth < depth {
      data.outerDepth := depth;
      UpdateOuterDepth(data.outerData, depth - 1);
      SteppedCons(data, data.chain);
    } else {
      forall i | 0 <= i < |ds| ensures ds[i].outerDepth >= depth - i { SteppedFar(ds, i); }
    }
  }

  /** get_max_outer_level. */
  method GetMaxOuterLevel(t: VarTable) returns (level: nat)
    ensures Enough(level, t.vars) && (level == 0 || UsesLevel(level, t.vars))
  {
    level := 0;
    var todo := t.vars.Keys;
    while todo != {}
      invariant todo <= t.vars.Keys
      invariant forall n | n in t.vars && n !in todo && t.vars[n].kind.Nonlocal? :: t.vars[n].kind.level <= level
      invariant level == 0 || UsesLevel(level, t.vars)
      decreases todo
    {
      var name :| name in todo;
      var k := t.vars[name].kind;
      if k.Nonlocal? && level < k.level {
        level := k.level;
      }
      todo := todo - {name};
    }
  }

  ghost function LocalNames(vars: map<ID, Var>, done: set<ID>): set<ID> {
    set n | n in done && n in vars && vars[n].kind.Local?
  }

  /** count_locals. */
  method CountLocals(t: VarTable) returns (count: nat)
    requires Lists(t.slots, t.vars)
    ensures count == |t.slots|
  {
    count := 0;
    var todo := t.vars.Keys;
    ghost var found := {};
    while todo != {}
      invariant todo <= t.vars.Keys
      invariant found == LocalNames(t.vars, t.vars.Keys - todo) && count == |found|
      decreases todo
    {
      var name :| name in todo;
      if t.vars[name].kind.Local? {
        count := count + 1;
        found := found + {name};
      }
      todo := todo - {name};
    }
    SetOfDistinct(t.slots, found);
  }

  /** alloc_local_vars_table: no index is out of range, and every slot gets its name. */
  method AllocLocalVarsTable(t: VarTable, count: nat) returns (names: array<ID>)
    requires Lists(t.slots, t.vars) && count == |t.slots|
    ensures fresh(names) && names[..] == t.slots
  {
    names := new ID[count];
    var todo := t.vars.Keys;
    while todo != {}
      invariant todo <= t.vars.Keys
      invariant forall i | 0 <= i < count && t.slots[i] !in todo :: names[i] == t.slots[i]
      decreases todo
    {
      var name :| name in todo;
      var k := t.vars[name].kind;
      if k.Local? {
        names[k.index] := name;
      }
      todo := todo - {name};
    }
  }

  /** The tables and bodies of the enclosing scopes correspond, and each keeps enough frames. */
  ghost predicate Encloses(outerData: CompileData?, outers: seq<VarTable>)
    reads All(outerData)
  {
    && (outerData == null <==> outers == [])
    && (outerData != null ==> outerData.Chained() && outerData.vars == outers[0])
    && Stepped(All(outerData))
  }

  /** A resolved table for a body with these events; it, the blocks below it and the tables around are in `s`. */
  ghost predicate Ready(t: VarTable, params: seq<ID>, events: seq<Event>, s: set<VarTable>)
    reads s
  {
    && t in s && t.repr <= s && t.Tree()
    && (forall u | u in t.chain :: u in s)
    && (forall u | u in t.chain :: forall o | o in u.chain :: o in s)
    && (forall u | u in t.repr :: forall o | o in u.chain :: o in s)
    && (forall u | u in t.chain :: u.Sound())
    && (forall u | u in t.repr :: u.Done())
    && Matches(t.inner, events, s) && Stands(t, params, events, if t.ctx == Block then {} else InnerStored(events))
  }

  /** All bodies around the new one are raised as far as it needs. */
  ghost predicate Raised(ds: seq<CompileData>, was: seq<nat>, size: nat)
    reads ds
  {
    |was| == |ds| && forall i | 0 <= i < |ds| :: ds[i].outerDepth == Max(was[i], size - 1 - i)
  }

  ghost function Depths(ds: seq<CompileData>): seq<nat>
    reads ds
  {
    seq(|ds|, i requires 0 <= i < |ds| reads ds => ds[i].outerDepth)
  }

  /** What a resolved table gives a code object. */
  lemma ReadyFacts(t: VarTable, params: seq<ID>, events: seq<Event>, s: set<VarTable>)
    requires Ready(t, params, events, s)
    ensures Lists(t.slots, t.vars) && params <= t.slots && Reaches(Scope(t.ctx, t.vars), Outers(t.chain))
    ensures Says(Scope(t.ctx, t.vars), params, events) && Resolves(Scope(t.ctx, t.vars), Outers(t.chain))
    ensures Outers([t] + t.chain) == [Scope(t.ctx, t.vars)] + Outers(t.chain)
  {
    hide Matches, Reaches, VarTable.Sound, VarTable.Linked, Says, Resolves;
    TreeFacts(t);
    DoneFacts(t);
    DoneSays(t, params, events);
    DoneResolves(t);
    OutersCons(t, t.chain);
    SoundReaches(t);
    assert t.slots[..t.nparams] == params;
  }

  lemma DoneSays(t: VarTable, params: seq<ID>, events: seq<Event>)
    requires t.Done() && Stands(t, params, events, if t.ctx == Block then {} else InnerStored(events))
    ensures Says(Scope(t.ctx, t.vars), params, events)
  {
    NamesOf(t);
    forall n | n in t.vars
      ensures t.vars[n].param <==> n in params
    {
      var i :| 0 <= i < |t.names| && t.names[i] == n;
      if t.vars[n].param { assert params[i] == n; }
    }
  }

  lemma DoneResolves(t: VarTable)
    requires t.Done()
    ensures Resolves(Scope(t.ctx, t.vars), Outers(t.chain))
  {
    assert forall n | n in t.vars :: t.Resolved(n, t.vars[n]);
  }

  lemma DoneFacts(t: VarTable)
    requires t.Done()
    ensures t.Sound() && Lists(t.slots, t.vars) && t.nparams <= |t.slots| && t.nparams <= |t.names|
    ensures t.slots[..t.nparams] == t.names[..t.nparams]
  {}

  lemma CompiledWhole(code: Code, params: seq<ID>, events: seq<Event>, outers: seq<Scope>, level: nat, depth: nat)
    requires params <= code.locals && Lists(code.locals, code.vars) && Reaches(ScopeOf(code), outers)
    requires Says(ScopeOf(code), params, events) && Resolves(ScopeOf(code), outers)
    requires AllCompiled(code.children, events, [ScopeOf(code)] + outers)
    requires Enough(level, code.vars) && (level == 0 || UsesLevel(level, code.vars))
    requires Exact(depth, code.children)
    requires code.outerSize == Max(level, depth)
    ensures Compiled(code, params, events, outers)
  {
    hide Reaches, AllCompiled, Lists, Says, Resolves;
  }

  lemma RaisedTwice(ds: seq<CompileData>, mid: seq<nat>, was: seq<nat>, level: nat, depth: nat)
    requires |mid| == |ds| == |was|
    requires forall i | 0 <= i < |ds| :: ds[i].outerDepth == Max(mid[i], level - 1 - i)
    requires forall i | 0 <= i < |ds| :: mid[i] == Max(was[i], depth - 1 - i)
    ensures Raised(ds, was, Max(level, depth))
  {}

  lemma OuterFacts(outerData: CompileData?, outers: seq<VarTable>)
    requires Encloses(outerData, outers)
    ensures outerData != null ==> outerData.Chained() && outerData.vars == outers[0]
    ensures Stepped(All(outerData))
  {}

  lemma NewEncloses(data: CompileData, t: VarTable)
    requires Encloses(data.outerData, t.chain) && data.Chained() && data.vars == t && data.outerDepth == 0
    requires data.chain == All(data.outerData)
    ensures Encloses(data, [t] + t.chain)
  {
    SteppedCons(data, data.chain);
  }

  /** The end of compile_stmts, once the bodies inside are compiled. */
  method FinishCode(params: seq<ID>, events: seq<Event>, t: VarTable, data: CompileData, children: seq<Code>,
                    ghost outers: seq<Scope>, ghost was: seq<nat>) returns (code: Code)
    requires Lists(t.slots, t.vars) && params <= t.slots && Reaches(Scope(t.ctx, t.vars), outers)
    requires Says(Scope(t.ctx, t.vars), params, events) && Resolves(Scope(t.ctx, t.vars), outers)
    requires AllCompiled(children, events, [Scope(t.ctx, t.vars)] + outers)
    requires Exact(data.outerDepth, children)
    requires data.Chained() && Stepped(All(data)) && Raised(data.chain, was, data.outerDepth)
    modifies (set d | d in data.chain)`outerDepth
    ensures Compiled(code, params, events, outers) && code.ctx == t.ctx
    ensures Raised(data.chain, was, code.outerSize) && Stepped(data.chain)
  {
    hide Stepped, Compiled, AllCompiled, Lists, Reaches, Says, Resolves, Enough, UsesLevel, Exact, CompileData.Chained;
    var count := CountLocals(t);
    var names := AllocLocalVarsTable(t, count);
    var outerDepth := GetMaxOuterLevel(t);
    AllOuter(data);
    SteppedCons(data, data.chain);
    ghost var mid := Depths(data.chain);
    UpdateOuterDepth(data.outerData, outerDepth - 1);
    RaisedTwice(data.chain, mid, was, outerDepth, data.outerDepth);
    var outerSize := if outerDepth < data.outerDepth then data.outerDepth else outerDepth;
    code := Code(t.ctx, t.vars, names[..], outerSize, children);
    CompiledWhole(code, params, events, outers, outerDepth, data.outerDepth);
  }

  /** compile_stmts: fails only where a parameter is duplicated. */
  method CompileStmts(params: seq<ID>, events: seq<Event>, t: VarTable, outerData: CompileData?, ghost s: set<VarTable>)
    returns (code: Option<Code>)
    requires Ready(t, params, events, s) && Encloses(outerData, t.chain)
    modifies (set d | d in All(outerData))`outerDepth
    ensures code.Some? <==> GoodBody(events)
    ensures code.Some? ==> Compiled(code.value, params, events, Outers(t.chain)) && code.value.ctx == t.ctx
    ensures code.Some? ==> Raised(All(outerData), old(Depths(All(outerData))), code.value.outerSize)
    ensures Stepped(All(outerData))
    decreases events, 1, 1
  {
    hide Ready, Encloses, Stepped, Compiled, GoodBody, Outers, CompileData.Chained, Raised, Depths;
    OuterFacts(outerData, t.chain);
    var data := new CompileData(t, outerData);
    NewEncloses(data, t);
    code := CompileWith(params, events, t, data, s);
  }

  /** The body and the bodies in it, `data` being made for it. */
  method CompileWith(params: seq<ID>, events: seq<Event>, t: VarTable, data: CompileData, ghost s: set<VarTable>)
    returns (code: Option<Code>)
    requires Ready(t, params, events, s) && Encloses(data, [t] + t.chain) && data.outerDepth == 0
    modifies (set d | d in All(data))`outerDepth
    ensures code.Some? <==> GoodBody(events)
    ensures code.Some? ==> Compiled(code.value, params, events, Outers(t.chain)) && code.value.ctx == t.ctx
    ensures code.Some? ==> Raised(data.chain, old(Depths(data.chain)), code.value.outerSize)
    ensures Stepped(data.chain)
    decreases events, 1, 0
  {
    hide Ready, Encloses, Stepped, Compiled, AllCompiled, GoodBody, Lists, Reaches, Says, Resolves, Exact, Outers,
      CompileData.Chained, Raised, Depths;
    ReadyFacts(t, params, events, s);
    OuterFacts(data, [t] + t.chain);
    var children := CompileBodies(params, events, t, data, s);
    SteppedCons(data, data.chain);
    if children == None {
      return None;
    }
    var c := FinishCode(params, events, t, data, children.value, Outers(t.chain), old(Depths(data.chain)));
    return Some(c);
  }

  /** The statements of a body, as far as they contain bodies of their own. */
  method CompileBodies(params: seq<ID>, events: seq<Event>, t: VarTable, data: CompileData, ghost s: set<VarTable>)
    returns (children: Option<seq<Code>>)
    requires Ready(t, params, events, s) && Encloses(data, [t] + t.chain) && data.outerDepth == 0
    modifies (set d | d in All(data))`outerDepth
    ensures children.Some? <==> GoodBody(events)
    ensures children.Some? ==> AllCompiled(children.value, events, Outers([t] + t.chain))
    ensures children.Some? ==> Exact(data.outerDepth, children.value)
    ensures children.Some? ==> Raised(data.chain, old(Depths(data.chain)), data.outerDepth)
    ensures Stepped(All(data))
    decreases events, 0
  {
    hide *;
    var codes: seq<Code> := [];
    var k := 0;
    ghost var was, outers := Depths(data.chain), Outers([t] + t.chain);
    NothingYet(data, events, outers);
    OuterFacts(data, [t] + t.chain);
    for i := 0 to |events|
      invariant k == CountBlocks(events[..i])
      invariant GoodBody(events[..i]) && AllCompiled(codes, events[..i], outers)
      invariant Exact(data.outerDepth, codes)
      invariant Raised(data.chain, was, data.outerDepth)
      invariant Stepped(All(data))
      invariant Ready(t, params, events, s) && Outers([t] + t.chain) == outers
    {
      var e := events[i];
      ghost var ds, before := Depths(All(data)), data.outerDepth;
      CountNext(events, i);
      GoodBodyNext(events, i);
      if e.BlockArg? || e.Define? {
        StillEncloses(data, t, params, events, s);
        RaisedBefore(data, was, before);
        var code := CompileBody(params, events, i, k, t, data, s);
        if e.BlockArg? {
          k := k + 1;
        }
        if code == None {
          return None;
        }
        RaisedNext(data, ds, was, before, code.value, codes);
        CompiledBody(codes, events[..i], outers, code.value, e);
        codes := codes + [code.value];
      } else {
        CompiledName(codes, events[..i], outers, e);
      }
    }
    assert events[..|events|] == events;
    return Some(codes);
  }

  lemma NothingYet(data: CompileData, events: seq<Event>, outers: seq<Scope>)
    requires data.outerDepth == 0
    ensures GoodBody(events[..0]) && AllCompiled([], events[..0], outers) && Exact(0, [])
    ensures Raised(data.chain, Depths(data.chain), 0) && CountBlocks(events[..0]) == 0
  {}

  lemma GoodBodyNext(events: seq<Event>, i: nat)
    requires i < |events|
    ensures events[..i + 1] == events[..i] + [events[i]]
    ensures GoodBody(events[..i + 1]) <==> GoodBody(events[..i]) && GoodEvent(events[i])
    ensures GoodBody(events) ==> GoodEvent(events[i])
    ensures !events[i].BlockArg? && !events[i].Define? ==> GoodEvent(events[i])
  {
    var some := events[..i + 1];
    assert some == events[..i] + [events[i]];
    assert forall e :: e in some <==> e in events[..i] || e == events[i];
  }

  lemma StillEncloses(data: CompileData, t: VarTable, params: seq<ID>, events: seq<Event>, s: set<VarTable>)
    requires data.Chained() && data.vars == t && Stepped(All(data))
    ensures Encloses(data, [t] + t.chain)
  {}

  /** Where the bodies around stand before one more body is compiled. */
  lemma RaisedBefore(data: CompileData, was: seq<nat>, before: nat)
    requires Raised(data.chain, was, before) && before == data.outerDepth
    ensures |was| == |data.chain|
    ensures Depths(All(data)) == [before] + seq(|was|, j requires 0 <= j < |was| => Max(was[j], before - 1 - j))
  {}

  lemma RaisedNext(data: CompileData, ds: seq<nat>, was: seq<nat>, before: nat, code: Code, codes: seq<Code>)
    requires |was| == |data.chain|
    requires ds == [before] + seq(|was|, j requires 0 <= j < |was| => Max(was[j], before - 1 - j))
    requires Raised(All(data), ds, code.outerSize)
    requires Exact(before, codes)
    ensures Raised(data.chain, was, data.outerDepth) && Exact(data.outerDepth, codes + [code])
  {
    var all := All(data);
    assert all[0].outerDepth == Max(ds[0], code.outerSize - 1);
    forall j | 0 <= j < |was|
      ensures data.chain[j].outerDepth == Max(was[j], data.outerDepth - 1 - j)
    {
      var j' := j + 1;
      assert all[j'].outerDepth == Max(ds[j'], code.outerSize - 1 - j');
    }
    if data.outerDepth == before {
      if before != 0 {
        var c :| c in codes && c.outerSize - 1 == before;
        assert c in codes + [code];
      }
    } else {
      assert code in codes + [code];
    }
  }

  lemma StandsGood(t: VarTable, params: seq<ID>, events: seq<Event>)
    requires t.Registered() && Stands(t, params, events, {})
    ensures GoodParams(false, params)
  {
    forall i, j | 0 <= i < j < |params|
      ensures params[i] != params[j]
    {
      assert t.names[i] == params[i] && t.names[j] == params[j];
    }
  }

  lemma BodyReady(params: seq<ID>, events: seq<Event>, i: nat, t: VarTable, s: set<VarTable>)
    requires i < |events| && Ready(t, params, events, s)
    ensures t.Linked() && t.Sound() && forall u | u in t.chain :: u.Sound()
    ensures var e := events[i];
      && (e.BlockArg? ==>
           && BodyParams(e) == e.params && BodyContext(e) == Block && (GoodBody(e.events) <==> GoodEvent(e))
           && CountBlocks(events[..i]) < |t.inner|
           && var u := t.inner[CountBlocks(events[..i])];
              Ready(u, e.params, e.events, s) && u.ctx == Block && u.chain == [t] + t.chain)
  {
    hide VarTable.Tree, VarTable.Done, VarTable.Sound, VarTable.Linked, CountBlocks, Stands, Matches, GoodBody,
      GoodParams;
    var e := events[i];
    t.EveryTable();
    DoneFacts(t);
    if e.BlockArg? {
      var k := CountBlocks(events[..i]);
      MatchAt(t.inner, events, s, i);
      BlockReady(t, params, events, k, e, s);
      hide Ready;
      assert BodyParams(e) == e.params && (GoodBody(e.events) <==> GoodEvent(e));
    }
  }

  lemma BlockReady(t: VarTable, params: seq<ID>, events: seq<Event>, k: nat, e: Event, s: set<VarTable>)
    requires Ready(t, params, events, s) && k < |t.inner| && t.inner[k] in s && e.BlockArg?
    requires Matches(t.inner[k].inner, e.events, s) && Stands(t.inner[k], e.params, e.events, {})
    ensures Ready(t.inner[k], e.params, e.events, s) && t.inner[k].ctx == Block && t.inner[k].chain == [t] + t.chain
    ensures GoodParams(false, e.params)
  {
    hide VarTable.Tree, Stands, Matches, GoodParams, VarTable.Sound;
    var u := t.inner[k];
    t.EveryTable();
    t.Branches(k);
    InnerBlock(t, k);
    u.EveryTable();
    DoneFacts(t);
    StandsGood(u, e.params, e.events);
  }

  lemma InnerBlock(t: VarTable, k: nat)
    requires t.Tree() && k < |t.inner|
    ensures t.inner[k].ctx == Block
  {}

  /** compile_block for a block, whose table is already there, or compile_func or compile_class. */
  method CompileBody(params: seq<ID>, events: seq<Event>, i: nat, k: nat, t: VarTable, data: CompileData,
                     ghost s: set<VarTable>)
    returns (code: Option<Code>)
    requires i < |events| && (events[i].BlockArg? || events[i].Define?) && k == CountBlocks(events[..i])
    requires Ready(t, params, events, s) && Encloses(data, [t] + t.chain)
    modifies (set d | d in All(data))`outerDepth
    ensures code.Some? <==> GoodEvent(events[i])
    ensures code.Some? ==> Compiled(code.value, BodyParams(events[i]), events[i].events, Outers([t] + t.chain))
    ensures code.Some? ==> code.value.ctx == BodyContext(events[i])
    ensures code.Some? ==> Raised(All(data), old(Depths(All(data))), code.value.outerSize)
    ensures Stepped(All(data))
    decreases events[i].events, 3
  {
    hide *;
    BodyReady(params, events, i, t, s);
    if events[i].BlockArg? {
      code := CompileStmts(events[i].params, events[i].events, t.inner[k], data, s);
    } else {
      code := CompileDefine(events[i], t, data);
    }
  }

  /** make_var_table_of_func and decide_var_type: the table of a body that is not a block. */
  method MakeResolved(ctx: Context, params: seq<ID>, events: seq<Event>, outer: VarTable?) returns (t: VarTable?)
    requires ctx != Block
    requires if outer == null then ctx == Pkg else ctx != Pkg && outer.Linked() && outer.Sound()
    requires outer != null ==> forall u | u in outer.chain :: u.Sound()
    ensures t != null <==> GoodParams(ctx == Func, params) && GoodBlocks(events)
    ensures t != null ==> fresh(t.repr) && t.ctx == ctx
    ensures t != null ==> t.chain == if outer == null then [] else [outer] + outer.chain
    ensures t != null ==> Ready(t, Leading(ctx, params), events, Known(t))
  {
    hide VarTable.Sound, VarTable.Tree, VarTable.Linked, Matches, Stands, GoodParams, GoodBlocks, VarTable.Registered,
      VarTable.Noted, VarTable.Done, Ready;
    t := MakeVarTableOfFunc(ctx, params, events, outer);
    if t != null {
      TreeFacts(t);
      t.DecideVarType();
      NowReady(t, Leading(ctx, params), events);
    }
  }

  lemma NowReady(t: VarTable, params: seq<ID>, events: seq<Event>)
    requires t.Tree() && (forall u | u in t.repr :: u.Done()) && (forall u | u in t.chain :: u.Sound())
    requires Matches(t.inner, events, t.repr - {t}) && t.ctx != Block && Stands(t, params, events, InnerStored(events))
    ensures Ready(t, params, events, Known(t))
  {
    hide VarTable.Sound, VarTable.Tree, VarTable.Linked, Matches, Stands, VarTable.Done;
    TreeFacts(t);
    MatchesMore(t.inner, events, t.repr - {t}, Known(t));
    ChainsKnown(t);
  }

  /** The tables below and around a table. */
  ghost function Known(t: VarTable): set<VarTable>
    reads t`repr
  {
    t.repr + set u | u in t.chain
  }

  lemma ChainsKnown(t: VarTable)
    requires t.Tree()
    ensures forall u | u in t.repr :: forall o | o in u.chain :: o in Known(t)
    ensures forall u | u in t.chain :: forall o | o in u.chain :: o in Known(t)
  {}

  /** compile_func and compile_class: a table of its own, then the body. */
  method CompileDefine(e: Event, t: VarTable, data: CompileData) returns (code: Option<Code>)
    requires e.Define? && t.Linked() && t.Sound() && (forall u | u in t.chain :: u.Sound())
    requires Encloses(data, [t] + t.chain)
    modifies (set d | d in All(data))`outerDepth
    ensures code.Some? <==> GoodEvent(e)
    ensures code.Some? ==> Compiled(code.value, BodyParams(e), e.events, Outers([t] + t.chain))
    ensures code.Some? ==> code.value.ctx == BodyContext(e)
    ensures code.Some? ==> Raised(All(data), old(Depths(All(data))), code.value.outerSize)
    ensures Stepped(All(data))
    decreases e.events, 2
  {
    hide VarTable.Sound, VarTable.Linked, Encloses, Stepped, Compiled, GoodParams, GoodBlocks, GoodBody, Outers, Raised,
      Depths, Ready;
    DefineGood(e);
    OuterFacts(data, [t] + t.chain);
    var vars := MakeResolved(BodyContext(e), if e.isClass then [] else e.params, e.events, t);
    if vars == null {
      return None;
    }
    code := CompileStmts(BodyParams(e), e.events, vars, data, Known(vars));
  }

  lemma DefineGood(e: Event)
    requires e.Define?
    ensures GoodEvent(e) <==> GoodParams(!e.isClass, if e.isClass then [] else e.params) && GoodBody(e.events)
    ensures GoodBody(e.events) ==> GoodBlocks(e.events)
  {
    if GoodBody(e.events) {
      GoodBodyBlocks(e.events);
    }
  }

  /** compile_package. */
  method CompilePackage(events: seq<Event>) returns (code: Option<Code>)
    ensures code.Some? <==> GoodBody(events)
    ensures code.Some? ==> Compiled(code.value, [], events, []) && code.value.ctx == Pkg
  {
    hide Compiled, GoodBlocks, GoodBody, Raised, Ready;
    if GoodBody(events) {
      GoodBodyBlocks(events);
    }
    var vars := MakeResolved(Pkg, [], events, null);
    if vars == null {
      return None;
    }
    code := CompileStmts([], events, vars, null, Known(vars));
  }

  /** What holds of a code object at every depth of nesting. */
  ghost predicate Lexical(code: Code, outers: seq<Scope>)
    decreases code
  {
    && Lists(code.locals, code.vars) && Reaches(ScopeOf(code), outers)
    && Enough(code.outerSize, code.vars) && code.outerSize <= |outers|
    && (forall c | c in code.children ::
          && (c.ctx == Class || Indexed(c.ctx)) && c.outerSize - 1 <= code.outerSize
          && Lexical(c, [ScopeOf(code)] + outers))
  }

  /** A compiled body and all bodies in it are lexically sound, and none keeps more frames than surround it. */
  lemma {:induction false} CompiledLexical(code: Code, params: seq<ID>, events: seq<Event>, outers: seq<Scope>)
    requires Compiled(code, params, events, outers)
    ensures Lexical(code, outers)
    decreases events, 1
  {
    var inner := [ScopeOf(code)] + outers;
    AllLexical(code.children, events, inner);
    if code.outerSize != 0 {
      if UsesLevel(code.outerSize, code.vars) {
        var n :| n in code.vars && code.vars[n].kind.Nonlocal? && code.vars[n].kind.level == code.outerSize;
      } else {
        var c :| c in code.children && c.outerSize - 1 == code.outerSize;
        assert Lexical(c, inner);
      }
    }
  }

  lemma {:induction false} AllLexical(codes: seq<Code>, events: seq<Event>, outers: seq<Scope>)
    requires AllCompiled(codes, events, outers)
    ensures forall c | c in codes :: Lexical(c, outers) && (c.ctx == Class || Indexed(c.ctx))
    decreases events, 0
  {
    hide Compiled, Lexical;
    if events != [] {
      var e, rest := events[|events| - 1], events[..|events| - 1];
      if e.BlockArg? || e.Define? {
        var last := codes[|codes| - 1];
        assert codes == codes[..|codes| - 1] + [last];
        CompiledLexical(last, if e.BlockArg? then e.params else if e.isClass then [] else [SELF] + e.params, e.events,
                        outers);
        AllLexical(codes[..|codes| - 1], rest, outers);
      } else {
        AllLexical(codes, rest, outers);
      }
    }
  }
}
