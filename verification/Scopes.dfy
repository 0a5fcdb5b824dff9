/**
 * Variable tables of the compiler (src/compile.c): registering names, and resolving each to
 * global, local or nonlocal.
 */
module Scopes {

  /** An interned name; it has the width of an index, so both share one word of a nonlocal variable. */
  type ID = nat

  const SELF: ID := 0

  datatype Context = Block | Class | Func | Pkg

  datatype Kind = Global | Local(index: nat) | Nonlocal(level: nat, slot: nat)

  datatype Var = Var(index: nat, param: bool, isAssigned: bool, isNonlocal: bool, kind: Kind)

  /** Scopes whose locals are addressed by index rather than by name. */
  predicate Indexed(ctx: Context) {
    ctx == Func || ctx == Block
  }

  /** is_visible: functions and blocks do not see the names of a class. */
  predicate Visible(ctx: Context, outer: Context) {
    !(Indexed(ctx) && outer == Class)
  }

  /** An enclosing scope as the scopes inside see it. */
  datatype Scope = Scope(ctx: Context, vars: map<ID, Var>)

  /** The nearest outer variable a scope sees below the package, looking from the scope at `i` outward. */
  function OuterKind(ctx: Context, outers: seq<Scope>, i: nat, name: ID): Kind
    decreases |outers| - i
  {
    if i >= |outers| || outers[i].ctx == Pkg then Global
    else if Visible(ctx, outers[i].ctx) && name in outers[i].vars then Shifted(outers[i], i, name)
    else OuterKind(ctx, outers, i + 1, name)
  }

  /** The variable a block refers to: through functions and blocks up to the first class or package. */
  function BlockKind(outers: seq<Scope>, i: nat, name: ID): Kind
    decreases |outers| - i
  {
    if i >= |outers| then Global
    else if !Indexed(outers[i].ctx) then
      if name in outers[i].vars && outers[i].vars[name].kind.Local? then Shifted(outers[i], i, name) else Global
    else if name in outers[i].vars then Shifted(outers[i], i, name)
    else BlockKind(outers, i + 1, name)
  }

  /** A variable found in the scope at `i`, as seen from inside. */
  function Shifted(o: Scope, i: nat, name: ID): Kind
    requires name in o.vars
  {
    match o.vars[name].kind
    case Global => Global
    case Local(n) => Nonlocal(i + 1, if Indexed(o.ctx) then n else name)
    case Nonlocal(l, s) => Nonlocal(i + 1 + l, if Indexed(o.ctx) then s else name)
  }

  /** Functions and blocks out to the one at `k`, which is the nearest that has the name. */
  ghost predicate NearestInside(outers: seq<Scope>, k: nat, name: ID) {
    && k < |outers| && name in outers[k].vars
    && (forall j | 0 <= j <= k :: outers[j].ctx == Func || outers[j].ctx == Block)
    && (forall j | 0 <= j < k :: name !in outers[j].vars)
  }

  /** The class or package at `k` is the first, and no function or block before it has the name. */
  ghost predicate NotInside(outers: seq<Scope>, k: nat, name: ID) {
    && k < |outers| && (outers[k].ctx == Class || outers[k].ctx == Pkg)
    && (forall j | 0 <= j < k :: (outers[j].ctx == Func || outers[j].ctx == Block) && name !in outers[j].vars)
  }

  /** A class whose names a function or block does not see. */
  ghost predicate Unseen(ctx: Context, outer: Context) {
    (ctx == Func || ctx == Block) && outer == Class
  }

  /** The scope at `k` is the nearest that has the name, of those seen below the package. */
  ghost predicate NearestSeen(ctx: Context, outers: seq<Scope>, k: nat, name: ID) {
    && k < |outers| && name in outers[k].vars && !Unseen(ctx, outers[k].ctx)
    && (forall j | 0 <= j <= k :: outers[j].ctx != Pkg)
    && (forall j | 0 <= j < k && name in outers[j].vars :: Unseen(ctx, outers[j].ctx))
  }

  /** No scope seen below the package has the name. */
  ghost predicate NoneSeen(ctx: Context, outers: seq<Scope>, name: ID) {
    forall k | 0 <= k < |outers| && name in outers[k].vars ::
      Unseen(ctx, outers[k].ctx) || exists j :: 0 <= j <= k && outers[j].ctx == Pkg
  }

  /**
   * What a block's name refers to: the variable of the nearest function or block that has it, wherever that variable
   * is; else the variable of the first class or package around, if it is local there.
   */
  lemma {:induction false} BlockKindIs(outers: seq<Scope>, i: nat, k: nat, name: ID)
    requires i <= k < |outers|
    ensures NearestInside(outers, k, name) ==>
      BlockKind(outers, i, name) ==
      match outers[k].vars[name].kind
      case Global => Global
      case Local(n) => Nonlocal(k + 1, n)
      case Nonlocal(l, s) => Nonlocal(k + 1 + l, s)
    ensures NotInside(outers, k, name) ==>
      BlockKind(outers, i, name) ==
      if name in outers[k].vars && outers[k].vars[name].kind.Local? then Nonlocal(k + 1, name) else Global
    decreases k - i
  {
    if i < k { BlockKindIs(outers, i + 1, k, name); }
  }

  /** What other names refer to: the variable of the nearest scope that has it, of those seen below the package. */
  lemma {:induction false} OuterKindIs(ctx: Context, outers: seq<Scope>, i: nat, k: nat, name: ID)
    requires i <= k < |outers| && NearestSeen(ctx, outers, k, name)
    ensures OuterKind(ctx, outers, i, name) ==
      match outers[k].vars[name].kind
      case Global => Global
      case Local(n) => Nonlocal(k + 1, if outers[k].ctx == Func || outers[k].ctx == Block then n else name)
      case Nonlocal(l, s) => Nonlocal(k + 1 + l, if outers[k].ctx == Func || outers[k].ctx == Block then s else name)
    decreases k - i
  {
    if i < k { OuterKindIs(ctx, outers, i + 1, k, name); }
  }

  lemma {:induction false} OuterKindNone(ctx: Context, outers: seq<Scope>, i: nat, name: ID)
    requires NoneSeen(ctx, outers, name) && forall j | 0 <= j < i && j < |outers| :: outers[j].ctx != Pkg
    ensures OuterKind(ctx, outers, i, name) == Global
    decreases |outers| - i
  {
    if i < |outers| && outers[i].ctx != Pkg { OuterKindNone(ctx, outers, i + 1, name); }
  }

  /** Out to the package, every name of a block is found in one of the two ways. */
  lemma {:induction false} InsideOrNot(outers: seq<Scope>, i: nat, name: ID)
    requires i < |outers| && outers[|outers| - 1].ctx == Pkg
    requires forall j | 0 <= j < i :: (outers[j].ctx == Func || outers[j].ctx == Block) && name !in outers[j].vars
    ensures exists k :: i <= k < |outers| && (NearestInside(outers, k, name) || NotInside(outers, k, name))
    decreases |outers| - i
  {
    if outers[i].ctx == Class || outers[i].ctx == Pkg {
      assert NotInside(outers, i, name);
    } else if name in outers[i].vars {
      assert NearestInside(outers, i, name);
    } else {
      InsideOrNot(outers, i + 1, name);
    }
  }

  /** Every other name is found, or seen nowhere. */
  lemma {:induction false} SeenOrNot(ctx: Context, outers: seq<Scope>, i: nat, name: ID)
    requires i <= |outers| && forall j | 0 <= j < i :: outers[j].ctx != Pkg
    requires forall j | 0 <= j < i && name in outers[j].vars :: Unseen(ctx, outers[j].ctx)
    ensures NoneSeen(ctx, outers, name) || exists k :: i <= k < |outers| && NearestSeen(ctx, outers, k, name)
    decreases |outers| - i
  {
    if i < |outers| && outers[i].ctx != Pkg {
      if name in outers[i].vars && !Unseen(ctx, outers[i].ctx) {
        assert NearestSeen(ctx, outers, i, name);
      } else {
        SeenOrNot(ctx, outers, i + 1, name);
      }
    }
  }

  /** What was found is the variable at the level and the slot, its name being the slot where there are no indices. */
  ghost predicate Found(l: nat, slot: nat, found: bool, level: nat, index: nat, octx: Context, name: ID) {
    found && level == l && slot == if octx == Func || octx == Block then index else name
  }

  /** The scopes of linked tables. */
  ghost function Outers(ts: seq<VarTable>): (os: seq<Scope>)
    reads ts
    ensures |os| == |ts| && forall i | 0 <= i < |ts| :: os[i] == Scope(ts[i].ctx, ts[i].vars)
  {
    seq(|ts|, i requires 0 <= i < |ts| reads ts => Scope(ts[i].ctx, ts[i].vars))
  }

  class VarTable {
    const ctx: Context
    const outer: VarTable?
    var inner: seq<VarTable>
    var vars: map<ID, Var>
    /** The enclosing tables, nearest first. */
    ghost const chain: seq<VarTable>
    /** This table and the tables below it. */
    ghost var repr: set<VarTable>
    /** Names in order of registration, and how many of them are parameters. */
    ghost var names: seq<ID>
    ghost var nparams: nat
    /** Names the flags mark as assigned and as declared nonlocal, once the body is scanned. */
    ghost var stored: set<ID>
    ghost var declared: set<ID>
    /** Names of the local variables by their index, once decided. */
    ghost var slots: seq<ID>

    constructor (ctx: Context, outer: VarTable?)
      requires if outer == null then ctx == Pkg else ctx != Pkg && outer.Linked()
      ensures this.ctx == ctx && this.outer == outer && Linked() && Tree() && Registered()
      ensures chain == if outer == null then [] else [outer] + outer.chain
      ensures inner == [] && vars == map[] && repr == {this} && names == [] && nparams == 0 && slots == []
    {
      this.ctx := ctx;
      this.outer := outer;
      chain := if outer == null then [] else [outer] + outer.chain;
      inner := [];
      vars := map[];
      repr := {this};
      names := [];
      nparams := 0;
      slots := [];
      stored, declared := {}, {};
      new;
      forall i | 0 <= i < |chain|
        ensures chain[i].chain == chain[i + 1..] && chain[i].HeadOf(chain[i].chain)
      {
        if i > 0 { assert chain[i] == outer.chain[i - 1] && chain[i + 1..] == outer.chain[i..]; }
      }
    }

    /** The outer links run along the chain to the package, which is the only table without one. */
    ghost predicate Linked() {
      && HeadOf(chain)
      && (forall i | 0 <= i < |chain| :: chain[i].chain == chain[i + 1..] && chain[i].HeadOf(chain[i].chain))
    }

    /** The outer link is the first of the tables in `c`; only a package has none. */
    ghost predicate HeadOf(c: seq<VarTable>) {
      && (outer == if c == [] then null else c[0])
      && (ctx == Pkg <==> c == [])
    }

    /** The variable at `level` tables outward is local there and `slot` addresses it. */
    ghost predicate Leads(name: ID, level: nat, slot: nat)
      reads chain
    {
      && 1 <= level <= |chain|
      && name in chain[level - 1].vars
      && chain[level - 1].vars[name].kind.Local?
      && slot == if Indexed(chain[level - 1].ctx) then chain[level - 1].vars[name].kind.index else name
    }

    /** Every level stays within the chain, and every nonlocal name of a function or block leads to its variable. */
    ghost predicate Sound()
      reads this, chain
    {
      forall name | name in vars && vars[name].kind.Nonlocal? :: LeadsFor(name, vars[name].kind)
    }

    ghost predicate LeadsFor(name: ID, k: Kind)
      requires k.Nonlocal?
      reads chain
    {
      1 <= k.level <= |chain| && (Indexed(ctx) ==> Leads(name, k.level, k.slot))
    }

    /** The outer variable a name of this table refers to, looking from the table `i + 1` levels out. */
    ghost function OuterVar(i: nat, name: ID): Kind
      reads chain
    {
      OuterKind(ctx, Outers(chain), i, name)
    }

    /** What it refers to in a block. */
    ghost function BlockVar(i: nat, name: ID): Kind
      reads chain
    {
      BlockKind(Outers(chain), i, name)
    }

    /** The nearest variable seen below the package is found, or none is, and rebased by the tables in between. */
    ghost predicate FoundOutside(name: ID, found: bool, level: nat, index: nat, octx: Context)
      reads chain
    {
      && (NoneSeen(ctx, Outers(chain), name) ==> !found)
      && forall k: nat | NearestSeen(ctx, Outers(chain), k, name) ::
           var inside := chain[k].ctx == Func || chain[k].ctx == Block;
           match chain[k].vars[name].kind
           case Global => !found
           case Local(n) => Found(k + 1, if inside then n else name, found, level, index, octx, name)
           case Nonlocal(l, s) => Found(k + 1 + l, if inside then s else name, found, level, index, octx, name)
    }

    /** The variable of the nearest function or block around is found, or else that of the first class or package. */
    ghost predicate FoundForBlock(name: ID, found: bool, level: nat, index: nat, octx: Context)
      reads chain
    {
      && (forall k: nat | NearestInside(Outers(chain), k, name) ::
            match chain[k].vars[name].kind
            case Global => !found
            case Local(n) => Found(k + 1, n, found, level, index, octx, name)
            case Nonlocal(l, s) => Found(k + 1 + l, s, found, level, index, octx, name))
      && (forall k: nat | NotInside(Outers(chain), k, name) ::
            if name in chain[k].vars && chain[k].vars[name].kind.Local? then
              Found(k + 1, name, found, level, index, octx, name)
            else !found)
    }

    lemma OuterVarFound(name: ID, found: bool, level: nat, index: nat, octx: Context)
      requires OuterVar(0, name) == if found then Nonlocal(level, if Indexed(octx) then index else name) else Global
      ensures FoundOutside(name, found, level, index, octx)
    {
      var os := Outers(chain);
      if NoneSeen(ctx, os, name) { OuterKindNone(ctx, os, 0, name); }
      forall k: nat | NearestSeen(ctx, os, k, name)
        ensures OuterVar(0, name) ==
                var inside := chain[k].ctx == Func || chain[k].ctx == Block;
                match chain[k].vars[name].kind
                case Global => Global
                case Local(n) => Nonlocal(k + 1, if inside then n else name)
                case Nonlocal(l, s) => Nonlocal(k + 1 + l, if inside then s else name)
      {
        OuterKindIs(ctx, os, 0, k, name);
      }
    }

    lemma BlockVarFound(name: ID, found: bool, level: nat, index: nat, octx: Context)
      requires BlockVar(0, name) == if found then Nonlocal(level, if Indexed(octx) then index else name) else Global
      ensures FoundForBlock(name, found, level, index, octx)
    {
      var os := Outers(chain);
      forall k: nat | NearestInside(os, k, name)
        ensures BlockVar(0, name) ==
                match chain[k].vars[name].kind
                case Global => Global
                case Local(n) => Nonlocal(k + 1, n)
                case Nonlocal(l, s) => Nonlocal(k + 1 + l, s)
      {
        BlockKindIs(os, 0, k, name);
      }
      forall k: nat | NotInside(os, k, name)
        ensures BlockVar(0, name) ==
                if name in chain[k].vars && chain[k].vars[name].kind.Local? then Nonlocal(k + 1, name) else Global
      {
        BlockKindIs(os, 0, k, name);
      }
    }

    /** find_outer_var. */
    method FindOuterVar(name: ID) returns (found: bool, level: nat, index: nat, octx: Context)
      requires Linked()
      ensures OuterVar(0, name) == if found then Nonlocal(level, if Indexed(octx) then index else name) else Global
      ensures FoundOutside(name, found, level, index, octx)
    {
      hide FoundOutside;
      forall f: bool, l: nat, x: nat, o: Context
        | OuterVar(0, name) == if f then Nonlocal(l, if Indexed(o) then x else name) else Global
        ensures FoundOutside(name, f, l, x, o)
      {
        OuterVarFound(name, f, l, x, o);
      }
      found, level, index, octx := false, 0, 0, Pkg;
      var tbl := outer;
      ghost var i := 0;
      while tbl != null && tbl.ctx != Pkg
        invariant i <= |chain| && (tbl == if i < |chain| then chain[i] else null)
        invariant level == i && OuterVar(0, name) == OuterVar(i, name)
        decreases |chain| - i
      {
        octx := tbl.ctx;
        if Visible(ctx, octx) && name in tbl.vars {
          match tbl.vars[name].kind {
            case Global =>
              return false, level, index, octx;
            case Local(k) =>
              return true, level + 1, k, octx;
            case Nonlocal(l, s) =>
              return true, level + l + 1, if Indexed(octx) then s else index, octx;
          }
        }
        level := level + 1;
        tbl := tbl.outer;
        i := i + 1;
      }
    }

    /** search_block_var_local_scope. */
    method SearchBlockVar(name: ID) returns (found: bool, level: nat, index: nat, octx: Context)
      requires Linked() && outer != null
      ensures BlockVar(0, name) == if found then Nonlocal(level, if Indexed(octx) then index else name) else Global
      ensures FoundForBlock(name, found, level, index, octx)
    {
      hide FoundForBlock;
      forall f: bool, l: nat, x: nat, o: Context
        | BlockVar(0, name) == if f then Nonlocal(l, if Indexed(o) then x else name) else Global
        ensures FoundForBlock(name, f, l, x, o)
      {
        BlockVarFound(name, f, l, x, o);
      }
      found, level, index, octx := false, 1, 0, Pkg;
      var tbl := outer;
      ghost var i := 0;
      while tbl.ctx != Pkg && tbl.ctx != Class
        invariant i < |chain| && tbl == chain[i]
        invariant level == i + 1 && BlockVar(0, name) == BlockVar(i, name)
        decreases |chain| - i
      {
        if name in tbl.vars {
          octx := tbl.ctx;
          match tbl.vars[name].kind {
            case Global =>
              return false, level, index, octx;
            case Local(k) =>
              return true, level, k, octx;
            case Nonlocal(l, s) =>
              return true, level + l, s, octx;
          }
        }
        level := level + 1;
        tbl := tbl.outer;
        i := i + 1;
      }
      if name in tbl.vars && tbl.vars[name].kind.Local? {
        return true, level, index, tbl.ctx;
      }
    }

    lemma {:induction false} OuterVarSound(i: nat, name: ID)
      requires Linked() && forall t | t in chain :: t.Sound()
      ensures OuterVar(i, name).Nonlocal? ==> LeadsFor(name, OuterVar(i, name))
      decreases |chain| - i
    {
      if i < |chain| && chain[i].ctx != Pkg {
        if Visible(ctx, chain[i].ctx) && name in chain[i].vars {
          RebasedSound(i, name);
        } else {
          OuterVarSound(i + 1, name);
        }
      }
    }

    lemma {:induction false} BlockVarSound(i: nat, name: ID)
      requires Linked() && forall t | t in chain :: t.Sound()
      ensures BlockVar(i, name).Nonlocal? ==> LeadsFor(name, BlockVar(i, name))
      decreases |chain| - i
    {
      if i < |chain| && Indexed(chain[i].ctx) {
        if name in chain[i].vars { RebasedSound(i, name); } else { BlockVarSound(i + 1, name); }
      }
    }

    /** A nonlocal variable of an outer table leads on from there. */
    lemma RebasedSound(i: nat, name: ID)
      requires Linked() && i < |chain| && chain[i].Sound() && name in chain[i].vars
      requires Indexed(ctx) ==> Indexed(chain[i].ctx)
      ensures var k := Shifted(Outers(chain)[i], i, name); k.Nonlocal? ==> LeadsFor(name, k)
    {
      var t := chain[i];
      var k := t.vars[name].kind;
      if k.Nonlocal? {
        assert t.LeadsFor(name, k);
        assert t.chain[k.level - 1] == chain[i + 1..][k.level - 1];
      }
    }

    /** Variables are numbered in order of registration, parameters before all others. */
    ghost predicate Registered()
      reads `vars, `names, `nparams
    {
      InOrder(vars, names, nparams)
    }

    /** The local indices are exactly 0, 1, ..., |slots| - 1, and parameters keep the lowest. */
    ghost predicate Numbered()
      reads this
    {
      SlotsFor(vars, names, nparams, slots, {})
    }

    /** The flags of the variables are as noted. */
    ghost predicate Noted()
      reads `vars, `stored, `declared
    {
      forall n | n in vars :: vars[n].isAssigned == (n in stored) && vars[n].isNonlocal == (n in declared)
    }

    /** Scanned: the variables are in order and flagged as noted. */
    ghost predicate Prepared()
      reads `vars, `names, `nparams, `stored, `declared
    {
      Registered() && Noted()
    }

    /** How a name is resolved, given its flags. */
    ghost predicate Resolved(name: ID, v: Var)
      reads chain
    {
      if v.param then v.kind == Local(v.index)
      else if v.isNonlocal then v.kind == OuterVar(0, name)
      else if ctx == Block then v.kind == BlockVar(0, name)
      else if !v.isAssigned then v.kind == OuterVar(0, name)
      else v.kind.Local?
    }

    /** register_var without the parameter flag. */
    method Register(name: ID, isAssigned: bool, isNonlocal: bool)
      requires Registered()
      modifies this`vars, this`names
      ensures Registered() && nparams == old(nparams)
      ensures vars.Keys == old(vars.Keys) + {name}
      ensures forall n | n in vars && n != name :: vars[n] == old(vars)[n]
      ensures vars[name].isAssigned == (isAssigned || (name in old(vars) && old(vars)[name].isAssigned))
      ensures vars[name].isNonlocal == (isNonlocal || (name in old(vars) && old(vars)[name].isNonlocal))
      ensures vars[name].param == (name in old(vars) && old(vars)[name].param)
      ensures names == if name in old(vars) then old(names) else old(names) + [name]
    {
      hide InOrder;
      if name in vars {
        var v := vars[name];
        var w := v.(isAssigned := v.isAssigned || isAssigned, isNonlocal := v.isNonlocal || isNonlocal);
        Reflagged(vars, names, nparams, name, w);
        vars := vars[name := w];
      } else {
        Appended(vars, names, nparams, name, Var(|vars|, false, isAssigned, isNonlocal, Global));
        vars := vars[name := Var(|vars|, false, isAssigned, isNonlocal, Global)];
        names := names + [name];
      }
    }

    /** register_var_as_param, which runs before any other name is registered. */
    method RegisterParam(name: ID)
      requires Registered() && name !in vars && nparams == |names|
      modifies this`vars, this`names, this`nparams
      ensures Registered() && nparams == |names| && names == old(names) + [name]
      ensures vars == old(vars)[name := Var(|old(names)|, true, false, false, Global)]
    {
      DistinctSize(names, vars);
      vars := vars[name := Var(|vars|, true, false, false, Global)];
      names := names + [name];
      nparams := nparams + 1;
    }

    /** decide_param_type over all variables; returns the number of parameters. */
    method DecideParams() returns (params: nat)
      requires Registered()
      modifies this`vars
      ensures Registered() && vars.Keys == old(vars.Keys) && params == nparams <= |names|
      ensures forall n | n in vars :: vars[n] == ParamDecided(old(vars)[n])
    {
      params := 0;
      var todo := vars.Keys;
      ghost var was, found := vars, {};
      while todo != {}
        invariant todo <= vars.Keys == was.Keys
        invariant found == Params(was, was.Keys - todo) && params == |found|
        invariant forall n | n in vars :: vars[n] == if n in todo then was[n] else ParamDecided(was[n])
        decreases todo
      {
        var name :| name in todo;
        if vars[name].param {
          vars := vars[name := vars[name].(kind := Local(vars[name].index))];
          params := params + 1;
        }
        ghost var done := was.Keys - todo;
        todo := todo - {name};
        assert was.Keys - todo - {name} == done;
        ParamsGrow(was, was.Keys - todo, name);
        found := Params(was, was.Keys - todo);
      }
      assert was.Keys - todo == was.Keys;
      ParamCount(names, nparams, was, found);
    }

    /** The numbering so far: parameters, and the other locals not in `todo`. */
    ghost predicate NumberedBut(todo: set<ID>)
      reads this
    {
      SlotsFor(vars, names, nparams, slots, todo)
    }

    /** What assigning a kind to one variable still to do does to the numbering. */
    method SetKind(name: ID, kind: Kind, ghost todo: set<ID>)
      requires NumberedBut(todo) && name in todo && name in vars && !vars[name].param
      requires kind.Local? ==> kind == Local(|slots|)
      modifies this`vars, this`slots
      ensures NumberedBut(todo - {name})
      ensures vars == old(vars)[name := old(vars)[name].(kind := kind)]
      ensures |slots| == |old(slots)| + if kind.Local? then 1 else 0
    {
      vars := vars[name := vars[name].(kind := kind)];
      if kind.Local? {
        slots := slots + [name];
      }
    }

    /** decide_auto_var_type for one variable; the next free index is returned. */
    method DecideAuto(name: ID, index: nat, ghost todo: set<ID>) returns (next: nat)
      requires Linked() && this !in chain && name in vars && index == |slots|
      requires NumberedBut(todo) && name in todo && (vars[name].param ==> vars[name].kind == Local(vars[name].index))
      modifies this`vars, this`slots
      ensures NumberedBut(todo - {name}) && next == |slots|
      ensures name in vars && vars == old(vars)[name := old(vars)[name].(kind := vars[name].kind)]
      ensures Resolved(name, vars[name])
    {
      hide FoundOutside, FoundForBlock;
      var v := vars[name];
      next := index;
      if v.param {
        return;
      }
      NeverLocal(0, name);
      if v.isNonlocal {
        var found, level, idx, octx := FindOuterVar(name);
        SetKind(name, if found then Nonlocal(level, if Indexed(octx) then idx else name) else Global, todo);
        return;
      }
      if ctx == Block {
        var found, level, idx, octx := SearchBlockVar(name);
        SetKind(name, if found then Nonlocal(level, if Indexed(octx) then idx else name) else Global, todo);
        return;
      }
      if !v.isAssigned {
        var found, level, idx, octx := FindOuterVar(name);
        SetKind(name, if found then Nonlocal(level, if Indexed(octx) then idx else name) else Global, todo);
        return;
      }
      SetKind(name, Local(index), todo);
      next := index + 1;
    }

    lemma {:induction false} NeverLocal(i: nat, name: ID)
      ensures !OuterVar(i, name).Local? && !BlockVar(i, name).Local?
      decreases |chain| - i
    {
      if i < |chain| { NeverLocal(i + 1, name); }
    }

    /** The second pass of decide_var_type, in whatever order the table is iterated. */
    method DecideAutos(index: nat)
      requires Linked() && this !in chain && NumberedBut(vars.Keys) && index == |slots|
      requires forall n | n in vars && vars[n].param :: vars[n].kind == Local(vars[n].index)
      modifies this`vars, this`slots
      ensures NumberedBut({}) && SameButKinds(vars, old(vars))
      ensures forall n | n in vars :: Resolved(n, vars[n])
    {
      hide NumberedBut, Resolved, Linked;
      var next := index;
      var todo := vars.Keys;
      while todo != {}
        invariant todo <= vars.Keys
        invariant SameButKinds(vars, old(vars))
        invariant forall n | n in vars && vars[n].param :: vars[n].kind == Local(vars[n].index)
        invariant forall n | n in vars && n !in todo :: Resolved(n, vars[n])
        invariant NumberedBut(todo) && next == |slots|
        decreases todo
      {
        var name :| name in todo;
        ResolvedParam(name, vars[name]);
        next := DecideAuto(name, next, todo);
        ResolvedParam(name, vars[name]);
        todo := todo - {name};
      }
    }

    lemma ResolvedParam(name: ID, v: Var)
      ensures v.param ==> (Resolved(name, v) <==> v.kind == Local(v.index))
    {}

    /** The two passes of decide_var_type over one table. */
    method DecideOwn()
      requires Prepared() && Linked() && this !in chain
      modifies this`vars, this`slots
      ensures Prepared() && Numbered()
      ensures forall n | n in vars :: Resolved(n, vars[n])
    {
      hide Resolved, Linked, InOrder, SlotsFor, SameButKinds;
      var index := DecideParams();
      ParamKinds(vars, old(vars));
      ghost var was := vars;
      slots := names[..nparams];
      ParamsNumbered(vars, names, nparams);
      DecideAutos(index);
      KindsDoNotMatter(vars, was, names, nparams);
      SameTwice(vars, was, old(vars));
    }

    /** The tables below this one are blocks, form a tree and are owned by nobody else. */
    ghost predicate Tree()
      reads this`inner, this`repr, repr`inner, repr`repr
      decreases repr
    {
      && this in repr && Linked() && Apart(repr)
      && (forall i | 0 <= i < |inner| :: inner[i] in repr && Hangs(inner[i]) && inner[i].Tree())
      && Disjoint(inner) && Covered(inner, repr) && Closed(repr)
    }

    /** No enclosing table is among these. */
    ghost predicate Apart(ts: set<VarTable>) {
      forall t | t in chain :: t !in ts
    }

    /** A block directly below this table. */
    ghost predicate Hangs(c: VarTable)
      reads this`repr, c`repr
    {
      c.repr < repr && this !in c.repr && c.ctx == Block && c.chain == [this] + chain
    }

    static ghost predicate Disjoint(ts: seq<VarTable>)
      reads ts`repr
    {
      forall i, j | 0 <= i < j < |ts| :: ts[i].repr !! ts[j].repr
    }

    /** Every table below is at or below one of `ts`. */
    ghost predicate Covered(ts: seq<VarTable>, all: set<VarTable>)
      reads ts`repr
    {
      forall t | t in all && t != this :: exists i :: 0 <= i < |ts| && t in ts[i].repr
    }

    /** What encloses one of these is one of these, or encloses this table. */
    ghost predicate Closed(ts: set<VarTable>) {
      forall t | t in ts :: forall o | o in t.chain :: o in ts || o in chain
    }

    /** Fully decided: numbered, resolved as the flags say, and sound. */
    ghost predicate Done()
      reads this, chain
    {
      Prepared() && Numbered() && Sound() && forall n | n in vars :: Resolved(n, vars[n])
    }

    lemma ResolvedIsSound()
      requires Linked() && (forall t | t in chain :: t.Sound()) && forall n | n in vars :: Resolved(n, vars[n])
      ensures Sound()
    {
      forall n | n in vars && vars[n].kind.Nonlocal?
        ensures LeadsFor(n, vars[n].kind)
      {
        OuterVarSound(0, n);
        BlockVarSound(0, n);
      }
    }

    /** What a table reads lies in its own branch, in this table or above: never in another branch. */
    lemma Branches(k: nat)
      requires Tree() && k < |inner|
      ensures this !in inner[k].repr && inner[k].repr < repr && inner[k].Tree() && inner[k].chain == [this] + chain
      ensures forall t | t in chain :: t !in inner[k].repr && forall o | o in t.chain :: o !in inner[k].repr
      ensures forall j | 0 <= j < |inner| && j != k :: inner[j].repr !! inner[k].repr
      ensures forall j | 0 <= j < |inner| && j != k ::
        forall t | t in inner[j].repr :: forall o | o in t.chain :: o !in inner[k].repr
    {
      hide Linked, Covered, Closed;
      forall j | 0 <= j < |inner| && j != k
        ensures inner[j].repr !! inner[k].repr
      {
        if j < k { assert inner[j].repr !! inner[k].repr; } else { assert inner[k].repr !! inner[j].repr; }
      }
      forall t | t in chain
        ensures t !in inner[k].repr && forall o | o in t.chain :: o !in inner[k].repr
      {
        AboveBranch(t, k);
      }
      forall j | 0 <= j < |inner| && j != k
        ensures forall t | t in inner[j].repr :: forall o | o in t.chain :: o !in inner[k].repr
      {
        BesideBranch(j, k);
      }
    }

    lemma AboveBranch(t: VarTable, k: nat)
      requires Tree() && k < |inner| && t in chain
      ensures t !in inner[k].repr && forall o | o in t.chain :: o !in inner[k].repr
    {
      hide Disjoint, Covered, Closed;
      var i :| 0 <= i < |chain| && chain[i] == t;
      assert t.chain == chain[i + 1..];
    }

    lemma BesideBranch(j: nat, k: nat)
      requires Tree() && j < |inner| && k < |inner| && inner[j].repr !! inner[k].repr
      ensures forall t | t in inner[j].repr :: forall o | o in t.chain :: o !in inner[k].repr
    {
      hide Disjoint, Covered, Linked;
      assert inner[j].Closed(inner[j].repr) && Hangs(inner[j]) && Hangs(inner[k]);
    }

    lemma EveryTable()
      requires Tree()
      ensures this in repr && Linked() && forall t | t in chain :: t !in repr && t != this
      ensures forall i | 0 <= i < |inner| :: inner[i] in repr - {this} && inner[i].repr <= repr - {this}
      ensures forall t | t in repr && t != this :: exists i :: 0 <= i < |inner| && t in inner[i].repr
    {}

    lemma DisjointMore(ts: seq<VarTable>, child: VarTable, all: set<VarTable>)
      requires Disjoint(ts) && (forall i | 0 <= i < |ts| :: ts[i].repr <= all) && all !! child.repr
      ensures Disjoint(ts + [child])
    {}

    lemma CoveredMore(ts: seq<VarTable>, child: VarTable, all: set<VarTable>)
      requires Covered(ts, all)
      ensures Covered(ts + [child], all + child.repr)
    {
      var now := ts + [child];
      forall t | t in all + child.repr && t != this
        ensures exists i :: 0 <= i < |now| && t in now[i].repr
      {
        if t in child.repr {
          assert t in now[|ts|].repr;
        } else {
          var i :| 0 <= i < |ts| && t in ts[i].repr;
          assert t in now[i].repr;
        }
      }
    }

    lemma ClosedMore(all: set<VarTable>, child: VarTable)
      requires Closed(all) && child.Tree() && child.chain == [this] + chain && this in all && Apart(all)
      requires all !! child.repr
      ensures Closed(all + child.repr) && Apart(all + child.repr)
    {
      forall t | t in child.repr
        ensures forall o | o in t.chain :: o in all + child.repr || o in chain
      {}
      assert forall t | t in chain :: t in child.chain;
    }

    /** VarTable_add_child for a block whose own table is complete. */
    method AddChild(child: VarTable)
      requires Tree() && child.Tree() && repr !! child.repr
      requires child.ctx == Block && child.chain == [this] + chain
      modifies this`inner, this`repr
      ensures Tree() && inner == old(inner) + [child] && repr == old(repr) + child.repr
    {
      hide Linked, Disjoint, Covered, Closed, Apart;
      OwnTable();
      child.OwnTable();
      DisjointMore(inner, child, repr);
      CoveredMore(inner, child, repr);
      ClosedMore(repr, child);
      ghost var k := |inner|;
      inner := inner + [child];
      repr := repr + child.repr;
      assert forall i | 0 <= i < k :: inner[i] == old(inner)[i];
      assert inner[k] == child;
    }

    lemma OwnTable()
      requires Tree()
      ensures this in repr
    {}

    /** decide_var_type: this table, then the blocks below it. */
    method DecideVarType()
      requires Tree() && (forall t | t in repr :: t.Prepared()) && forall t | t in chain :: t.Sound()
      modifies repr`vars, repr`slots
      ensures forall t | t in repr :: t.Done()
      decreases repr
    {
      hide Registered, Tree, Noted, Linked;
      EveryTable();
      DecideOwn();
      ResolvedIsSound();
      DecideInner();
      EveryTable();
    }

    /** The loop over inner_tbls. */
    method DecideInner()
      requires Tree() && Done() && forall t | t in chain :: t.Sound()
      requires forall t | t in repr && t != this :: t.Prepared()
      modifies (repr - {this})`vars, (repr - {this})`slots
      ensures Done() && forall j | 0 <= j < |inner| :: forall t | t in inner[j].repr :: t.Done()
      decreases repr, 0
    {
      hide Done, Prepared, Sound, Tree, Linked;
      EveryTable();
      for k := 0 to |inner|
        invariant Tree() && Done() && forall t | t in chain :: t.Sound()
        invariant forall j | 0 <= j < k :: forall t | t in inner[j].repr :: t.Done()
        invariant forall j | k <= j < |inner| :: forall t | t in inner[j].repr :: t.Prepared()
      {
        Branches(k);
        DoneIsSound();
        inner[k].DecideVarType();
      }
    }

    lemma DoneIsSound()
      requires Done()
      ensures Sound()
    {}
  }

  ghost predicate InOrder(vars: map<ID, Var>, names: seq<ID>, nparams: nat) {
    && nparams <= |names|
    && (forall n :: n in vars <==> n in names)
    && (forall i | 0 <= i < |names| ::
          names[i] in vars && vars[names[i]].index == i && (vars[names[i]].param <==> i < nparams))
  }

  /** A name gets other flags. */
  lemma Reflagged(vars: map<ID, Var>, names: seq<ID>, nparams: nat, name: ID, w: Var)
    requires InOrder(vars, names, nparams) && name in vars
    requires w.index == vars[name].index && w.param == vars[name].param
    ensures InOrder(vars[name := w], names, nparams)
  {}

  /** A name is added after all others. */
  lemma Appended(vars: map<ID, Var>, names: seq<ID>, nparams: nat, name: ID, w: Var)
    requires InOrder(vars, names, nparams) && name !in vars && w.index == |vars| && !w.param
    ensures InOrder(vars[name := w], names + [name], nparams)
  {
    DistinctSize(names, vars);
  }

  /** `slots` lists the parameters and then the other locals outside `todo`, each at its index. */
  ghost predicate SlotsFor(vars: map<ID, Var>, names: seq<ID>, nparams: nat, slots: seq<ID>, todo: set<ID>) {
    && nparams <= |slots| && nparams <= |names| && slots[..nparams] == names[..nparams]
    && (forall i | 0 <= i < |slots| ::
          slots[i] in vars && vars[slots[i]].kind == Local(i) && (slots[i] !in todo || vars[slots[i]].param))
    && (forall n | n in vars && (n !in todo || vars[n].param) && vars[n].kind.Local? ::
          vars[n].kind.index < |slots| && slots[vars[n].kind.index] == n)
  }

  /** Only kinds differ. */
  ghost predicate SameButKinds(vars: map<ID, Var>, was: map<ID, Var>) {
    vars.Keys == was.Keys && forall n | n in vars :: vars[n] == was[n].(kind := vars[n].kind)
  }

  lemma KindsDoNotMatter(vars: map<ID, Var>, was: map<ID, Var>, names: seq<ID>, nparams: nat)
    requires SameButKinds(vars, was) && InOrder(was, names, nparams)
    ensures InOrder(vars, names, nparams) && vars.Keys == was.Keys
  {}

  lemma SameTwice(now: map<ID, Var>, mid: map<ID, Var>, was: map<ID, Var>)
    requires SameButKinds(now, mid) && SameButKinds(mid, was)
    ensures SameButKinds(now, was)
  {}

  lemma ParamKinds(now: map<ID, Var>, was: map<ID, Var>)
    requires now.Keys == was.Keys && forall n | n in now :: now[n] == ParamDecided(was[n])
    ensures SameButKinds(now, was)
  {}

  lemma ParamsNumbered(vars: map<ID, Var>, names: seq<ID>, nparams: nat)
    requires InOrder(vars, names, nparams)
    requires forall n | n in vars && vars[n].param :: vars[n].kind == Local(vars[n].index)
    ensures nparams <= |names| && SlotsFor(vars, names, nparams, names[..nparams], vars.Keys)
  {}

  function ParamDecided(v: Var): Var {
    if v.param then v.(kind := Local(v.index)) else v
  }

  ghost function Params(vars: map<ID, Var>, ns: set<ID>): set<ID> {
    set n | n in ns && n in vars && vars[n].param
  }

  lemma ParamsGrow(vars: map<ID, Var>, ns: set<ID>, name: ID)
    requires name in ns && name in vars
    ensures Params(vars, ns) == Params(vars, ns - {name}) + (if vars[name].param then {name} else {})
    ensures name !in Params(vars, ns - {name})
  {}

  /** A table registered without repetition has as many entries as names. */
  lemma {:induction false} DistinctSize(names: seq<ID>, vars: map<ID, Var>)
    requires forall n :: n in vars <==> n in names
    requires forall i | 0 <= i < |names| :: names[i] in vars && vars[names[i]].index == i
    ensures |vars| == |names|
  {
    SetOfDistinct(names, vars.Keys);
    assert |vars| == |vars.Keys|;
  }

  lemma {:induction false} SetOfDistinct(names: seq<ID>, s: set<ID>)
    requires forall n :: n in s <==> n in names
    requires forall i, j | 0 <= i < j < |names| :: names[i] != names[j]
    ensures |s| == |names|
  {
    if names == [] {
      assert s == {};
    } else {
      var k := |names| - 1;
      assert names == names[..k] + [names[k]];
      SetOfDistinct(names[..k], s - {names[k]});
    }
  }

  lemma ParamCount(names: seq<ID>, nparams: nat, vars: map<ID, Var>, found: set<ID>)
    requires nparams <= |names| && forall n :: n in vars <==> n in names
    requires forall i | 0 <= i < |names| ::
               names[i] in vars && vars[names[i]].index == i && (vars[names[i]].param <==> i < nparams)
    requires found == Params(vars, vars.Keys)
    ensures |found| == nparams
  {
    SetOfDistinct(names[..nparams], found);
  }
}
