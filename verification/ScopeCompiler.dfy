/**
 * Building the variable tables of a whole program and the number of enclosing frames each body
 * must keep (src/compile.c).
 */
module ScopeCompiler {
  import opened Scopes

  /** What the scan of a body meets, in order. Default expressions count as the first events. */
  datatype Event =
    | Use(name: ID)
    | Store(name: ID)
    | DeclareNonlocal(name: ID)
    | BlockArg(params: seq<ID>, events: seq<Event>)
    | Define(name: ID, isClass: bool, params: seq<ID>, events: seq<Event>)

  /** Names a table assigns to other than through a parameter. */
  ghost function AssignedNames(t: VarTable): set<ID>
    reads t
  {
    set n | n in t.vars && t.vars[n].isAssigned && !t.vars[n].param
  }

  /** The same over a table and all blocks below it. */
  ghost function AssignedBelow(t: VarTable): set<ID>
    reads t, t.repr
  {
    set u, n | u in t.repr && n in AssignedNames(u) :: n
  }

  /** `now` is `was` with the names in `s` marked assigned, new entries being otherwise unmarked. */
  ghost predicate Marked(now: map<ID, Var>, was: map<ID, Var>, s: set<ID>) {
    && now.Keys == was.Keys + s
    && (forall n | n in now ::
          && now[n].isAssigned == (n in s || (n in was && was[n].isAssigned))
          && now[n].isNonlocal == (n in was && was[n].isNonlocal)
          && now[n].param == (n in was && was[n].param))
  }

  lemma MarkedTwice(a: map<ID, Var>, b: map<ID, Var>, c: map<ID, Var>, s: set<ID>, t: set<ID>)
    requires Marked(b, a, s) && Marked(c, b, t)
    ensures Marked(c, a, s + t)
  {}

  lemma MarkedNothing(vars: map<ID, Var>)
    ensures Marked(vars, vars, {})
  {}

  lemma MarkedOnce(now: map<ID, Var>, was: map<ID, Var>, name: ID)
    requires now.Keys == was.Keys + {name} && forall n | n in now && n != name :: now[n] == was[n]
    requires now[name].isAssigned
    requires now[name].isNonlocal == (name in was && was[name].isNonlocal)
    requires now[name].param == (name in was && was[name].param)
    ensures Marked(now, was, {name})
  {}

  lemma AssignedBut(t: VarTable)
    ensures AssignedNames(t) - t.vars.Keys == {}
  {}

  lemma AssignedName(t: VarTable, todo: set<ID>, name: ID)
    requires name in todo && name in t.vars
    ensures AssignedNames(t) - (todo - {name}) ==
            if t.vars[name].isAssigned && !t.vars[name].param then AssignedNames(t) - todo + {name}
            else AssignedNames(t) - todo
  {}

  /** The pass of put_vars_assigned_in_block over one table. */
  method PutOwn(top: VarTable, t: VarTable)
    requires top != t && top.Registered()
    modifies top`vars, top`names
    ensures top.Registered() && top.nparams == old(top.nparams) && old(top.names) <= top.names
    ensures Marked(top.vars, old(top.vars), AssignedNames(t))
  {
    hide VarTable.Registered, Marked, AssignedNames;
    MarkedNothing(top.vars);
    AssignedBut(t);
    var todo := t.vars.Keys;
    while todo != {}
      invariant todo <= t.vars.Keys
      invariant top.Registered() && top.nparams == old(top.nparams) && old(top.names) <= top.names
      invariant Marked(top.vars, old(top.vars), AssignedNames(t) - todo)
      decreases todo
    {
      var name :| name in todo;
      var v := t.vars[name];
      AssignedName(t, todo, name);
      if !v.param && v.isAssigned {
        ghost var before := top.vars;
        top.Register(name, true, false);
        MarkedOnce(top.vars, before, name);
        MarkedTwice(old(top.vars), before, top.vars, AssignedNames(t) - todo, {name});
      }
      todo := todo - {name};
    }
    assert AssignedNames(t) - todo == AssignedNames(t);
  }

  /** put_vars_assigned_in_block: everything assigned in a block or below it is assigned in the top table. */
  method PutVarsAssignedInBlock(top: VarTable, t: VarTable)
    requires t.Tree() && top !in t.repr && top.Registered()
    modifies top`vars, top`names
    ensures top.Registered() && top.nparams == old(top.nparams) && old(top.names) <= top.names
    ensures Marked(top.vars, old(top.vars), AssignedBelow(t))
    decreases t.repr, 1
  {
    hide VarTable.Registered, VarTable.Tree, Marked, AssignedNames, AssignedBelow, InnerAssigned;
    InnerWithOwn(t);
    PutOwn(top, t);
    ghost var mid, names := top.vars, top.names;
    PutVarsAssignedInInnerScope(top, t);
    MarkedTwice(old(top.vars), mid, top.vars, AssignedNames(t), InnerAssigned(t));
    Longer(old(top.names), names, top.names);
  }

  lemma InnerWithOwn(t: VarTable)
    requires t.Tree()
    ensures t in t.repr && AssignedNames(t) + InnerAssigned(t) == AssignedBelow(t)
  {
    hide VarTable.Linked;
  }

  /** Names assigned in the blocks strictly below `t`. */
  ghost function InnerAssigned(t: VarTable): set<ID>
    reads t`repr, t.repr - {t}
  {
    set u, n | u in t.repr - {t} && n in AssignedNames(u) :: n
  }

  /** Names assigned in or below the first `k` of some blocks. */
  ghost function FirstAssigned(ts: seq<VarTable>, k: nat): set<ID>
    requires k <= |ts|
    reads ts, set i, u | 0 <= i < |ts| && u in ts[i].repr :: u
  {
    if k == 0 then {} else FirstAssigned(ts, k - 1) + AssignedBelow(ts[k - 1])
  }

  lemma {:induction false} FirstContains(ts: seq<VarTable>, k: nat, u: VarTable, n: ID)
    requires k <= |ts| && n in AssignedNames(u)
    ensures (exists i :: 0 <= i < k && u in ts[i].repr) ==> n in FirstAssigned(ts, k)
  {
    if k > 0 { FirstContains(ts, k - 1, u, n); }
  }

  lemma {:induction false} FirstWithin(ts: seq<VarTable>, k: nat, n: ID)
    requires k <= |ts| && n in FirstAssigned(ts, k)
    ensures exists i, u :: 0 <= i < k && u in ts[i].repr && n in AssignedNames(u)
  {
    if n in AssignedBelow(ts[k - 1]) {
      var u :| u in ts[k - 1].repr && n in AssignedNames(u);
    } else {
      FirstWithin(ts, k - 1, n);
    }
  }

  lemma AllAssigned(t: VarTable)
    requires forall i | 0 <= i < |t.inner| :: t.inner[i].repr <= t.repr - {t}
    requires forall u | u in t.repr && u != t :: exists i :: 0 <= i < |t.inner| && u in t.inner[i].repr
    ensures FirstAssigned(t.inner, |t.inner|) == InnerAssigned(t)
  {
    forall n | n in InnerAssigned(t)
      ensures n in FirstAssigned(t.inner, |t.inner|)
    {
      var u :| u in t.repr - {t} && n in AssignedNames(u);
      FirstContains(t.inner, |t.inner|, u, n);
    }
    forall n | n in FirstAssigned(t.inner, |t.inner|)
      ensures n in InnerAssigned(t)
    {
      FirstWithin(t.inner, |t.inner|, n);
    }
  }

  lemma Longer(a: seq<ID>, b: seq<ID>, c: seq<ID>)
    requires a <= b <= c
    ensures a <= c
  {}

  /** put_vars_assigned_in_inner_scope, over the blocks directly below `t`; `t` may be the top table itself. */
  method PutVarsAssignedInInnerScope(top: VarTable, t: VarTable)
    requires t.Tree() && top !in t.repr - {t} && top.Registered()
    modifies top`vars, top`names
    ensures top.Registered() && top.nparams == old(top.nparams) && old(top.names) <= top.names
    ensures Marked(top.vars, old(top.vars), InnerAssigned(t))
    decreases t.repr, 0
  {
    hide AssignedBelow, InnerAssigned, Marked, AssignedNames, FirstAssigned, VarTable.Tree, VarTable.Registered;
    t.EveryTable();
    MarkedNothing(top.vars);
    FirstNone(t.inner);
    for i := 0 to |t.inner|
      invariant top.Registered() && top.nparams == old(top.nparams) && old(top.names) <= top.names
      invariant Marked(top.vars, old(top.vars), FirstAssigned(t.inner, i))
      invariant t.Tree()
    {
      t.Branches(i);
      ghost var before, names := top.vars, top.names;
      PutVarsAssignedInBlock(top, t.inner[i]);
      FirstNext(t.inner, i);
      MarkedTwice(old(top.vars), before, top.vars, FirstAssigned(t.inner, i), AssignedBelow(t.inner[i]));
      Longer(old(top.names), names, top.names);
    }
    AllAssigned(t);
  }

  lemma FirstNone(ts: seq<VarTable>)
    ensures FirstAssigned(ts, 0) == {}
  {}

  lemma FirstNext(ts: seq<VarTable>, k: nat)
    requires k < |ts|
    ensures FirstAssigned(ts, k + 1) == FirstAssigned(ts, k) + AssignedBelow(ts[k])
  {}

  /** Parameters a scope accepts: no name twice, and not the implicit `self` of a function. */
  predicate GoodParams(isFunc: bool, params: seq<ID>) {
    && (forall i, j | 0 <= i < j < |params| :: params[i] != params[j])
    && (isFunc ==> SELF !in params)
  }

  predicate GoodBlocks(events: seq<Event>)
    decreases events
  {
    forall e | e in events && e.BlockArg? :: GoodParams(false, e.params) && GoodBlocks(e.events)
  }

  /** The name an event registers in the table being scanned. */
  function Named(e: Event): set<ID> {
    if e.BlockArg? then {} else {e.name}
  }

  predicate Stores(e: Event) {
    e.Store? || e.Define?
  }

  /** The table after the scan: every name mentioned, with exactly the flags its mentions give it. */
  ghost predicate Scanned(now: map<ID, Var>, was: map<ID, Var>, events: seq<Event>) {
    && (forall n :: n in now <==> n in was || exists e :: e in events && n in Named(e))
    && (forall n | n in now ::
          && now[n].isAssigned ==
             ((n in was && was[n].isAssigned) || exists e :: e in events && n in Named(e) && Stores(e))
          && now[n].isNonlocal ==
             ((n in was && was[n].isNonlocal) || exists e :: e in events && n in Named(e) && e.DeclareNonlocal?)
          && now[n].param == (n in was && was[n].param))
  }

  /** The first variables of a table: a function has the implicit `self` before its parameters. */
  function Leading(ctx: Context, params: seq<ID>): seq<ID> {
    if ctx == Func then [SELF] + params else params
  }

  /** A table whose parameters, names and flags are those of a body; `inner` is assigned from the blocks below. */
  ghost predicate Stands(t: VarTable, params: seq<ID>, events: seq<Event>, inner: set<ID>)
    reads t`names, t`nparams, t`stored, t`declared
  {
    && t.nparams <= |t.names| && t.names[..t.nparams] == params
    && SetOf(t.names) == SetOf(params) + MentionedNames(events) + inner
    && t.stored == StoredNames(events) + inner && t.declared == DeclaredNames(events)
  }

  /** Names that the statements of a body store to, and those they declare nonlocal. */
  function StoredNames(events: seq<Event>): set<ID> {
    set e | e in events && Stores(e) :: e.name
  }

  function DeclaredNames(events: seq<Event>): set<ID> {
    set e | e in events && e.DeclareNonlocal? :: e.name
  }

  function MentionedNames(events: seq<Event>): set<ID> {
    set e | e in events && !e.BlockArg? :: e.name
  }

  function SetOf(names: seq<ID>): set<ID> {
    set n | n in names
  }

  /** Names stored to in the blocks of a body, at any depth, other than the parameters of those blocks. */
  function InnerStored(events: seq<Event>): set<ID> {
    if events == [] then {}
    else
      var e := events[|events| - 1];
      InnerStored(events[..|events| - 1]) +
      if e.BlockArg? then StoredNames(e.events) - SetOf(e.params) + InnerStored(e.events) else {}
  }

  /** The tables `ts` are those of the blocks among `events`, in order, all taken from `s`. */
  ghost predicate Matches(ts: seq<VarTable>, events: seq<Event>, s: set<VarTable>)
    reads s`inner, s`names, s`nparams, s`stored, s`declared
    decreases events
  {
    if events == [] then ts == []
    else
      var e, rest := events[|events| - 1], events[..|events| - 1];
      if e.BlockArg? then
        && ts != [] && ts[|ts| - 1] in s && Stands(ts[|ts| - 1], e.params, e.events, {})
        && Matches(ts[|ts| - 1].inner, e.events, s)
        && Matches(ts[..|ts| - 1], rest, s)
      else Matches(ts, rest, s)
  }

  lemma {:induction false} MatchesMore(ts: seq<VarTable>, events: seq<Event>, s: set<VarTable>, s': set<VarTable>)
    requires Matches(ts, events, s) && s <= s'
    ensures Matches(ts, events, s')
    decreases events
  {
    if events != [] {
      var e, rest := events[|events| - 1], events[..|events| - 1];
      if e.BlockArg? {
        MatchesMore(ts[|ts| - 1].inner, e.events, s, s');
        MatchesMore(ts[..|ts| - 1], rest, s, s');
      } else {
        MatchesMore(ts, rest, s, s');
      }
    }
  }

  function CountBlocks(events: seq<Event>): nat {
    if events == [] then 0 else CountBlocks(events[..|events| - 1]) + if events[|events| - 1].BlockArg? then 1 else 0
  }

  /** The table of the block at event `i` is found by counting the blocks before it. */
  lemma {:induction false} MatchAt(ts: seq<VarTable>, events: seq<Event>, s: set<VarTable>, i: nat)
    requires Matches(ts, events, s) && i < |events| && events[i].BlockArg?
    ensures CountBlocks(events[..i]) < |ts| && ts[CountBlocks(events[..i])] in s
    ensures Matches(ts[CountBlocks(events[..i])].inner, events[i].events, s)
    ensures Stands(ts[CountBlocks(events[..i])], events[i].params, events[i].events, {})
    decreases |events|
  {
    MatchCount(ts, events, s);
    var last := |events| - 1;
    var e, rest := events[last], events[..last];
    if i < last {
      assert rest[..i] == events[..i];
      MatchAt(if e.BlockArg? then ts[..|ts| - 1] else ts, rest, s, i);
    } else {
      MatchCount(ts[..|ts| - 1], rest, s);
    }
  }

  lemma {:induction false} MatchCount(ts: seq<VarTable>, events: seq<Event>, s: set<VarTable>)
    requires Matches(ts, events, s)
    ensures |ts| == CountBlocks(events)
    decreases |events|
  {
    if events != [] {
      var last := |events| - 1;
      MatchCount(if events[last].BlockArg? then ts[..|ts| - 1] else ts, events[..last], s);
    }
  }

  lemma CountNext(events: seq<Event>, i: nat)
    requires i < |events|
    ensures CountBlocks(events[..i + 1]) == CountBlocks(events[..i]) + if events[i].BlockArg? then 1 else 0
  {
    assert events[..i + 1][..i] == events[..i];
  }

  lemma ScannedNone(vars: map<ID, Var>)
    ensures Scanned(vars, vars, [])
  {}

  lemma ScannedNext(now: map<ID, Var>, mid: map<ID, Var>, was: map<ID, Var>, events: seq<Event>, e: Event)
    requires Scanned(mid, was, events)
    requires now.Keys == mid.Keys + Named(e)
    requires forall n | n in now && n !in Named(e) :: n in mid && now[n] == mid[n]
    requires forall n | n in Named(e) ::
      && now[n].isAssigned == (Stores(e) || (n in mid && mid[n].isAssigned))
      && now[n].isNonlocal == (e.DeclareNonlocal? || (n in mid && mid[n].isNonlocal))
      && now[n].param == (n in mid && mid[n].param)
    ensures Scanned(now, was, events + [e])
  {
    var all := events + [e];
    assert forall x :: x in all <==> x in events || x == e;
  }

  /** An event that names a variable of the table itself. */
  method ScanName(t: VarTable, e: Event)
    requires !e.BlockArg? && t.Registered()
    modifies t`vars, t`names
    ensures t.Registered() && t.nparams == old(t.nparams) && old(t.names) <= t.names
    ensures forall was, events | Scanned(old(t.vars), was, events) :: Scanned(t.vars, was, events + [e])
  {
    hide Scanned;
    match e {
      case Use(name) => t.Register(name, false, false);
      case Store(name) => t.Register(name, true, false);
      case DeclareNonlocal(name) => t.Register(name, false, true);
      case Define(name, _, _, _) => t.Register(name, true, false);
    }
    forall was, events | Scanned(old(t.vars), was, events)
      ensures Scanned(t.vars, was, events + [e])
    {
      ScannedNext(t.vars, old(t.vars), was, events, e);
    }
  }

  /** Every table of the tree has its variables in order, and those below are as noted. */
  ghost predicate AllRegistered(t: VarTable)
    reads t, t.repr
  {
    t.Registered() && forall u | u in t.repr - {t} :: u.Prepared()
  }

  /** A block argument: its table is made and linked below `t`; false when a parameter is duplicated. */
  method ScanBlock(t: VarTable, params: seq<ID>, body: seq<Event>, ghost events: seq<Event>) returns (ok: bool)
    requires t.Tree() && AllRegistered(t) && Matches(t.inner, events, t.repr - {t})
    modifies t`inner, t`repr
    ensures ok == (GoodParams(false, params) && GoodBlocks(body))
    ensures ok ==> t.Tree() && AllRegistered(t) && fresh(t.repr - old(t.repr)) && old(t.repr) <= t.repr
    ensures ok ==> Matches(t.inner, events + [BlockArg(params, body)], t.repr - {t})
    decreases body, 2
  {
    hide Matches, VarTable.Tree, AllRegistered, GoodParams, GoodBlocks;
    TreeFacts(t);
    var child := MakeVarTable(Block, params, body, t);
    if child == null {
      return false;
    }
    LinkBlock(t, child, events, BlockArg(params, body));
    return true;
  }

  /** VarTable_add_child for the finished table of a block. */
  method LinkBlock(t: VarTable, child: VarTable, ghost events: seq<Event>, ghost e: Event)
    requires t.Tree() && AllRegistered(t) && Matches(t.inner, events, t.repr - {t})
    requires child.Tree() && AllRegistered(child) && child.Noted() && t.repr !! child.repr
    requires child.ctx == Block && child.chain == [t] + t.chain
    requires e.BlockArg? && Matches(child.inner, e.events, child.repr - {child})
      && Stands(child, e.params, e.events, {})
    modifies t`inner, t`repr
    ensures t.Tree() && AllRegistered(t) && t.repr == old(t.repr) + child.repr
    ensures Matches(t.inner, events + [e], t.repr - {t})
  {
    hide Matches, VarTable.Tree, AllRegistered, Stands, VarTable.Noted;
    TreeFacts(t);
    TreeFacts(child);
    ghost var s, ts := t.repr - {t}, t.inner;
    LinkTable(t, child);
    MatchesMore(child.inner, e.events, child.repr - {child}, t.repr - {t});
    MatchesMore(ts, events, s, t.repr - {t});
    MatchesBlock(ts, child, events, e, t.repr - {t});
  }

  method LinkTable(t: VarTable, child: VarTable)
    requires t.Tree() && AllRegistered(t) && child.Tree() && AllRegistered(child) && child.Noted()
    requires t.repr !! child.repr && child.ctx == Block && child.chain == [t] + t.chain
    modifies t`inner, t`repr
    ensures t.Tree() && t.inner == old(t.inner) + [child] && t.repr == old(t.repr) + child.repr && AllRegistered(t)
  {
    hide VarTable.Tree, VarTable.Registered, VarTable.Noted;
    TreeFacts(child);
    ghost var was := t.repr;
    assert child.Prepared();
    t.AddChild(child);
    assert forall u | u in t.repr - {t} :: u in was - {t} || u == child || u in child.repr - {child};
  }

  lemma TreeFacts(t: VarTable)
    requires t.Tree()
    ensures t in t.repr && t.Linked()
  {}

  lemma MatchesBlock(ts: seq<VarTable>, child: VarTable, events: seq<Event>, e: Event, s: set<VarTable>)
    requires e.BlockArg? && child in s && Stands(child, e.params, e.events, {})
    requires Matches(ts, events, s) && Matches(child.inner, e.events, s)
    ensures Matches(ts + [child], events + [e], s)
  {
    assert (ts + [child])[..|ts|] == ts && (events + [e])[..|events|] == events;
  }

  lemma MatchesName(ts: seq<VarTable>, events: seq<Event>, e: Event, s: set<VarTable>)
    requires !e.BlockArg? && Matches(ts, events, s)
    ensures Matches(ts, events + [e], s)
  {
    assert (events + [e])[..|events|] == events;
  }

  lemma GoodNext(events: seq<Event>, i: nat)
    requires i < |events|
    ensures events[..i + 1] == events[..i] + [events[i]]
    ensures GoodBlocks(events[..i + 1]) <==>
      && GoodBlocks(events[..i])
      && (events[i].BlockArg? ==> GoodParams(false, events[i].params) && GoodBlocks(events[i].events))
    ensures GoodBlocks(events) ==> GoodBlocks(events[..i + 1])
  {
    hide GoodBlocks, GoodParams;
    assert events[..i + 1] == events[..i] + [events[i]];
    GoodAppend(events[..i], events[i]);
    if GoodBlocks(events) { GoodPrefix(events, i + 1); }
  }

  lemma GoodPrefix(events: seq<Event>, n: nat)
    requires n <= |events| && GoodBlocks(events)
    ensures GoodBlocks(events[..n])
  {
    hide GoodParams;
    forall e | e in events[..n] && e.BlockArg?
      ensures GoodParams(false, e.params) && GoodBlocks(e.events)
    {
      assert e in events;
    }
  }

  lemma GoodAppend(events: seq<Event>, e: Event)
    ensures GoodBlocks(events + [e]) <==>
      GoodBlocks(events) && (e.BlockArg? ==> GoodParams(false, e.params) && GoodBlocks(e.events))
  {
    forall x | x in events ensures x in events + [e] {}
    assert e in events + [e];
  }

  /** Scanning the statements of one body into its table, blocks becoming tables of their own. */
  method Scan(t: VarTable, events: seq<Event>) returns (ok: bool)
    requires t.Tree() && AllRegistered(t) && t.inner == []
    modifies t`inner, t`repr, t`vars, t`names
    ensures ok == GoodBlocks(events)
    ensures ok ==> t.Tree() && fresh(t.repr - old(t.repr)) && AllRegistered(t)
    ensures ok ==> Matches(t.inner, events, t.repr - {t}) && Scanned(t.vars, old(t.vars), events)
    ensures ok ==> t.nparams == old(t.nparams) && old(t.names) <= t.names
    decreases events, 0
  {
    hide Matches, Scanned, VarTable.Tree, GoodBlocks;
    ScannedNone(t.vars);
    MatchesNone(t);
    ghost var was := t.vars;
    for i := 0 to |events|
      invariant t.Tree() && fresh(t.repr - old(t.repr)) && AllRegistered(t)
      invariant Matches(t.inner, events[..i], t.repr - {t}) && Scanned(t.vars, was, events[..i])
      invariant t.nparams == old(t.nparams) && old(t.names) <= t.names
      invariant GoodBlocks(events[..i])
    {
      var e := events[i];
      GoodNext(events, i);
      if e.BlockArg? {
        var fine := ScanBlock(t, e.params, e.events, events[..i]);
        if !fine {
          return false;
        }
        ScannedBlock(t.vars, was, events[..i], e);
      } else {
        ScanName(t, e);
        MatchesName(t.inner, events[..i], e, t.repr - {t});
      }
    }
    assert events[..|events|] == events;
    return true;
  }

  lemma MatchesNone(t: VarTable)
    ensures Matches([], [], t.repr - {t}) && GoodBlocks([])
  {}

  lemma ScannedBlock(now: map<ID, Var>, was: map<ID, Var>, events: seq<Event>, e: Event)
    requires e.BlockArg? && Scanned(now, was, events)
    ensures Scanned(now, was, events + [e])
  {
    ScannedNext(now, now, was, events, e);
  }

  /** The flags say exactly what the mentions among `events` and in the blocks below (`inner`) say. */
  ghost predicate Flagged(vars: map<ID, Var>, events: seq<Event>, inner: set<ID>) {
    forall n | n in vars ::
      && vars[n].isAssigned == (n in StoredNames(events) + inner)
      && vars[n].isNonlocal == (n in DeclaredNames(events))
  }

  lemma FlaggedByScan(now: map<ID, Var>, was: map<ID, Var>, events: seq<Event>)
    requires Scanned(now, was, events) && forall n | n in was :: !was[n].isAssigned && !was[n].isNonlocal
    ensures Flagged(now, events, {})
  {}

  lemma NamesOf(t: VarTable)
    requires t.Registered()
    ensures t.vars.Keys == SetOf(t.names)
  {}

  lemma ScannedNames(t: VarTable, was: map<ID, Var>, params: seq<ID>, events: seq<Event>)
    requires t.Registered() && Scanned(t.vars, was, events) && was.Keys == SetOf(params)
    ensures SetOf(t.names) == SetOf(params) + MentionedNames(events) + {}
  {
    forall e | e in events && !e.BlockArg? ensures e.name in t.vars { assert e.name in Named(e); }
    forall n | n in t.vars && n !in was
      ensures n in MentionedNames(events)
    {
      var e :| e in events && n in Named(e);
    }
  }

  lemma FlaggedByBlocks(now: map<ID, Var>, was: map<ID, Var>, events: seq<Event>, inner: set<ID>)
    requires Flagged(was, events, {}) && Marked(now, was, inner)
    requires MentionedNames(events) <= was.Keys
    ensures Flagged(now, events, inner) && now.Keys == was.Keys + inner
  {}

  /** make_var_table: null for a duplicated parameter name, here or in a block below. */
  method MakeVarTable(ctx: Context, params: seq<ID>, events: seq<Event>, outer: VarTable?) returns (t: VarTable?)
    requires if outer == null then ctx == Pkg else ctx != Pkg && outer.Linked()
    ensures t != null <==> GoodParams(ctx == Func, params) && GoodBlocks(events)
    ensures t != null ==> fresh(t.repr) && t.Tree() && t.ctx == ctx && t.outer == outer
    ensures t != null ==> t.chain == (if outer == null then [] else [outer] + outer.chain)
    ensures t != null ==> AllRegistered(t) && t.Noted() && Matches(t.inner, events, t.repr - {t})
    ensures t != null ==> Stands(t, Leading(ctx, params), events, {}) && Flagged(t.vars, events, {})
    decreases events, 1
  {
    hide Matches, Scanned, VarTable.Tree, VarTable.Registered, Flagged, GoodParams, GoodBlocks, VarTable.Linked;
    var tbl := new VarTable(ctx, outer);
    var fine := RegisterParams(tbl, params);
    if !fine {
      return null;
    }
    ghost var head, was := tbl.names, tbl.vars;
    NamesOf(tbl);
    var ok := Scan(tbl, events);
    if !ok {
      return null;
    }
    FlaggedByScan(tbl.vars, was, events);
    ScannedNames(tbl, was, head, events);
    assert tbl.names[..tbl.nparams] == head;
    Note(tbl, Leading(ctx, params), events, {});
    return tbl;
  }

  /** Noting the flags of a scanned table. */
  ghost method Note(t: VarTable, params: seq<ID>, events: seq<Event>, inner: set<ID>)
    requires t.Tree() && AllRegistered(t) && Matches(t.inner, events, t.repr - {t}) && Flagged(t.vars, events, inner)
    requires t.nparams <= |t.names| && t.names[..t.nparams] == params
    requires SetOf(t.names) == SetOf(params) + MentionedNames(events) + inner
    modifies t`stored, t`declared
    ensures t.Tree() && AllRegistered(t) && t.Noted() && Matches(t.inner, events, t.repr - {t})
    ensures Stands(t, params, events, inner)
  {
    hide InOrder, Matches, VarTable.Tree, MentionedNames, SetOf, StoredNames, DeclaredNames;
    t.stored := StoredNames(events) + inner;
    t.declared := DeclaredNames(events);
  }

  /** What the flags of the tables say is assigned in blocks is what the body says. */
  lemma {:induction false} StoredBelow(ts: seq<VarTable>, events: seq<Event>, s: set<VarTable>)
    requires Matches(ts, events, s) && forall u | u in ts :: u.Tree() && u.repr <= s
    requires forall u | u in s :: u.Prepared()
    ensures FirstAssigned(ts, |ts|) == InnerStored(events)
    decreases events
  {
    if events != [] {
      var e, rest := events[|events| - 1], events[..|events| - 1];
      if e.BlockArg? {
        var u := ts[|ts| - 1];
        FirstPrefix(ts, |ts| - 1);
        StoredBelow(ts[..|ts| - 1], rest, s);
        u.EveryTable();
        StoredBelow(u.inner, e.events, s);
        AllAssigned(u);
        InnerWithOwn(u);
        OwnStored(u, e.params, e.events);
      } else {
        StoredBelow(ts, rest, s);
      }
    }
  }

  lemma OwnStored(u: VarTable, params: seq<ID>, events: seq<Event>)
    requires u.Registered() && u.Noted() && Stands(u, params, events, {})
    ensures AssignedNames(u) == StoredNames(events) - SetOf(params)
  {
    forall n | n in u.vars
      ensures u.vars[n].param <==> n in params
    {
      var i :| 0 <= i < |u.names| && u.names[i] == n;
      if u.vars[n].param { assert params[i] == n; }
    }
  }

  lemma {:induction false} FirstPrefix(ts: seq<VarTable>, k: nat)
    requires k <= |ts|
    ensures FirstAssigned(ts[..k], k) == FirstAssigned(ts, k)
    decreases k
  {
    if k > 0 {
      FirstPrefix(ts, k - 1);
      FirstPrefix(ts[..k], k - 1);
      assert ts[..k][..k - 1] == ts[..k - 1];
    }
  }

  /** make_var_table_of_func: what the blocks below assign to is assigned here. */
  method MakeVarTableOfFunc(ctx: Context, params: seq<ID>, events: seq<Event>, outer: VarTable?) returns (t: VarTable?)
    requires if outer == null then ctx == Pkg else ctx != Pkg && outer.Linked()
    ensures t != null <==> GoodParams(ctx == Func, params) && GoodBlocks(events)
    ensures t != null ==> fresh(t.repr) && t.Tree() && t.ctx == ctx && t.outer == outer
    ensures t != null ==> t.chain == (if outer == null then [] else [outer] + outer.chain)
    ensures t != null ==> AllRegistered(t) && t.Noted() && Matches(t.inner, events, t.repr - {t})
    ensures t != null ==> Stands(t, Leading(ctx, params), events, InnerStored(events))
  {
    hide Matches, VarTable.Tree, VarTable.Linked, GoodParams, GoodBlocks, Flagged, Marked, InOrder, Stands;
    t := MakeVarTable(ctx, params, events, outer);
    if t != null {
      TreeFacts(t);
      AssignFromBlocks(t, Leading(ctx, params), events);
    }
  }

  /** put_vars_assigned_in_block_to_top. */
  method AssignFromBlocks(t: VarTable, params: seq<ID>, events: seq<Event>)
    requires t.Tree() && AllRegistered(t) && Matches(t.inner, events, t.repr - {t})
    requires Stands(t, params, events, {}) && Flagged(t.vars, events, {})
    modifies t`vars, t`names, t`stored, t`declared
    ensures t.Tree() && AllRegistered(t) && t.Noted() && Matches(t.inner, events, t.repr - {t})
    ensures Stands(t, params, events, InnerStored(events))
  {
    hide Matches, VarTable.Tree, VarTable.Linked, Flagged, Marked, InOrder, MentionedNames, SetOf, StoredNames,
      DeclaredNames, InnerStored;
    TopFacts(t, events);
    ghost var was, names := t.vars, t.names;
    PutVarsAssignedInInnerScope(t, t);
    FlaggedByBlocks(t.vars, was, events, InnerStored(events));
    NamesOf(t);
    assert SetOf(t.names) == SetOf(params) + MentionedNames(events) + InnerStored(events);
    assert t.names[..t.nparams] == names[..t.nparams];
    Note(t, params, events, InnerStored(events));
  }

  lemma TopFacts(t: VarTable, events: seq<Event>)
    requires t.Tree() && AllRegistered(t) && Matches(t.inner, events, t.repr - {t})
    ensures InnerAssigned(t) == InnerStored(events) && t.vars.Keys == SetOf(t.names)
  {
    NamesOf(t);
    t.EveryTable();
    AllAssigned(t);
    forall u | u in t.inner
      ensures u.Tree() && u.repr <= t.repr - {t}
    {
      var i :| 0 <= i < |t.inner| && t.inner[i] == u;
    }
    StoredBelow(t.inner, events, t.repr - {t});
  }

  /** register_self for a function, then register_params; false for a duplicate. */
  method RegisterParams(tbl: VarTable, params: seq<ID>) returns (ok: bool)
    requires tbl.Registered() && tbl.names == [] && tbl.nparams == 0
    modifies tbl`vars, tbl`names, tbl`nparams
    ensures ok ==> forall n | n in tbl.vars :: !tbl.vars[n].isAssigned && !tbl.vars[n].isNonlocal
    ensures ok == GoodParams(tbl.ctx == Func, params)
    ensures ok ==> tbl.Registered() && tbl.nparams == |tbl.names| && tbl.names == Leading(tbl.ctx, params)
  {
    hide VarTable.Registered, GoodParams;
    NameKnown(tbl, SELF);
    NoNames(tbl);
    NoParams(tbl.ctx == Func);
    if tbl.ctx == Func {
      tbl.RegisterParam(SELF);
    }
    for i := 0 to |params|
      invariant tbl.Registered() && tbl.nparams == |tbl.names|
      invariant tbl.names == Leading(tbl.ctx, params[..i])
      invariant GoodParams(tbl.ctx == Func, params[..i])
      invariant forall n | n in tbl.vars :: !tbl.vars[n].isAssigned && !tbl.vars[n].isNonlocal
    {
      GoodParam(tbl.ctx == Func, params, i);
      NameKnown(tbl, params[i]);
      if params[i] in tbl.vars {
        return false;
      }
      tbl.RegisterParam(params[i]);
    }
    assert params[..|params|] == params;
    return true;
  }

  lemma NoParams(isFunc: bool)
    ensures GoodParams(isFunc, [])
  {}

  lemma NoNames(t: VarTable)
    requires t.Registered() && t.names == []
    ensures t.vars == map[]
  {}

  lemma NameKnown(t: VarTable, name: ID)
    requires t.Registered()
    ensures name in t.vars <==> name in t.names
  {}

  lemma GoodParam(isFunc: bool, params: seq<ID>, i: nat)
    requires i < |params| && GoodParams(isFunc, params[..i])
    ensures GoodParams(isFunc, params[..i + 1]) <==> params[i] !in (if isFunc then [SELF] else []) + params[..i]
    ensures GoodParams(isFunc, params) ==> GoodParams(isFunc, params[..i + 1])
    ensures params[..i + 1] == params[..i] + [params[i]]
  {
    if params[i] in params[..i] {
      var j :| 0 <= j < i && params[..i][j] == params[i];
      assert params[..i + 1][j] == params[..i + 1][i];
    }
  }
}
