/**
 * Runs of the machine: however bodies are entered, called and left, every nonlocal variable of every frame in
 * use is reached, up to the first class body.
 */
module DisplayRuns {
  import opened Scopes
  import opened ScopeCompiler
  import opened CodeObjects
  import opened Display

  /** What a program can do next; bodies and functions are given by their number. */
  datatype Step =
    | Package(code: Code, stackSize: nat)
    | ClassBody(child: nat, stackSize: nat)
    | MakeOne(child: nat)
    | CallOne(function_: nat, stackSize: nat)
    | Leave
    | StoreLocal(index: nat, n: int)
    | StoreNonlocal(name: ID, n: int)

  /** Packages are what the compiler makes of a package body. */
  ghost predicate Runnable(s: Step) {
    s.Package? ==> s.code.ctx == Pkg && Lexical(s.code, [])
  }

  /** The variable is displayed at its level and slot exactly if no class body lies strictly between. */
  ghost predicate Reached(f: Frame, frames: set<Frame>, name: ID)
    requires name in f.code.vars && f.code.vars[name].kind.Nonlocal?
    reads f, frames
  {
    var k := f.code.vars[name].kind;
    && f.LaidOut() && 1 <= k.level <= f.outerFramesNum && k.level <= |f.scopes|
    && (if OnlyFunctions(f.scopes, k.level - 1) then
          exists g | g in frames ::
            && f.OuterFrames(k.level - 1) == Outer(g) && ScopeOf(g.code) == f.scopes[k.level - 1]
            && Holds(ScopeOf(g.code), name, k.slot)
        else f.OuterFrames(k.level - 1) == Undef)
  }

  ghost predicate AllReached(frames: set<Frame>)
    reads frames
  {
    forall f, name | f in frames && Indexed(f.code.ctx) && name in f.code.vars && f.code.vars[name].kind.Nonlocal? ::
      Reached(f, frames, name)
  }

  lemma ValidReaches(m: Machine)
    requires m.Valid()
    ensures AllReached(m.frames)
  {
    forall f, name | f in m.frames && Indexed(f.code.ctx) && name in f.code.vars && f.code.vars[name].kind.Nonlocal?
      ensures Reached(f, m.frames, name)
    {
      NonlocalReaches(f, m.frames, name);
    }
  }

  /** A body that has been entered: its code, the bodies around it by number, nearest first, and its locals. */
  datatype Activation = Activation(code: Code, around: seq<nat>, locals: seq<Value>)

  datatype Closure = Closure(code: Code, outer: nat)

  /** A run without frames: every body ever entered, the numbers of the running ones, and the functions made. */
  datatype World = World(bodies: seq<Activation>, stack: seq<nat>, functions: seq<Closure>)

  predicate Runs(w: World) {
    w.stack != [] && w.stack[|w.stack| - 1] < |w.bodies|
  }

  function Top(w: World): Activation
    requires Runs(w)
  {
    w.bodies[w.stack[|w.stack| - 1]]
  }

  function Entered(w: World, code: Code, around: seq<nat>): World {
    World(w.bodies + [Activation(code, around, seq(LocalsNum(code), i => Undef))], w.stack + [|w.bodies|], w.functions)
  }

  predicate HasChild(w: World, child: nat) {
    Runs(w) && child < |Top(w).code.children|
  }

  /** The body and the local a step stores in, if it can: its own, or those of a body around it by level and slot. */
  function Target(w: World, s: Step): Option<(nat, nat)> {
    if !Runs(w) || !Indexed(Top(w).code.ctx) then None
    else
      var top, body := w.stack[|w.stack| - 1], Top(w);
      match s
      case StoreLocal(index, _) => if index < |body.code.locals| then Some((top, index)) else None
      case StoreNonlocal(name, _) =>
        if name in body.code.vars && body.code.vars[name].kind.Nonlocal? then
          var k := body.code.vars[name].kind;
          if 1 <= k.level <= |body.around| then Some((body.around[k.level - 1], k.slot)) else None
        else None
      case _ => None
  }

  /** What a step means. */
  function Next(w: World, s: Step): World {
    match s
    case Package(code, _) => Entered(w, code, [])
    case ClassBody(child, _) =>
      if HasChild(w, child) && Top(w).code.children[child].ctx == Class then Entered(w, Top(w).code.children[child], [])
      else w
    case MakeOne(child) =>
      if HasChild(w, child) && Indexed(Top(w).code.children[child].ctx) then
        w.(functions := w.functions + [Closure(Top(w).code.children[child], w.stack[|w.stack| - 1])])
      else w
    case CallOne(k, _) =>
      if k < |w.functions| && w.functions[k].outer < |w.bodies| then
        var f := w.functions[k];
        Entered(w, f.code, [f.outer] + w.bodies[f.outer].around)
      else w
    case Leave => if w.stack != [] then w.(stack := w.stack[..|w.stack| - 1]) else w
    case _ =>
      match Target(w, s)
      case Some((g, i)) =>
        if g < |w.bodies| && Indexed(w.bodies[g].code.ctx) && i < |w.bodies[g].locals| then
          w.(bodies := w.bodies[g := w.bodies[g].(locals := w.bodies[g].locals[i := Data(s.n)])])
        else w
      case None => w
  }

  function After(w: World, steps: seq<Step>): World {
    if steps == [] then w else Next(After(w, steps[..|steps| - 1]), steps[|steps| - 1])
  }

  /** The frames of the bodies numbered `ks`. */
  ghost predicate Numbered(fs: seq<Frame>, ks: seq<nat>, ids: seq<Frame?>) {
    |fs| == |ks| && forall j | 0 <= j < |ks| :: ks[j] < |ids| && ids[ks[j]] == fs[j]
  }

  /** The frame holds what the body does. */
  ghost predicate Holding(f: Frame, body: Activation, ids: seq<Frame?>)
    reads f`code, f`around, f`slots, f`stackCapacity, f`localsNum
  {
    HoldingIn(f, f.slots, body, ids)
  }

  ghost predicate HoldingIn(f: Frame, slots: seq<Value>, body: Activation, ids: seq<Frame?>)
    reads f`code, f`around, f`stackCapacity, f`localsNum
  {
    && f.code == body.code && Numbered(f.around, body.around, ids)
    && f.stackCapacity + f.localsNum <= |slots|
    && body.locals == slots[f.stackCapacity..f.stackCapacity + f.localsNum]
  }

  ghost predicate Closures(fs: seq<Function>, cs: seq<Closure>, ids: seq<Frame?>) {
    && |fs| == |cs|
    && forall i | 0 <= i < |cs| ::
         cs[i].outer < |ids| && ids[cs[i].outer] == fs[i].outerFrame && cs[i].code == fs[i].code
  }

  /** `ids` has the frame of each body, or null once it may be used again. */
  ghost predicate Shown(stack: seq<Frame>, frames: set<Frame>, fs: seq<Function>, w: World, ids: seq<Frame?>)
    reads ids
  {
    && |ids| == |w.bodies| && Numbered(stack, w.stack, ids) && Closures(fs, w.functions, ids)
    && (forall i | 0 <= i < |ids| && ids[i] != null :: ids[i] in frames && Holding(ids[i], w.bodies[i], ids))
    && (forall i, j | 0 <= i < j < |ids| && ids[i] != null :: ids[i] != ids[j])
  }

  /** The machine shows a run without frames: the running bodies, their surroundings and their locals are the same. */
  ghost predicate Shows(m: Machine, fs: seq<Function>, w: World, ids: seq<Frame?>)
    reads m, ids
  {
    Shown(m.stack, m.frames, fs, w, ids)
  }

  lemma TopShown(m: Machine, fs: seq<Function>, w: World, ids: seq<Frame?>)
    requires Shows(m, fs, w, ids)
    ensures |w.stack| == |m.stack| && |w.functions| == |fs| && |ids| == |w.bodies|
    ensures m.stack != [] ==>
      && Runs(w) && ids[w.stack[|w.stack| - 1]] == m.Current() && Top(w).code == m.Current().code
      && Holding(m.Current(), Top(w), ids)
  {}

  lemma NumberedMore(fs: seq<Frame>, ks: seq<nat>, ids: seq<Frame?>, f: Frame)
    requires Numbered(fs, ks, ids)
    ensures Numbered(fs, ks, ids + [f])
  {}

  /** One more body entered. */
  lemma OneEntered(m: Machine, was: seq<Frame>, fs: seq<Function>, w: World, ids: seq<Frame?>, frame: Frame,
                   around: seq<nat>)
    requires Shown(was, m.frames - {frame}, fs, w, ids) && frame in m.frames && m.stack == was + [frame]
    requires Numbered(frame.around, around, ids) && frame.localsNum == LocalsNum(frame.code) && frame.Empty()
    ensures Shows(m, fs, Entered(w, frame.code, around), ids + [frame])
  {
    var now, v := ids + [frame], Entered(w, frame.code, around);
    assert v.bodies[|ids|].locals == frame.slots[frame.stackCapacity..frame.stackCapacity + frame.localsNum];
    NumberedMore(frame.around, around, ids, frame);
    forall i | 0 <= i < |now| && now[i] != null
      ensures now[i] in m.frames && Holding(now[i], v.bodies[i], now)
    {
      if i < |ids| { NumberedMore(ids[i].around, w.bodies[i].around, ids, frame); }
    }
  }

  /** What a step that is possible does to the stack and the functions. */
  twostate predicate Did(m: Machine, fs: seq<Function>, s: Step, new now: seq<Function>)
    reads *
  {
    match s
    case Package(code, stackSize) => Grown(m, code, [], stackSize) && now == fs
    case ClassBody(child, stackSize) =>
      now == fs &&
      if old(HasBody(m, child)) && old(m.Current().code.children)[child].ctx == Class then
        Grown(m, old(m.Current().code.children)[child], [], stackSize)
      else m.stack == old(m.stack)
    case MakeOne(child) =>
      m.stack == old(m.stack) &&
      if old(HasBody(m, child)) && old(m.Current().code.children)[child].ctx in {Func, Block} then
        && |now| == |fs| + 1 && now[..|fs|] == fs && now[|fs|].outerFrame == m.Current() && m.Current().usedByFunc
        && now[|fs|].code == old(m.Current().code.children)[child]
      else now == fs
    case CallOne(k, stackSize) =>
      now == fs &&
      if k < |fs| then Grown(m, fs[k].code, [fs[k].outerFrame] + old(fs[k].outerFrame.around), stackSize)
      else m.stack == old(m.stack)
    case Leave => now == fs && m.stack == if old(m.stack) == [] then [] else old(m.stack)[..|old(m.stack)| - 1]
    case StoreLocal(index, n) =>
      && now == fs && m.stack == old(m.stack)
      && (m.stack != [] && Indexed(m.Current().code.ctx) && index < |m.Current().code.locals| ==>
            Has(m.Current(), index, n))
    case StoreNonlocal(name, n) =>
      && now == fs && m.stack == old(m.stack)
      && (m.stack != [] && Indexed(m.Current().code.ctx) && name in m.Current().code.vars ==>
            var k := m.Current().code.vars[name].kind;
            k.Nonlocal? && 1 <= k.level <= |m.Current().around| && Indexed(m.Current().around[k.level - 1].code.ctx) ==>
              Has(m.Current().around[k.level - 1], k.slot, n))
  }

  /** The local at the index has the value. */
  ghost predicate Has(f: Frame, index: nat, n: int)
    reads f
  {
    f.stackCapacity + index < |f.slots| && f.slots[f.stackCapacity + index] == Data(n)
  }

  /** The running body has a body with this number in it. */
  predicate HasBody(m: Machine, child: nat)
    reads m, m.stack
  {
    m.stack != [] && child < |m.Current().code.children|
  }

  /** The stack has one frame more, for this body and with this around it. */
  twostate predicate Grown(m: Machine, code: Code, around: seq<Frame>, stackSize: nat)
    reads *
  {
    && |m.stack| == |old(m.stack)| + 1 && m.stack[..|old(m.stack)|] == old(m.stack)
    && m.Current().code == code && m.Current().around == around && m.Current().stackCapacity == stackSize
  }

  /** A package entered. */
  method EnterPackage(m: Machine, fs: seq<Function>, code: Code, stackSize: nat, ghost w: World, ghost ids: seq<Frame?>)
    requires m.Valid() && code.ctx == Pkg && Lexical(code, [])
    requires (forall f | f in fs :: f in m.functions) && Shows(m, fs, w, ids)
    modifies m.Repr()
    ensures m.Valid() && fresh(m.Repr() - old(m.Repr())) && m.functions == old(m.functions)
    ensures m.stack != [] && Grown(m, code, [], stackSize)
    ensures Shows(m, fs, Next(w, Package(code, stackSize)), ids + [m.Current()])
  {
    hide Machine.Valid, Lexical, Holding;
    m.PoolApart();
    ghost var was := m.stack;
    m.EvalPackage(code, stackSize);
    OneEntered(m, was, fs, w, ids, m.Current(), []);
  }

  /** A class or module body entered. */
  method EnterBody(m: Machine, fs: seq<Function>, child: nat, stackSize: nat, ghost w: World, ghost ids: seq<Frame?>)
    requires m.Valid() && HasBody(m, child) && m.Current().code.children[child].ctx == Class
    requires (forall f | f in fs :: f in m.functions) && Shows(m, fs, w, ids)
    modifies m.Repr()
    ensures m.Valid() && fresh(m.Repr() - old(m.Repr())) && m.functions == old(m.functions)
    ensures m.stack != [] && Grown(m, old(m.Current().code.children)[child], [], stackSize)
    ensures Shows(m, fs, Next(w, ClassBody(child, stackSize)), ids + [m.Current()])
  {
    hide Machine.Valid, Lexical, Holding;
    m.PoolApart();
    TopShown(m, fs, w, ids);
    ghost var was := m.stack;
    m.EnterClass(m.Current().code.children[child], stackSize);
    OneEntered(m, was, fs, w, ids, m.Current(), []);
  }

  /** A function made. */
  method Make(m: Machine, fs: seq<Function>, child: nat, ghost w: World, ghost ids: seq<Frame?>)
    returns (now: seq<Function>)
    requires m.Valid() && HasBody(m, child) && Indexed(m.Current().code.children[child].ctx)
    requires (forall f | f in fs :: f in m.functions) && Shows(m, fs, w, ids)
    modifies m.Repr()
    ensures m.Valid() && fresh(m.Repr() - old(m.Repr())) && m.stack == old(m.stack)
    ensures Shows(m, now, Next(w, MakeOne(child)), ids) && forall f | f in now :: f in m.functions
    ensures |now| == |fs| + 1 && now[..|fs|] == fs && now[|fs|].outerFrame == m.Current() && m.Current().usedByFunc
    ensures now[|fs|].code == old(m.Current().code.children)[child]
  {
    hide Machine.Valid, Lexical, Holding;
    TopShown(m, fs, w, ids);
    m.Running();
    var f := m.MakeFunction(m.Current().code.children[child]);
    now := fs + [f];
  }

  /** A function called. */
  method CallKnown(m: Machine, fs: seq<Function>, k: nat, stackSize: nat, ghost w: World, ghost ids: seq<Frame?>)
    requires m.Valid() && k < |fs| && (forall f | f in fs :: f in m.functions) && Shows(m, fs, w, ids)
    modifies m.Repr()
    ensures m.Valid() && fresh(m.Repr() - old(m.Repr())) && m.functions == old(m.functions)
    ensures m.stack != [] && Grown(m, fs[k].code, [fs[k].outerFrame] + old(fs[k].outerFrame.around), stackSize)
    ensures Shows(m, fs, Next(w, CallOne(k, stackSize)), ids + [m.Current()])
  {
    hide Machine.Valid, Frame.Valid, Lexical, Holding, Frame.Empty;
    m.PoolApart();
    TopShown(m, fs, w, ids);
    Surroundings(m, fs, k, w, ids);
    ghost var was := m.stack;
    ghost var o := w.functions[k].outer;
    m.Call(fs[k], stackSize);
    OneEntered(m, was, fs, w, ids, m.Current(), [o] + w.bodies[o].around);
  }

  /** What will be around the body of a function. */
  lemma Surroundings(m: Machine, fs: seq<Function>, k: nat, w: World, ids: seq<Frame?>)
    requires m.Valid() && k < |fs| && (forall f | f in fs :: f in m.functions) && Shows(m, fs, w, ids)
    ensures Indexed(fs[k].code.ctx) && k < |w.functions| && w.functions[k].outer < |w.bodies|
    ensures var o := w.functions[k].outer;
      Numbered([fs[k].outerFrame] + fs[k].outerFrame.around, [o] + w.bodies[o].around, ids)
  {
    hide Frame.Valid, Lexical;
    assert fs[k] in m.functions;
    var o := w.functions[k].outer;
    assert Holding(ids[o], w.bodies[o], ids);
  }

  /** The running body left. */
  method LeaveBody(m: Machine, fs: seq<Function>, ghost w: World, ghost ids: seq<Frame?>)
    returns (ghost left: seq<Frame?>)
    requires m.Valid() && m.stack != [] && (forall f | f in fs :: f in m.functions) && Shows(m, fs, w, ids)
    modifies m.Repr()
    ensures m.Valid() && m.Repr() <= old(m.Repr()) && m.functions == old(m.functions)
    ensures Shows(m, fs, Next(w, Leave), left) && m.stack == old(m.stack)[..|old(m.stack)| - 1]
  {
    hide Machine.Valid, Lexical, Holding;
    TopShown(m, fs, w, ids);
    m.Running();
    var frame := m.Current();
    left := if frame.usedByFunc then ids else ids[w.stack[|w.stack| - 1] := null];
    if !frame.usedByFunc { Unneeded(m, fs, w, ids); }
    ghost var frames := if frame.usedByFunc then m.frames else m.frames - {frame};
    assert Shown(m.stack[..|m.stack| - 1], frames, fs, Next(w, Leave), left);
    m.Return();
  }

  /** A frame that no function keeps is not around any body, and no function made needs it. */
  lemma Unneeded(m: Machine, fs: seq<Function>, w: World, ids: seq<Frame?>)
    requires m.Valid() && m.stack != [] && (forall f | f in fs :: f in m.functions) && Shows(m, fs, w, ids)
    requires !m.Current().usedByFunc
    ensures var k := w.stack[|w.stack| - 1];
      Shown(m.stack[..|m.stack| - 1], m.frames - {m.Current()}, fs, Next(w, Leave), ids[k := null])
  {
    hide Lexical, Frame.Displays, Frame.Surrounded, Frame.Compiled, Frame.Clean;
    TopShown(m, fs, w, ids);
    m.Running();
    var top, k := m.Current(), w.stack[|w.stack| - 1];
    var left, v := ids[k := null], Next(w, Leave);
    assert Numbered(m.stack[..|m.stack| - 1], v.stack, left);
    assert Closures(fs, v.functions, left) by {
      forall i | 0 <= i < |fs|
        ensures fs[i].outerFrame != top
      {
        assert fs[i] in m.functions;
      }
    }
    forall i | 0 <= i < |left| && left[i] != null
      ensures left[i] in m.frames - {top} && Holding(left[i], v.bodies[i], left)
    {
      assert ids[i].Valid(m.frames) && Holding(ids[i], w.bodies[i], ids);
    }
  }

  /** The value stored in a local of the body numbered `g`. */
  function Assigned(w: World, g: nat, i: nat, n: int): World
    requires g < |w.bodies| && i < |w.bodies[g].locals|
  {
    w.(bodies := w.bodies[g := w.bodies[g].(locals := w.bodies[g].locals[i := Data(n)])])
  }

  /** One slot of one frame stored in: `slots` is what it had before, and all other frames are as they were. */
  lemma OneStored(m: Machine, fs: seq<Function>, w: World, ids: seq<Frame?>, g: nat, i: nat, n: int, slots: seq<Value>)
    requires g < |ids| == |w.bodies| && Numbered(m.stack, w.stack, ids) && Closures(fs, w.functions, ids)
    requires forall j | 0 <= j < |ids| && ids[j] != null ::
      ids[j] in m.frames && (j != g ==> Holding(ids[j], w.bodies[j], ids))
    requires forall j, k | 0 <= j < k < |ids| && ids[j] != null :: ids[j] != ids[k]
    requires ids[g] != null && HoldingIn(ids[g], slots, w.bodies[g], ids) && i < |w.bodies[g].locals|
    requires var f := ids[g]; f.stackCapacity + i < |slots| && f.slots == slots[f.stackCapacity + i := Data(n)]
    ensures Shows(m, fs, Assigned(w, g, i, n), ids)
  {
    var f, v := ids[g], Assigned(w, g, i, n);
    assert v.bodies[g].locals == f.slots[f.stackCapacity..f.stackCapacity + f.localsNum];
    assert Holding(f, v.bodies[g], ids);
  }

  /** A local stored in. */
  method AssignLocal(m: Machine, fs: seq<Function>, index: nat, n: int, ghost w: World, ghost ids: seq<Frame?>)
    requires m.Valid() && m.stack != [] && Indexed(m.Current().code.ctx) && index < |m.Current().code.locals|
    requires Shows(m, fs, w, ids)
    modifies m.frames`slots
    ensures m.Valid() && Shows(m, fs, Next(w, StoreLocal(index, n)), ids) && Has(m.Current(), index, n)
  {
    hide Machine.Valid, Frame.Valid, HoldingIn;
    TopShown(m, fs, w, ids);
    m.Running();
    TopRoom(m, fs, w, ids);
    ghost var slots := m.Current().slots;
    m.StoreLocalIndex(index, n);
    OneStored(m, fs, w, ids, w.stack[|w.stack| - 1], index, n, slots);
  }

  /** A nonlocal variable of a function or block stored in, as the instruction compiled for it does. */
  method AssignNonlocal(m: Machine, fs: seq<Function>, name: ID, n: int, ghost w: World, ghost ids: seq<Frame?>)
    requires m.Valid() && m.stack != [] && Indexed(m.Current().code.ctx)
    requires name in m.Current().code.vars && m.Current().code.vars[name].kind.Nonlocal?
    requires Shows(m, fs, w, ids)
    modifies m.frames`slots
    ensures m.Valid() && Shows(m, fs, Next(w, StoreNonlocal(name, n)), ids)
    ensures var k := m.Current().code.vars[name].kind;
      1 <= k.level <= |m.Current().around| && Indexed(m.Current().around[k.level - 1].code.ctx) ==>
        Has(m.Current().around[k.level - 1], k.slot, n)
  {
    hide Machine.Valid, Frame.Valid, HoldingIn, Target;
    TopShown(m, fs, w, ids);
    m.Running();
    var k := m.Current().code.vars[name].kind;
    SlotFits(m, m.Current(), name);
    TargetShown(m, fs, name, n, w, ids);
    var v := m.GetOuterFrame(k.level);
    if v.Outer? && Indexed(v.frame.code.ctx) {
      ghost var slots := v.frame.slots;
      m.StoreNonlocalIndex(k.level, k.slot, n);
      OneStored(m, fs, w, ids, Top(w).around[k.level - 1], k.slot, n, slots);
    }
  }

  lemma TopRoom(m: Machine, fs: seq<Function>, w: World, ids: seq<Frame?>)
    requires m.Valid() && m.stack != [] && Indexed(m.Current().code.ctx) && Shows(m, fs, w, ids)
    ensures Runs(w) && |Top(w).locals| == |m.Current().code.locals|
  {
    m.Running();
    TopShown(m, fs, w, ids);
  }

  /** The frame displayed for a nonlocal variable is that of the body to store in. */
  lemma TargetShown(m: Machine, fs: seq<Function>, name: ID, n: int, w: World, ids: seq<Frame?>)
    requires m.Valid() && m.stack != [] && Indexed(m.Current().code.ctx) && Shows(m, fs, w, ids)
    requires name in m.Current().code.vars && m.Current().code.vars[name].kind.Nonlocal?
    ensures Runs(w) && |Top(w).around| == |m.Current().around|
    ensures var cur, k := m.Current(), m.Current().code.vars[name].kind;
      if 1 <= k.level <= |cur.around| then
        var g := Top(w).around[k.level - 1];
        && Target(w, StoreNonlocal(name, n)) == Some((g, k.slot))
        && g < |ids| && ids[g] == cur.around[k.level - 1] && w.bodies[g].code == ids[g].code
        && (Indexed(ids[g].code.ctx) ==> k.slot < |w.bodies[g].locals|)
      else Target(w, StoreNonlocal(name, n)) == None
  {
    hide Machine.Valid, Frame.Valid;
    m.Running();
    TopShown(m, fs, w, ids);
    var cur, k := m.Current(), m.Current().code.vars[name].kind;
    SlotFits(m, cur, name);
    if 1 <= k.level <= |cur.around| {
      var g := Top(w).around[k.level - 1];
      assert Holding(ids[g], w.bodies[g], ids);
      if Indexed(ids[g].code.ctx) { Room(m, ids[g]); }
    }
  }

  lemma Room(m: Machine, f: Frame)
    requires m.Valid() && f in m.frames && Indexed(f.code.ctx)
    ensures f.localsNum == |f.code.locals|
  {
    hide Lexical;
  }

  /** A nonlocal variable of a function or block read: the value the body around it has. */
  method LoadName(m: Machine, fs: seq<Function>, name: ID, ghost w: World, ghost ids: seq<Frame?>) returns (v: Value)
    requires m.Valid() && m.stack != [] && name in m.Current().code.vars && m.Current().code.vars[name].kind.Nonlocal?
    requires Shows(m, fs, w, ids)
    requires Target(w, StoreNonlocal(name, 0)).Some?
    requires var g := Target(w, StoreNonlocal(name, 0)).value.0; g < |w.bodies| && Indexed(w.bodies[g].code.ctx)
    ensures var (g, i) := Target(w, StoreNonlocal(name, 0)).value;
      i < |w.bodies[g].locals| && v == w.bodies[g].locals[i]
  {
    hide Machine.Valid, Frame.Valid;
    TopShown(m, fs, w, ids);
    m.Running();
    var cur := m.Current();
    var k := cur.code.vars[name].kind;
    SlotFits(m, cur, name);
    ghost var g := Top(w).around[k.level - 1];
    assert Holding(ids[g], w.bodies[g], ids);
    v := m.LoadNonlocalIndex(k.level, k.slot);
  }

  /** One step, done where it is possible and left out where it is not, as in the run without frames. */
  method Do(m: Machine, fs: seq<Function>, s: Step, ghost w: World, ghost ids: seq<Frame?>)
    returns (now: seq<Function>, ghost frames: seq<Frame?>)
    requires m.Valid() && Runnable(s) && (forall f | f in fs :: f in m.functions) && Shows(m, fs, w, ids)
    modifies m.Repr()
    ensures m.Valid() && fresh(m.Repr() - old(m.Repr())) && forall f | f in now :: f in m.functions
    ensures Shows(m, now, Next(w, s), frames) && Did(m, fs, s, now)
  {
    hide Machine.Valid, Lexical, Holding;
    now, frames := fs, ids;
    TopShown(m, fs, w, ids);
    match s
    case Package(code, stackSize) =>
      EnterPackage(m, fs, code, stackSize, w, ids);
      frames := ids + [m.Current()];
    case ClassBody(child, stackSize) =>
      if m.stack != [] && child < |m.Current().code.children| && m.Current().code.children[child].ctx == Class {
        EnterBody(m, fs, child, stackSize, w, ids);
        frames := ids + [m.Current()];
      }
    case MakeOne(child) =>
      if m.stack != [] && child < |m.Current().code.children| && Indexed(m.Current().code.children[child].ctx) {
        now := Make(m, fs, child, w, ids);
      }
    case CallOne(k, stackSize) =>
      if k < |fs| {
        CallKnown(m, fs, k, stackSize, w, ids);
        frames := ids + [m.Current()];
      }
    case Leave =>
      if m.stack != [] {
        frames := LeaveBody(m, fs, w, ids);
      }
    case StoreLocal(index, n) =>
      if m.stack != [] && Indexed(m.Current().code.ctx) && index < |m.Current().code.locals| {
        AssignLocal(m, fs, index, n, w, ids);
      }
    case StoreNonlocal(name, n) =>
      if m.stack != [] && Indexed(m.Current().code.ctx) && name in m.Current().code.vars
        && m.Current().code.vars[name].kind.Nonlocal?
      {
        AssignNonlocal(m, fs, name, n, w, ids);
      }
  }

  /** The slot is one of the locals of the frame displayed. */
  lemma SlotFits(m: Machine, f: Frame, name: ID)
    requires m.Valid() && f in m.frames && Indexed(f.code.ctx) && name in f.code.vars
      && f.code.vars[name].kind.Nonlocal?
    ensures var k := f.code.vars[name].kind;
      && 1 <= k.level <= f.code.outerSize
      && (k.level <= |f.around| ==> f.around[k.level - 1] in m.frames)
      && (k.level <= |f.around| && Indexed(f.around[k.level - 1].code.ctx)
        ==> k.slot < |f.around[k.level - 1].code.locals|)
  {
    hide Frame.Displays, Lexical;
    var k := f.code.vars[name].kind;
    LexicalFacts(f.code, f.scopes);
    if k.level <= |f.around| {
      var g := f.around[k.level - 1];
      m.AroundUsed(f, k.level);
      if Indexed(g.code.ctx) { HoldsFits(g, f.scopes[k.level - 1], name, k.slot); }
    }
  }

  lemma HoldsFits(g: Frame, o: Scope, name: ID, slot: nat)
    requires Lexical(g.code, g.scopes) && o == ScopeOf(g.code) && Indexed(g.code.ctx) && Holds(o, name, slot)
    ensures slot < |g.code.locals|
  {}

  /**
   * Any run that begins as some run without frames does. The machine stays valid and every frame in use reaches its
   * variables; and frames, displays and their use again show what the run without frames means: which bodies run,
   * what is around each, and the value of every local.
   */
  method Follow(m: Machine, known: seq<Function>, steps: seq<Step>, ghost w: World, ghost ids: seq<Frame?>)
    returns (functions: seq<Function>, ghost frames: seq<Frame?>)
    requires m.Valid() && (forall f | f in known :: f in m.functions) && forall s | s in steps :: Runnable(s)
    requires Shows(m, known, w, ids)
    modifies m.Repr()
    ensures m.Valid() && fresh(m.Repr() - old(m.Repr())) && AllReached(m.frames)
    ensures (forall f | f in functions :: f in m.functions) && Shows(m, functions, After(w, steps), frames)
  {
    hide Machine.Valid, Runnable, AllReached, Next, Shows;
    functions, frames := known, ids;
    assert steps[..0] == [];
    for i := 0 to |steps|
      invariant m.Valid() && fresh(m.Repr() - old(m.Repr())) && forall f | f in functions :: f in m.functions
      invariant Shows(m, functions, After(w, steps[..i]), frames)
    {
      functions, frames := Do(m, functions, steps[i], After(w, steps[..i]), frames);
      assert steps[..i + 1][..i] == steps[..i];
    }
    assert steps[..|steps|] == steps;
    ValidReaches(m);
  }

  /** Any run, from any valid state: the machine stays valid, and every frame in use reaches its variables. */
  method Run(m: Machine, known: seq<Function>, steps: seq<Step>) returns (functions: seq<Function>)
    requires m.Valid() && (forall f | f in known :: f in m.functions) && forall s | s in steps :: Runnable(s)
    modifies m.Repr()
    ensures m.Valid() && fresh(m.Repr() - old(m.Repr())) && AllReached(m.frames)
    ensures forall f | f in functions :: f in m.functions
  {
    hide Machine.Valid, Runnable, AllReached, After;
    ghost var w, ids := EveryMachineShows(m, known);
    ghost var frames;
    functions, frames := Follow(m, known, steps, w, ids);
  }

  /** All frames of a set, in some order. */
  lemma {:induction false} InSomeOrder(fs: set<Frame>) returns (ids: seq<Frame?>)
    ensures (forall f | f in ids :: f != null && f in fs) && (forall f | f in fs :: f in ids)
    ensures forall i, j | 0 <= i < j < |ids| :: ids[i] != ids[j]
  {
    ids := [];
    if fs != {} {
      var f :| f in fs;
      var rest := InSomeOrder(fs - {f});
      ids := [f] + rest;
    }
  }

  /** The numbers of some frames. */
  lemma {:induction false} NumbersOf(fs: seq<Frame>, ids: seq<Frame?>) returns (ks: seq<nat>)
    requires forall f | f in fs :: f in ids
    ensures Numbered(fs, ks, ids)
  {
    ks := [];
    if fs != [] {
      assert fs[0] in ids;
      var i: nat :| i < |ids| && ids[i] == fs[0];
      var rest := NumbersOf(fs[1..], ids);
      ks := [i] + rest;
    }
  }

  lemma {:induction false} ClosuresOf(fs: seq<Function>, ids: seq<Frame?>) returns (cs: seq<Closure>)
    requires forall f | f in fs :: f.outerFrame in ids
    ensures Closures(fs, cs, ids)
  {
    cs := [];
    if fs != [] {
      assert fs[0] in fs;
      var i: nat :| i < |ids| && ids[i] == fs[0].outerFrame;
      var rest := ClosuresOf(fs[1..], ids);
      cs := [Closure(fs[0].code, i)] + rest;
    }
  }

  /** What the first `n` frames hold. */
  lemma {:induction false} BodiesOf(ids: seq<Frame?>, n: nat) returns (bodies: seq<Activation>)
    requires n <= |ids|
    requires forall i | 0 <= i < |ids| ::
      ids[i] != null && ids[i].LaidOut() && forall g | g in ids[i].around :: g in ids
    ensures |bodies| == n && forall i | 0 <= i < n :: Holding(ids[i], bodies[i], ids)
  {
    hide Holding;
    bodies := [];
    if n > 0 {
      var rest := BodiesOf(ids, n - 1);
      var last := BodyOf(ids[n - 1], ids);
      bodies := rest + [last];
    }
  }

  lemma BodyOf(f: Frame, ids: seq<Frame?>) returns (body: Activation)
    requires f.LaidOut() && forall g | g in f.around :: g in ids
    ensures Holding(f, body, ids)
  {
    var ks := NumbersOf(f.around, ids);
    body := Activation(f.code, ks, f.slots[f.stackCapacity..f.stackCapacity + f.localsNum]);
  }

  /** Every state of the machine is one that a run without frames can begin with. */
  lemma EveryMachineShows(m: Machine, fs: seq<Function>) returns (w: World, ids: seq<Frame?>)
    requires m.Valid() && forall f | f in fs :: f in m.functions
    ensures Shows(m, fs, w, ids) && forall f | f in ids :: f != null && f in m.frames
  {
    ids := InSomeOrder(m.frames);
    forall i | 0 <= i < |ids|
      ensures ids[i] != null && ids[i].LaidOut() && forall g | g in ids[i].around :: g in ids
    {
      assert ids[i] in ids;
      assert ids[i].Valid(m.frames);
    }
    forall f | f in fs ensures f.outerFrame in ids { assert f in m.functions; }
    hide Machine.Valid, Frame.Valid;
    var bodies := BodiesOf(ids, |ids|);
    var stack := NumbersOf(m.stack, ids);
    var functions := ClosuresOf(fs, ids);
    w := World(bodies, stack, functions);
  }

  /** A run from the start. */
  method RunProgram(steps: seq<Step>) returns (m: Machine, functions: seq<Function>, ghost frames: seq<Frame?>)
    requires forall s | s in steps :: Runnable(s)
    ensures m.Valid() && AllReached(m.frames) && Shows(m, functions, After(World([], [], []), steps), frames)
  {
    hide Machine.Valid, Runnable, AllReached, After;
    m := new Machine();
    functions, frames := Follow(m, [], steps, World([], [], []), []);
  }

  /** The method with a class body in between, run: the display has nothing where its variable should be. */
  method ClassBetweenRuns() returns (m: Machine, v: Value)
    ensures m.Valid() && m.stack != [] && Indexed(m.Current().code.ctx)
    ensures X in m.Current().code.vars && m.Current().code.vars[X].kind.Nonlocal?
      && m.Current().code.vars[X].kind.level == 2
    ensures v == Undef
  {
    hide Machine.Valid, Lexical, CodeObjects.Compiled, Frame.Valid, ClassBetween, GoodBody;
    GoodClassBetween();
    var compiled := CompilePackage(ClassBetween());
    ClassBetweenFails(compiled.value);
    CompiledLexical(compiled.value, [], ClassBetween(), []);
    m := RunNested(compiled.value);
    SlotFits(m, m.Current(), X);
    v := m.GetOuterFrame(2);
  }

  /** A package, its function, the class in that, and the method of the class, each entered in turn. */
  method RunNested(code: Code) returns (m: Machine)
    requires code.ctx == Pkg && Lexical(code, []) && code.children != [] && Indexed(code.children[0].ctx)
    requires var f := code.children[0]; f.children != [] && f.children[0].ctx == Class && f.children[0].children != []
    requires Indexed(code.children[0].children[0].children[0].ctx)
    ensures m.Valid() && m.stack != [] && m.Current() in m.frames && |m.Current().around| == 1
    ensures m.Current().code == code.children[0].children[0].children[0]
  {
    hide Machine.Valid, Lexical, Frame.Valid, Frame.Empty, Frame.Clean;
    m := new Machine();
    m.EvalPackage(code, 0);
    CallChild(m, 0);
    m.EnterClass(m.Current().code.children[0], 0);
    CallChild(m, 0);
  }

  /** A function of the running body, made and called. */
  method CallChild(m: Machine, child: nat)
    requires m.Valid() && m.stack != [] && child < |m.Current().code.children|
      && Indexed(m.Current().code.children[child].ctx)
    modifies m, m.Current()`usedByFunc, m.pool
    ensures m.Valid() && m.stack != [] && m.Current() in m.frames && fresh(m.Repr() - old(m.Repr()))
    ensures m.Current().code == old(m.Current().code.children[child])
      && |m.Current().around| == 1 + |old(m.Current().around)|
  {
    hide Machine.Valid, Lexical, Frame.Valid, Frame.Empty, Frame.Clean;
    m.Running();
    var f := m.MakeFunction(m.Current().code.children[child]);
    m.PoolApart();
    m.Running();
    m.Call(f, 0);
    m.Running();
  }

  lemma GoodClassBetween()
    ensures GoodBody(ClassBetween())
  {
    var g := Define(G, false, [], [Use(X)]);
    assert GoodEvent(g);
    var c := Define(C, true, [], [g]);
    assert GoodEvent(c);
    assert GoodEvent(Define(F, false, [], [Store(X), c]));
  }
}
