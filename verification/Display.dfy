/**
 * Frames at run time (src/callable.c, src/eval.c, src/frame.c, src/insts.def): each running body keeps
 * the frames of the bodies around it, where its nonlocal variables are.
 */
module Display {
  import opened Scopes
  import opened ScopeCompiler
  import opened CodeObjects

  datatype Value = Undef | Outer(frame: Frame) | Data(n: int)

  /** The frame of a running body. The slots hold, in this order, the operand stack, the locals and the display. */
  class Frame {
    var code: Code
    var stackCapacity: nat
    var localsNum: nat
    var outerFramesNum: nat
    var usedByFunc: bool
    var slots: seq<Value>
    /** The scopes around the body, nearest first. */
    ghost var scopes: seq<Scope>
    /** The frames around a function or block that it can reach: out to the first class or package body. */
    ghost var around: seq<Frame>

    /** YogScriptFrame_new. */
    constructor (code: Code, stackSize: nat, localsNum: nat)
      ensures this.code == code && stackCapacity == stackSize && this.localsNum == localsNum
      ensures outerFramesNum == code.outerSize && !usedByFunc && Clean() && around == []
    {
      this.code := code;
      stackCapacity := stackSize;
      this.localsNum := localsNum;
      outerFramesNum := code.outerSize;
      usedByFunc := false;
      slots := seq(stackSize + localsNum + code.outerSize, i => Undef);
      scopes, around := [], [];
    }

    ghost predicate LaidOut()
      reads `slots, `stackCapacity, `localsNum, `outerFramesNum
    {
      |slots| == stackCapacity + localsNum + outerFramesNum
    }

    method SetLocal(index: nat, n: int)
      requires LaidOut() && index < localsNum
      modifies this`slots
      ensures LaidOut() && slots == old(slots)[stackCapacity + index := Data(n)]
      ensures old(Displays()) ==> Displays()
    {
      slots := slots[stackCapacity + index := Data(n)];
      assert old(LaidOut());
      assert forall i | 0 <= i < outerFramesNum :: OuterFrames(i) == old(OuterFrames(i));
    }

    /** Ready for use: nothing is left from an earlier use. */
    ghost predicate Clean()
      reads `slots, `stackCapacity, `localsNum, `outerFramesNum
    {
      LaidOut() && forall i | 0 <= i < |slots| :: slots[i] == Undef
    }

    /** No operand and no local has a value yet. */
    ghost predicate Empty()
      reads `slots, `stackCapacity, `localsNum
    {
      stackCapacity + localsNum <= |slots| && forall i | 0 <= i < stackCapacity + localsNum :: slots[i] == Undef
    }

    /** An entry of the display. */
    function OuterFrames(i: nat): Value
      requires LaidOut() && i < outerFramesNum
      reads `slots, `stackCapacity, `localsNum, `outerFramesNum
    {
      slots[stackCapacity + localsNum + i]
    }

    /** The display is that of the frames around, and undefined further out. */
    ghost predicate Displays()
      reads `slots, `stackCapacity, `localsNum, `outerFramesNum, `code, `around
    {
      && LaidOut() && code.outerSize <= outerFramesNum
      && (forall i | 0 <= i < outerFramesNum ::
            OuterFrames(i) == if i < |around| && i < code.outerSize then Outer(around[i]) else Undef)
    }

    /** The frames around run the scopes around: all of them, or those out to the first class or package body. */
    ghost predicate Surrounded(frames: set<Frame>)
      reads `around, `scopes, `code, frames`around, frames`code
    {
      && |around| <= |scopes|
      && (forall i | 0 <= i < |around| ::
            && around[i] in frames && scopes[i] == ScopeOf(around[i].code)
            && around[i].around == around[i + 1..]
            && (Indexed(scopes[i].ctx) <==> i < |around| - 1))
      && (Indexed(code.ctx) <==> around != [])
    }

    /** The frames around are kept by functions, and so never recycled. */
    ghost predicate Kept(frames: set<Frame>)
      reads `around, frames`usedByFunc
    {
      forall f | f in around :: f in frames && f.usedByFunc
    }

    /** A frame in use. */
    ghost predicate Valid(frames: set<Frame>)
      reads this, frames
    {
      Displays() && Surrounded(frames) && Kept(frames) && Compiled()
    }

    ghost predicate Compiled()
      reads `localsNum, `code, `scopes
    {
      Lexical(code, scopes) && localsNum == LocalsNum(code)
    }

    /** The frame of a function just called. */
    lemma CalledValid(o: Frame, frames: set<Frame>)
      requires o.Valid(frames) && o in frames && o.usedByFunc && Indexed(code.ctx) && code in o.code.children
      requires around == [o] + o.around && scopes == [ScopeOf(o.code)] + o.scopes
      requires LaidOut() && code.outerSize <= outerFramesNum && localsNum == |code.locals|
      requires forall i | 0 <= i < outerFramesNum ::
        OuterFrames(i) == if i >= code.outerSize then Undef else if i == 0 then Outer(o) else Entry(o, i - 1)
      ensures Valid(frames)
    {
      assert around[0] == o && around[1..] == o.around;
      assert Surrounded(frames) by {
        forall i | 0 <= i < |around|
          ensures around[i] in frames && scopes[i] == ScopeOf(around[i].code)
          ensures around[i].around == around[i + 1..] && (Indexed(scopes[i].ctx) <==> i < |around| - 1)
        {
          if i > 0 {
            assert around[i] == o.around[i - 1] && around[i + 1..] == o.around[i..] && scopes[i] == o.scopes[i - 1];
          }
        }
      }
      assert Displays() by {
        forall i | 0 <= i < outerFramesNum
          ensures OuterFrames(i) == if i < |around| && i < code.outerSize then Outer(around[i]) else Undef
        {
          if i > 0 && i < |around| { assert around[i] == o.around[i - 1]; }
        }
      }
    }

    /** The frame of a class or package body just entered. */
    lemma EnteredValid(frames: set<Frame>)
      requires !Indexed(code.ctx) && around == [] && Clean() && code.outerSize <= outerFramesNum
      requires Lexical(code, scopes) && localsNum == 1
      ensures Valid(frames)
    {}

    lemma StillValid(was: set<Frame>, now: set<Frame>)
      requires Valid(was) && was <= now
      ensures Valid(now)
    {}

    /** Frames not kept by a function are in no display. */
    lemma ValidWithout(f: Frame, frames: set<Frame>)
      requires Valid(frames) && !f.usedByFunc
      ensures Valid(frames - {f})
    {}
  }

  /** What a frame displays, read without regard to its size. */
  ghost function Entry(f: Frame, i: nat): Value
    reads f
  {
    if f.LaidOut() && i < f.outerFramesNum then f.OuterFrames(i) else Undef
  }

  /** A class or package body has one local, the table of its names. */
  function LocalsNum(code: Code): nat {
    if Indexed(code.ctx) then |code.locals| else 1
  }

  /** A function object: what make_function and make_block create. */
  class Function {
    const code: Code
    const outerFrame: Frame

    constructor (code: Code, outerFrame: Frame)
      ensures this.code == code && this.outerFrame == outerFrame
    {
      this.code := code;
      this.outerFrame := outerFrame;
    }
  }

  class Machine {
    /** Frames of running bodies, the current one last, and frames to use again. */
    var stack: seq<Frame>
    var pool: seq<Frame>
    /** Frames in use: running, or kept by a function. */
    ghost var frames: set<Frame>
    ghost var functions: set<Function>

    function Current(): Frame
      requires stack != []
      reads this
    {
      stack[|stack| - 1]
    }

    constructor ()
      ensures Valid() && stack == [] && pool == [] && frames == {} && functions == {}
    {
      stack, pool := [], [];
      frames, functions := {}, {};
    }

    /** The machine and all frames it may change. */
    ghost function Repr(): set<object>
      reads this
    {
      {this} + frames + (set f | f in pool)
    }

    ghost predicate Valid()
      reads this, frames, pool
    {
      && (forall f | f in frames :: f.Valid(frames))
      && Stacked() && Pooled()
      && (forall f | f in functions :: Makes(f))
    }

    ghost predicate Stacked()
      reads `stack, `frames
    {
      && (forall f | f in stack :: f in frames)
      && (forall i, j | 0 <= i < j < |stack| :: stack[i] != stack[j])
    }

    ghost predicate Pooled()
      reads `pool, `frames, pool
    {
      && (forall f | f in pool :: f !in frames && f.Clean() && !f.usedByFunc)
      && (forall i, j | 0 <= i < j < |pool| :: pool[i] != pool[j])
    }

    lemma Running()
      requires Valid() && stack != []
      ensures Current() in frames && Current().Valid(frames) && Current() !in stack[..|stack| - 1]
      ensures Current().LaidOut() && Current().code.outerSize <= Current().outerFramesNum
      ensures Current().localsNum == LocalsNum(Current().code)
    {
      assert Current() in stack;
    }

    lemma PoolApart()
      requires Valid()
      ensures forall f | f in pool :: f !in frames
    {}

    /** A function whose defining frame is kept and can never be recycled. */
    ghost predicate Makes(f: Function)
      reads `frames, frames`usedByFunc, frames`code
    {
      && f.outerFrame in frames && f.outerFrame.usedByFunc
      && Indexed(f.code.ctx) && f.code in f.outerFrame.code.children
    }

    /** YogFrame_get_script_frame: a recycled frame if the last one is large enough, or a new one. */
    method GetScriptFrame(code: Code, stackSize: nat, localsNum: nat) returns (frame: Frame)
      requires Valid()
      modifies this`pool, pool
      ensures Valid() && frame !in frames && frame !in pool && (frame in old(pool) || fresh(frame))
      ensures forall f | f in pool :: f in old(pool)
      ensures frame.Clean() && !frame.usedByFunc && frame.code == code
      ensures frame.stackCapacity == stackSize && frame.localsNum == localsNum
      ensures code.outerSize <= frame.outerFramesNum
      ensures pool == if old(pool) == [] then [] else old(pool)[..|old(pool)| - 1]
      ensures if old(pool) != [] && stackSize + localsNum + code.outerSize <= |old(pool)[|old(pool)| - 1].slots|
              then frame == old(pool)[|old(pool)| - 1]
              else fresh(frame) && frame.outerFramesNum == code.outerSize
    {
      hide Frame.Valid;
      if pool != [] {
        frame := pool[|pool| - 1];
        assert frame.Clean();
        pool := pool[..|pool| - 1];
        var actual := frame.stackCapacity + frame.localsNum + frame.outerFramesNum;
        var needed := stackSize + localsNum + code.outerSize;
        if needed <= actual {
          frame.stackCapacity := stackSize;
          frame.localsNum := localsNum;
          frame.outerFramesNum := actual - stackSize - localsNum;
          frame.code := code;
          return;
        }
      }
      frame := new Frame(code, stackSize, localsNum);
    }

    /** Putting a prepared frame to use. */
    method PushFrame(frame: Frame)
      requires Valid() && frame !in frames && frame !in pool && frame.Valid(frames)
      modifies this`stack, this`frames
      ensures Valid() && stack == old(stack) + [frame] && frames == old(frames) + {frame}
    {
      hide Frame.Valid, Frame.Clean;
      ghost var was := frames;
      stack := stack + [frame];
      frames := frames + {frame};
      forall f | f in frames ensures f.Valid(frames) { f.StillValid(was, frames); }
    }

    /** A body inside the running one. */
    lemma Inner(code: Code)
      requires Valid() && stack != [] && code in Current().code.children
      ensures Lexical(code, [ScopeOf(Current().code)] + Current().scopes)
    {
      Running();
    }

    lemma FunctionFits(f: Function)
      requires Valid() && f in functions
      ensures Makes(f) && f.code.outerSize - 1 <= f.outerFrame.code.outerSize <= f.outerFrame.outerFramesNum
    {}

    /** The display of a function's new frame. */
    method PrepareCall(frame: Frame, o: Frame)
      requires Valid() && o in frames && o.usedByFunc && frame !in frames && frame !in pool && frame.Clean()
      requires Indexed(frame.code.ctx) && frame.code in o.code.children && frame.localsNum == |frame.code.locals|
      requires frame.code.outerSize <= frame.outerFramesNum && frame.code.outerSize - 1 <= o.outerFramesNum
      modifies frame`slots, frame`around, frame`scopes
      ensures Valid() && frame.Valid(frames)
      ensures frame.around == [o] + o.around && frame.scopes == [ScopeOf(o.code)] + o.scopes && frame.Empty()
    {
      hide Lexical, Frame.Surrounded;
      FillOuterFrames(frame, o, frame.code.outerSize);
      frame.around := [o] + o.around;
      frame.scopes := [ScopeOf(o.code)] + o.scopes;
      frame.CalledValid(o, frames);
    }

    /** YogFunction_exec_for_instance: the frame of a called function gets its display. */
    method Call(f: Function, stackSize: nat)
      requires Valid() && f in functions
      modifies this`stack, this`pool, this`frames, pool
      ensures Valid() && stack != [] && stack[..|stack| - 1] == old(stack)
      ensures (fresh(Current()) || Current() in old(pool)) && fresh(Repr() - old(Repr()))
      ensures var frame := Current();
        && frame !in old(frames) && frames == old(frames) + {frame}
        && frame.code == f.code && frame.around == [f.outerFrame] + f.outerFrame.around
        && frame.scopes == [ScopeOf(f.outerFrame.code)] + f.outerFrame.scopes
        && frame.stackCapacity == stackSize && frame.localsNum == |f.code.locals| && frame.Empty()
    {
      hide Lexical, Frame.Surrounded;
      FunctionFits(f);
      var frame := GetScriptFrame(f.code, stackSize, |f.code.locals|);
      PrepareCall(frame, f.outerFrame);
      PushFrame(frame);
    }

    /** create_frame_for_names: the frame of a body whose names are in a table. */
    method CreateFrameForNames(code: Code, stackSize: nat, ghost scopes: seq<Scope>) returns (frame: Frame)
      requires Valid() && !Indexed(code.ctx) && Lexical(code, scopes)
      modifies this`pool, pool
      ensures Valid() && frame !in frames && frame !in pool && (frame in old(pool) || fresh(frame))
      ensures (forall f | f in pool :: f in old(pool)) && frame.Valid(frames)
      ensures frame.code == code && frame.around == [] && frame.scopes == scopes
      ensures frame.stackCapacity == stackSize && frame.localsNum == 1 && frame.Clean()
    {
      hide Lexical, Frame.Surrounded, Frame.Displays;
      frame := GetScriptFrame(code, stackSize, 1);
      frame.around := [];
      frame.scopes := scopes;
      frame.EnteredValid(frames);
    }

    /** make_class and make_module: the body runs at once, in a frame whose display stays undefined. */
    method EnterClass(code: Code, stackSize: nat)
      requires Valid() && stack != [] && code in Current().code.children && code.ctx == Class
      modifies this`stack, this`pool, this`frames, pool
      ensures Valid() && stack != [] && stack[..|stack| - 1] == old(stack)
      ensures (fresh(Current()) || Current() in old(pool)) && fresh(Repr() - old(Repr()))
      ensures var frame := Current();
        && frame !in old(frames) && frames == old(frames) + {frame} && frame.code == code && frame.around == []
        && frame.scopes == [ScopeOf(old(Current().code))] + old(Current().scopes)
        && frame.stackCapacity == stackSize && frame.localsNum == 1 && frame.Clean()
    {
      Inner(code);
      hide Lexical, Frame.Valid, Frame.Clean;
      var frame := CreateFrameForNames(code, stackSize, [ScopeOf(Current().code)] + Current().scopes);
      PushFrame(frame);
    }

    /** YogEval_eval_package. */
    method EvalPackage(code: Code, stackSize: nat)
      requires Valid() && code.ctx == Pkg && Lexical(code, [])
      modifies this`stack, this`pool, this`frames, pool
      ensures Valid() && stack != [] && stack[..|stack| - 1] == old(stack)
      ensures (fresh(Current()) || Current() in old(pool)) && fresh(Repr() - old(Repr()))
      ensures var frame := Current();
        && frame !in old(frames) && frames == old(frames) + {frame} && frame.code == code && frame.around == []
        && frame.scopes == []
        && frame.stackCapacity == stackSize && frame.localsNum == 1 && frame.Clean()
    {
      hide Lexical, Frame.Valid, Frame.Clean;
      var frame := CreateFrameForNames(code, stackSize, []);
      PushFrame(frame);
    }

    /** make_function and make_block (setup_script_function): from now on the current frame is kept. */
    method MakeFunction(code: Code) returns (f: Function)
      requires Valid() && stack != [] && code in Current().code.children && Indexed(code.ctx)
      modifies this`functions, Current()`usedByFunc
      ensures Valid() && fresh(f) && functions == old(functions) + {f}
      ensures f.code == code && f.outerFrame == Current() && Current().usedByFunc
    {
      hide Frame.Valid, Frame.Clean;
      Running();
      var cur := Current();
      f := new Function(code, cur);
      KeepFrame(cur);
      functions := functions + {f};
    }

    method KeepFrame(frame: Frame)
      requires Valid() && frame in frames
      modifies frame`usedByFunc
      ensures Valid() && frame.usedByFunc
    {
      hide Frame.Displays, Frame.Compiled, Frame.Clean, Frame.Surrounded;
      frame.usedByFunc := true;
    }

    /** ret: a frame no function has used is cleaned and may be used again. */
    method Return()
      requires Valid() && stack != []
      modifies this`stack, this`pool, this`frames, Current()`slots
      ensures Valid() && stack == old(stack)[..|old(stack)| - 1]
      ensures var frame := old(Current());
        && frames == (if old(frame.usedByFunc) then old(frames) else old(frames) - {frame})
        && pool == if old(frame.usedByFunc) || |old(pool)| >= SCRIPT_FRAMES_MAX then old(pool) else old(pool) + [frame]
      ensures old(Current().usedByFunc) ==> old(Current()).slots == old(Current().slots)
      ensures Repr() <= old(Repr())
    {
      hide Frame.Valid;
      Running();
      var frame := Current();
      forall f | f in frames && !frame.usedByFunc ensures f.Valid(frames - {frame}) { f.ValidWithout(frame, frames); }
      stack := stack[..|stack| - 1];
      if !frame.usedByFunc {
        frame.slots := seq(|frame.slots|, i => Undef);
        frames := frames - {frame};
        if |pool| < SCRIPT_FRAMES_MAX {
          pool := pool + [frame];
        }
      }
    }

    /** get_outer_frame. */
    method GetOuterFrame(level: nat) returns (v: Value)
      requires Valid() && stack != [] && 1 <= level <= Current().code.outerSize
      ensures var cur := Current(); v == if level <= |cur.around| then Outer(cur.around[level - 1]) else Undef
    {
      Running();
      var cur := Current();
      return cur.OuterFrames(level - 1);
    }

    /** The frame `level` bodies outward, if the current one can reach so far. */
    ghost function Around(level: nat): Frame
      requires stack != [] && 1 <= level <= |Current().around|
      reads this, Current()
    {
      Current().around[level - 1]
    }

    /** load_nonlocal_index, where the level is reachable. */
    method LoadNonlocalIndex(level: nat, index: nat) returns (v: Value)
      requires Valid() && stack != [] && 1 <= level <= Current().code.outerSize && level <= |Current().around|
      requires Indexed(Around(level).code.ctx) && index < |Around(level).code.locals|
      ensures var g := Around(level);
        g in frames && g.LaidOut() && index < g.localsNum && v == g.slots[g.stackCapacity + index]
    {
      Running();
      AroundUsed(Current(), level);
      var outer := GetOuterFrame(level);
      return outer.frame.slots[outer.frame.stackCapacity + index];
    }

    /** store_nonlocal_index, where the level is reachable. */
    method StoreNonlocalIndex(level: nat, index: nat, n: int)
      requires Valid() && stack != [] && 1 <= level <= Current().code.outerSize && level <= |Current().around|
      requires Indexed(Around(level).code.ctx) && index < |Around(level).code.locals|
      modifies Around(level)`slots
      ensures Valid()
      ensures var g := Around(level);
        && g in frames && g.LaidOut() && index < g.localsNum && g.stackCapacity + index < |old(g.slots)|
        && g.slots == old(g.slots)[g.stackCapacity + index := Data(n)]
    {
      Running();
      AroundUsed(Current(), level);
      var outer := GetOuterFrame(level);
      SetLocalOf(outer.frame, index, n);
    }

    method SetLocalOf(g: Frame, index: nat, n: int)
      requires Valid() && g in frames && g.LaidOut() && index < g.localsNum
      modifies g`slots
      ensures Valid() && g.LaidOut() && g.slots == old(g.slots)[g.stackCapacity + index := Data(n)]
    {
      hide Frame.Compiled, Frame.Surrounded, Frame.Displays, Frame.Clean;
      g.SetLocal(index, n);
    }

    lemma AroundUsed(f: Frame, level: nat)
      requires Valid() && f in frames && 1 <= level <= |f.around|
      ensures f.around[level - 1] in frames && f.around[level - 1].Valid(frames) && f.around[level - 1].usedByFunc
    {}

    /** store_local_index. */
    method StoreLocalIndex(index: nat, n: int)
      requires Valid() && stack != [] && Indexed(Current().code.ctx) && index < |Current().code.locals|
      modifies Current()`slots
      ensures Valid() && Current().stackCapacity + index < |old(Current().slots)|
      ensures Current().slots == old(Current().slots)[Current().stackCapacity + index := Data(n)]
    {
      Running();
      SetLocalOf(Current(), index, n);
    }
  }

  const SCRIPT_FRAMES_MAX := 32

  /** fill_outer_frames: the defining frame, then what that frame displays. */
  method FillOuterFrames(frame: Frame, outerFrame: Frame, depth: nat)
    requires frame != outerFrame && frame.LaidOut() && outerFrame.LaidOut()
    requires depth <= frame.outerFramesNum && depth - 1 <= outerFrame.outerFramesNum
    modifies frame`slots
    ensures frame.LaidOut()
    ensures var n := frame.stackCapacity + frame.localsNum; frame.slots[..n] == old(frame.slots)[..n]
    ensures forall i | 0 <= i < frame.outerFramesNum ::
      frame.OuterFrames(i) ==
      if i >= depth then old(frame.OuterFrames(i))
      else if i == 0 then Outer(outerFrame) else Entry(outerFrame, i - 1)
  {
    if depth == 0 {
      return;
    }
    frame.slots := frame.slots[frame.stackCapacity + frame.localsNum := Outer(outerFrame)];
    CopyDisplay(frame, outerFrame, depth - 1);
  }

  /** The loop of fill_outer_frames: `n` entries copied, one place further on. */
  method CopyDisplay(frame: Frame, outerFrame: Frame, n: nat)
    requires frame != outerFrame && frame.LaidOut() && outerFrame.LaidOut()
    requires n < frame.outerFramesNum && n <= outerFrame.outerFramesNum && frame.OuterFrames(0) == Outer(outerFrame)
    modifies frame`slots
    ensures frame.LaidOut()
    ensures var n := frame.stackCapacity + frame.localsNum; frame.slots[..n] == old(frame.slots)[..n]
    ensures forall i | 0 <= i < frame.outerFramesNum ::
      frame.OuterFrames(i) ==
      if i > n then old(frame.OuterFrames(i))
      else if i == 0 then Outer(outerFrame) else Entry(outerFrame, i - 1)
  {
    var offset := frame.stackCapacity + frame.localsNum;
    hide Filled, Entry;
    ghost var before, display := frame.slots, outerFrame.slots[outerFrame.stackCapacity + outerFrame.localsNum..];
    FilledStart(outerFrame, display, before[offset..]);
    assert before == before[..offset] + before[offset..];
    CopyEntries(frame, outerFrame, n, before[..offset], display, before[offset..]);
    Copied(frame, outerFrame, display, before, n);
  }

  /** The display after the loop. */
  lemma Copied(frame: Frame, o: Frame, display: seq<Value>, before: seq<Value>, n: nat)
    requires frame.LaidOut() && o.LaidOut() && n < frame.outerFramesNum && n <= |display| && |before| == |frame.slots|
    requires display == o.slots[o.stackCapacity + o.localsNum..]
    requires var k := frame.stackCapacity + frame.localsNum;
      frame.slots == before[..k] + Filled(o, display, before[k..], n)
    ensures var k := frame.stackCapacity + frame.localsNum; frame.slots[..k] == before[..k]
    ensures forall i | 0 <= i < frame.outerFramesNum ::
      frame.OuterFrames(i) ==
      if i > n then before[frame.stackCapacity + frame.localsNum + i]
      else if i == 0 then Outer(o) else Entry(o, i - 1)
  {
    hide Filled, Entry;
    var k := frame.stackCapacity + frame.localsNum;
    forall i | 0 <= i < frame.outerFramesNum
      ensures frame.OuterFrames(i) ==
              if i > n then before[k + i] else if i == 0 then Outer(o) else Entry(o, i - 1)
    {
      FilledEntry(before[..k], o, display, before[k..], n, i);
      if 0 < i <= n { EntryOf(o, display, i - 1); }
    }
  }

  method CopyEntries(frame: Frame, outerFrame: Frame, n: nat, ghost head: seq<Value>, ghost display: seq<Value>,
                     ghost was: seq<Value>)
    requires frame != outerFrame && frame.LaidOut() && outerFrame.LaidOut() && n < |was| && n <= |display|
    requires |head| == frame.stackCapacity + frame.localsNum && |display| == outerFrame.outerFramesNum
    requires display == outerFrame.slots[outerFrame.stackCapacity + outerFrame.localsNum..]
    requires frame.slots == head + Filled(outerFrame, display, was, 0)
    modifies frame`slots
    ensures frame.LaidOut() && frame.slots == head + Filled(outerFrame, display, was, n)
  {
    var offset := frame.stackCapacity + frame.localsNum;
    hide Filled, Entry;
    for i := 0 to n
      invariant frame.LaidOut() && frame.slots == head + Filled(outerFrame, display, was, i)
    {
      FilledNext(head, outerFrame, display, was, i);
      frame.slots := frame.slots[offset + 1 + i := outerFrame.OuterFrames(i)];
    }
  }

  lemma EntryOf(f: Frame, display: seq<Value>, i: nat)
    requires f.LaidOut() && display == f.slots[f.stackCapacity + f.localsNum..] && i < |display|
    ensures i < f.outerFramesNum && display[i] == Entry(f, i) == f.OuterFrames(i)
  {}

  /** A display with the defining frame and `n` of the entries of its display. */
  ghost function Filled(o: Frame, display: seq<Value>, was: seq<Value>, n: nat): (f: seq<Value>)
    requires n <= |display| && n < |was|
    ensures |f| == |was|
  {
    [Outer(o)] + display[..n] + was[n + 1..]
  }

  lemma FilledStart(o: Frame, display: seq<Value>, was: seq<Value>)
    requires was != [] && was[0] == Outer(o)
    ensures Filled(o, display, was, 0) == was
  {
    assert was == [was[0]] + was[1..];
  }

  lemma FilledNext(head: seq<Value>, o: Frame, display: seq<Value>, was: seq<Value>, n: nat)
    requires n < |display| && n + 1 < |was|
    ensures (head + Filled(o, display, was, n))[|head| + 1 + n := display[n]] == head + Filled(o, display, was, n + 1)
  {
    assert was[n + 1..] == [was[n + 1]] + was[n + 2..];
    assert display[..n + 1] == display[..n] + [display[n]];
  }

  lemma FilledEntry(head: seq<Value>, o: Frame, display: seq<Value>, was: seq<Value>, n: nat, i: nat)
    requires n <= |display| && n < |was| && i < |was|
    ensures (head + Filled(o, display, was, n))[|head| + i] ==
            if i > n then was[i] else if i == 0 then Outer(o) else display[i - 1]
  {
    var f := Filled(o, display, was, n);
    assert (head + f)[|head| + i] == f[i];
    if i > n { assert f[i] == was[n + 1..][i - (n + 1)]; } else if i > 0 { assert f[i] == display[..n][i - 1]; }
  }

  /** Only functions and blocks among the `n` nearest scopes. */
  ghost predicate OnlyFunctions(scopes: seq<Scope>, n: nat)
    requires n <= |scopes|
  {
    forall i | 0 <= i < n :: Indexed(scopes[i].ctx)
  }

  /**
   * A nonlocal variable of a running function or block finds, in the display, the frame of the body that has
   * it, at the slot that body gives it, exactly if no class body lies strictly between; otherwise the entry
   * is undefined.
   */
  lemma NonlocalReaches(f: Frame, frames: set<Frame>, name: ID)
    requires f.Valid(frames) && Indexed(f.code.ctx) && name in f.code.vars && f.code.vars[name].kind.Nonlocal?
    ensures var k := f.code.vars[name].kind;
      && 1 <= k.level <= f.code.outerSize <= f.outerFramesNum && k.level <= |f.scopes|
      && (if OnlyFunctions(f.scopes, k.level - 1) then
            && k.level <= |f.around|
            && f.OuterFrames(k.level - 1) == Outer(f.around[k.level - 1])
            && f.around[k.level - 1] in frames && f.around[k.level - 1].usedByFunc
            && ScopeOf(f.around[k.level - 1].code) == f.scopes[k.level - 1]
            && Holds(f.scopes[k.level - 1], name, k.slot)
          else f.OuterFrames(k.level - 1) == Undef)
  {
    hide Lists, Lexical;
    LexicalFacts(f.code, f.scopes);
    var k := f.code.vars[name].kind;
    if k.level > |f.around| {
      assert !Indexed(f.scopes[|f.around| - 1].ctx);
    } else {
      assert forall i | 0 <= i < k.level - 1 :: Indexed(f.scopes[i].ctx);
    }
  }

  lemma LexicalFacts(code: Code, scopes: seq<Scope>)
    requires Lexical(code, scopes)
    ensures Reaches(ScopeOf(code), scopes) && Enough(code.outerSize, code.vars) && code.outerSize <= |scopes|
  {}

  const F: ID := 1
  const C: ID := 2
  const G: ID := 3
  const X: ID := 4

  /** A function that assigns X and defines a class, whose method reads X. */
  function ClassBetween(): seq<Event> {
    [Define(F, false, [], [Store(X), Define(C, true, [], [Define(G, false, [], [Use(X)])])])]
  }

  /** The code object of the one body among two events. */
  lemma OnlyBody(codes: seq<Code>, events: seq<Event>, outers: seq<Scope>)
    requires AllCompiled(codes, events, outers) && 1 <= |events| <= 2 && events[|events| - 1].Define?
    requires |events| == 2 ==> events[0].Store?
    ensures var e := events[|events| - 1];
      |codes| == 1 && codes[0].ctx == BodyContext(e) && Compiled(codes[0], BodyParams(e), e.events, outers)
  {
    hide Compiled;
    var rest := events[..|events| - 1];
    var before := codes[..|codes| - 1];
    assert AllCompiled(before, rest, outers);
    if |events| == 2 {
      assert rest == [events[0]] && rest[..0] == [];
      assert AllCompiled(before, rest[..0], outers);
    }
    assert before == [];
  }

  lemma FunctionSays(f: Scope)
    requires f.ctx == Func && Says(f, [SELF], ClassBetween()[0].events)
    ensures X in f.vars && !f.vars[X].param && f.vars[X].isAssigned && !f.vars[X].isNonlocal
  {
    var events := ClassBetween()[0].events;
    assert events[0] == Store(X);
  }

  lemma MethodSays(g: Scope)
    requires g.ctx == Func && Says(g, [SELF], [Use(X)])
    ensures X in g.vars && !g.vars[X].param && !g.vars[X].isAssigned && !g.vars[X].isNonlocal
  {
    var events := [Use(X)];
    assert events[0] == Use(X) && events[..0] == [];
    assert InnerStored(events[..0]) == {};
  }

  lemma ResolvedThrough(g: Scope, c: Scope, f: Scope, p: Scope)
    requires g.ctx == Func && X in g.vars && !g.vars[X].param && !g.vars[X].isAssigned && !g.vars[X].isNonlocal
    requires f.ctx == Func && X in f.vars && !f.vars[X].param && f.vars[X].isAssigned && !f.vars[X].isNonlocal
    requires Resolves(g, [c, f, p]) && Resolves(f, [p]) && c.ctx == Class
    ensures g.vars[X].kind.Nonlocal? && g.vars[X].kind.level == 2
  {
    assert f.vars[X].kind.Local?;
    var outers := [c, f, p];
    assert OuterKind(Func, outers, 1, X) == Shifted(f, 1, X);
    assert OuterKind(Func, outers, 0, X) == OuterKind(Func, outers, 1, X);
  }

  /** Where the display falls short: the method's X is two levels out, with the class strictly between. */
  lemma ClassBetweenFails(code: Code)
    requires Compiled(code, [], ClassBetween(), []) && code.ctx == Pkg
    ensures |code.children| == 1 && |code.children[0].children| == 1 && |code.children[0].children[0].children| == 1
    ensures Indexed(code.children[0].ctx)
    ensures var c := code.children[0].children[0]; var g := c.children[0];
      && Indexed(g.ctx) && X in g.vars && g.vars[X].kind.Nonlocal? && g.vars[X].kind.level == 2 && c.ctx == Class
  {
    hide Tight, Lists, Reaches, Resolves, Says, AllCompiled;
    assert Leading(Func, []) == [SELF];
    var f := ClassBetween()[0];
    var p := [ScopeOf(code)];
    assert p == p + [];
    OnlyBody(code.children, ClassBetween(), p);
    var fc := code.children[0];
    FunctionSays(ScopeOf(fc));
    var fp := [ScopeOf(fc)] + p;
    OnlyBody(fc.children, f.events, fp);
    var cc := fc.children[0];
    var cfp := [ScopeOf(cc)] + fp;
    OnlyBody(cc.children, f.events[1].events, cfp);
    var gc := cc.children[0];
    MethodSays(ScopeOf(gc));
    assert cfp == [ScopeOf(cc), ScopeOf(fc), ScopeOf(code)];
    ResolvedThrough(ScopeOf(gc), ScopeOf(cc), ScopeOf(fc), ScopeOf(code));
  }
}
