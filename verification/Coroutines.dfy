/**
 * Coroutine switching (src/coroutine.c): how resume, yield and the end of a coroutine relink the chain of
 * frames and the list of jump buffers of the thread. A switch of machine contexts is one atomic step.
 */
module Coroutines {

  datatype Value = Nil | Object(id: int)

  datatype Status = SUSPENDED | RUNNING | DEAD

  datatype Outcome = Switched | CoroutineError

  class Frame {
    var prev: Frame?
    /** What the call of this frame returns. */
    var multiVal: seq<Value>
    ghost var owner: Context?

    constructor ()
      ensures prev == null && multiVal == [] && owner == null
    {
      prev := null;
      multiVal := [];
      owner := null;
    }
  }

  class JmpBuf {
    var prev: JmpBuf?
    ghost var owner: Context?

    constructor ()
      ensures prev == null && owner == null
    {
      prev := null;
      owner := null;
    }
  }

  ghost function FrameIn(f: Frame?): set<Frame> {
    if f == null then {} else {f}
  }

  ghost function BufIn(b: JmpBuf?): set<JmpBuf> {
    if b == null then {} else {b}
  }

  ghost function TopFrame(fs: seq<Frame>, below: Frame?): Frame? {
    if fs == [] then below else fs[0]
  }

  ghost function TopBuf(bs: seq<JmpBuf>, below: JmpBuf?): JmpBuf? {
    if bs == [] then below else bs[0]
  }

  /** Each frame is linked to the next, and the last one to `below`. */
  ghost predicate LinkedFrames(fs: seq<Frame>, below: Frame?)
    reads fs`prev
  {
    && (forall i, j | 0 <= i && j == i + 1 && j < |fs| :: fs[i].prev == fs[j])
    && (fs != [] ==> fs[|fs| - 1].prev == below)
  }

  lemma Consed(fs: seq<Frame>, below: Frame?)
    requires fs != []
    ensures LinkedFrames(fs, below) <==> LinkedFrames(fs[1..], below) && fs[0].prev == TopFrame(fs[1..], below)
    ensures forall f | f in fs[1..] :: f in fs && ((forall i, j | 0 <= i < j < |fs| :: fs[i] != fs[j]) ==> f != fs[0])
  {
    var rest := fs[1..];
    assert forall i | 1 <= i < |fs| :: fs[i] == rest[i - 1];
    assert forall i | 0 <= i < |rest| :: rest[i] == fs[i + 1];
  }

  ghost predicate LinkedBufs(bs: seq<JmpBuf>, below: JmpBuf?)
    reads bs`prev
  {
    && (forall i, j | 0 <= i && j == i + 1 && j < |bs| :: bs[i].prev == bs[j])
    && (bs != [] ==> bs[|bs| - 1].prev == below)
  }

  lemma ConsedBufs(bs: seq<JmpBuf>, below: JmpBuf?)
    requires bs != []
    ensures LinkedBufs(bs, below) <==> LinkedBufs(bs[1..], below) && bs[0].prev == TopBuf(bs[1..], below)
    ensures forall b | b in bs[1..] :: b in bs && ((forall i, j | 0 <= i < j < |bs| :: bs[i] != bs[j]) ==> b != bs[0])
  {
    var rest := bs[1..];
    assert forall i | 1 <= i < |bs| :: bs[i] == rest[i - 1];
    assert forall i | 0 <= i < |rest| :: rest[i] == bs[i + 1];
  }

  /** return_args: a call of resume or yield returns all values passed, or nil for none. */
  function Returned(args: seq<Value>): (values: seq<Value>)
    ensures args != [] ==> values == args
    ensures args == [] ==> values == [Nil]
  {
    if args == [] then [Nil] else args
  }

  /** A place of execution: the environment of the main program, or that of a coroutine. */
  class Context {
    var frame: Frame?
    /** Its own frames and jump buffers, the newest first. */
    ghost var frames: seq<Frame>
    ghost var bufs: seq<JmpBuf>

    constructor ()
      ensures frame == null && frames == [] && bufs == []
    {
      frame := null;
      frames, bufs := [], [];
    }

    /** No frame and no jump buffer belongs to two contexts, or occurs twice. */
    ghost predicate Owns()
      reads `frames, `bufs, frames`owner, bufs`owner
    {
      && (forall f | f in frames :: f.owner == this)
      && (forall b | b in bufs :: b.owner == this)
      && (forall i, j | 0 <= i < j < |frames| :: frames[i] != frames[j])
      && (forall i, j | 0 <= i < j < |bufs| :: bufs[i] != bufs[j])
    }

    /** Based on `below`: the segment of frames ends there, and the segment of jump buffers at `belowBuf`. */
    ghost predicate Based(below: Frame?, belowBuf: JmpBuf?)
      reads this, frames`prev, frames`owner, bufs`prev, bufs`owner
    {
      Owns() && frame == TopFrame(frames, below) && LinkedFrames(frames, below) && LinkedBufs(bufs, belowBuf)
    }

    /** YogEval_push_frame. */
    method PushFrame(f: Frame, ghost below: Frame?, ghost belowBuf: JmpBuf?)
      requires Based(below, belowBuf) && f.owner == null
      modifies `frame, `frames, f`prev, f`owner
      ensures Based(below, belowBuf) && frame == f && frames == [f] + old(frames)
    {
      ghost var was := frames;
      f.prev := frame;
      frame := f;
      frames := [f] + frames;
      f.owner := this;
      assert frames[1..] == was;
      Consed(frames, below);
    }

    /** YogEval_pop_frame, of one of the context's own frames. */
    method PopFrame(ghost below: Frame?, ghost belowBuf: JmpBuf?)
      requires Based(below, belowBuf) && frames != []
      modifies `frame, `frames, frame`owner
      ensures Based(below, belowBuf) && frames == old(frames)[1..]
    {
      Consed(frames, below);
      frame.owner := null;
      frame := frame.prev;
      frames := frames[1..];
    }

    /** The jump buffer of a new setjmp. */
    ghost method AddBuf(b: JmpBuf, below: Frame?, belowBuf: JmpBuf?)
      requires Based(below, belowBuf) && b.owner == null && b !in bufs && b.prev == TopBuf(bufs, belowBuf)
      modifies `bufs, b`owner
      ensures Based(below, belowBuf) && bufs == [b] + old(bufs)
    {
      ghost var was := bufs;
      bufs := [b] + bufs;
      b.owner := this;
      assert bufs[1..] == was;
      ConsedBufs(bufs, belowBuf);
    }

    ghost method DropBuf(b: JmpBuf, below: Frame?, belowBuf: JmpBuf?)
      requires Based(below, belowBuf) && bufs != [] && b == bufs[0]
      modifies `bufs, b`owner
      ensures Based(below, belowBuf) && bufs == old(bufs)[1..] && b.prev == TopBuf(bufs, belowBuf)
    {
      ConsedBufs(bufs, belowBuf);
      b.owner := null;
      bufs := bufs[1..];
    }

    /** Linking the bottom of both segments anew. */
    method Rebase(bottom: Frame, bottomBuf: JmpBuf, below: Frame?, belowBuf: JmpBuf?, ghost was: Frame?,
                  ghost wasBuf: JmpBuf?)
      requires Based(was, wasBuf) && frames != [] && bufs != []
      requires bottom == frames[|frames| - 1] && bottomBuf == bufs[|bufs| - 1]
      modifies bottom`prev, bottomBuf`prev
      ensures Based(below, belowBuf)
    {
      bottomBuf.prev := belowBuf;
      bottom.prev := below;
    }

    lemma EmptyBased(below: Frame?, belowBuf: JmpBuf?)
      requires frames == [] && bufs == [] && frame == below
      ensures Based(below, belowBuf)
    {}

    lemma InnerFrame(i: nat, below: Frame?, belowBuf: JmpBuf?)
      requires Based(below, belowBuf) && i + 1 < |frames|
      ensures frames[i].prev == frames[i + 1] && frames[i + 1].owner == this
    {}

    lemma InnerBuf(i: nat, below: Frame?, belowBuf: JmpBuf?)
      requires Based(below, belowBuf) && i + 1 < |bufs|
      ensures bufs[i].prev == bufs[i + 1] && bufs[i + 1].owner == this
    {}

    lemma OwnOnly(below: Frame?, belowBuf: JmpBuf?)
      requires Based(below, belowBuf)
      ensures forall b | b in bufs :: b.owner == this
    {}

    lemma TopOwned(below: Frame?, belowBuf: JmpBuf?)
      requires Based(below, belowBuf)
      ensures frames != [] ==> frame != null && frame == frames[0] && frame.owner == this
      ensures bufs != [] ==> bufs[0].owner == this
    {}
  }

  class Coroutine {
    const env: Context
    var status: Status
    /** Whether there is a machine context to resume. */
    var started: bool
    var boundaryFrame: Frame?
    var args: seq<Value>
    var prevJmpBuf: JmpBuf?
    /** Who resumed it; null for the main program. */
    var resumer: Coroutine?
    /** The local variable of the resumer's call of resume. */
    var listOfResumer: JmpBuf?
    /** The local variables of its own call of yield. */
    var bottomFrame: Frame?
    var topJmpBuf: JmpBuf?
    var bottomJmpBuf: JmpBuf?

    constructor ()
      ensures status == SUSPENDED && !started && fresh(env) && env.frames == [] && env.bufs == [] && args == []
    {
      env := new Context();
      status := SUSPENDED;
      started := false;
      boundaryFrame, prevJmpBuf, resumer, listOfResumer := null, null, null, null;
      bottomFrame, topJmpBuf, bottomJmpBuf := null, null, null;
      args := [];
    }

    /** Not active: over, not yet begun, or stopped in a yield with its segments cut loose. */
    ghost predicate Idle()
      reads this, env, env.frames`prev, env.frames`owner, env.bufs`prev, env.bufs`owner
    {
      match status
      case DEAD => env.frames == [] && env.bufs == []
      case RUNNING => false
      case SUSPENDED =>
        if !started then env.frames == [] && env.bufs == []
        else
          && env.frames != [] && env.bufs != []
          && env.Based(null, env.bufs[|env.bufs| - 1].prev)
          && bottomFrame == env.frames[|env.frames| - 1]
          && topJmpBuf == env.bufs[0] && bottomJmpBuf == env.bufs[|env.bufs| - 1]
    }

    /** The ends of the segments kept while stopped in a yield; none for a coroutine not begun. */
    ghost function Bottom(): set<Frame>
      reads this
    {
      if started && status == SUSPENDED then FrameIn(bottomFrame) else {}
    }

    ghost function BottomBuf(): set<JmpBuf>
      reads this
    {
      if started && status == SUSPENDED then BufIn(bottomJmpBuf) else {}
    }

    ghost function TopOf(): set<Frame>
      reads this, env
    {
      if started && status == SUSPENDED then FrameIn(env.frame) else {}
    }

    /** The part of resume that changes the coroutine, and what is left of yield once it is resumed. */
    method GoOn(from: Coroutine?, frame: Frame, list: JmpBuf?, args: seq<Value>)
      requires Idle() && status == SUSPENDED
      modifies this, env`frame, Bottom()`prev, BottomBuf()`prev, TopOf()`multiVal
      ensures env.Based(frame, list) && status == RUNNING && started
      ensures boundaryFrame == frame && prevJmpBuf == list && listOfResumer == list && resumer == from
        && this.args == args
      ensures topJmpBuf == old(topJmpBuf) && (old(started) ==> topJmpBuf == TopBuf(env.bufs, list))
      ensures old(started) ==> env.frame == old(env.frame)
      ensures old(started) && args != [] ==> env.frame.multiVal == args
      ensures old(started) && args == [] ==> env.frame.multiVal == [Nil]
      ensures !old(started) ==> env.frame == frame && env.bufs == []
    {
      hide Context.Based;
      if started {
        Continue(frame, list, args);
      } else {
        started := true;
        env.frame := frame;
        env.EmptyBased(frame, list);
      }
      boundaryFrame := frame;
      status := RUNNING;
      this.args := args;
      prevJmpBuf := list;
      listOfResumer := list;
      resumer := from;
    }

    /** The segments based anew, and what the yield returns. */
    method Continue(frame: Frame, list: JmpBuf?, args: seq<Value>)
      requires Idle() && status == SUSPENDED && started
      modifies Bottom()`prev, BottomBuf()`prev, TopOf()`multiVal
      ensures env.Based(frame, list) && env.frame != null
      ensures args != [] ==> env.frame.multiVal == args
      ensures args == [] ==> env.frame.multiVal == [Nil]
    {
      hide Context.Based;
      env.TopOwned(null, bottomJmpBuf.prev);
      env.Rebase(bottomFrame, bottomJmpBuf, frame, list, null, bottomJmpBuf.prev);
      env.frame.multiVal := Returned(args);
    }

    /** The part of yield that changes the coroutine. */
    method StopIn(args: seq<Value>, bottom: Frame, bottomBuf: JmpBuf, top: JmpBuf?)
      requires env.Based(boundaryFrame, prevJmpBuf) && env.frames != [] && env.bufs != [] && started
      requires bottom == env.frames[|env.frames| - 1] && bottomBuf == env.bufs[|env.bufs| - 1] && top == env.bufs[0]
      modifies `args, `bottomFrame, `topJmpBuf, `bottomJmpBuf, `status, bottom`prev
      ensures Idle() && status == SUSPENDED && this.args == args
    {
      this.args := args;
      bottom.prev := null;
      bottomFrame := bottom;
      topJmpBuf := top;
      bottomJmpBuf := bottomBuf;
      status := SUSPENDED;
    }

    /** The end of coroutine_main: the value of the block is passed on, and nothing of the segments remains. */
    method Die(retval: Value)
      modifies `args, `status, env`frames, env`bufs
      ensures Idle() && status == DEAD && args == [retval] && env.frames == [] && env.bufs == []
    {
      args := [retval];
      status := DEAD;
      env.frames, env.bufs := [], [];
    }
  }

  /** The contexts from the main program to the innermost of the active coroutines. */
  ghost function At(main: Context, active: seq<Coroutine>, k: nat): Context
    requires k <= |active|
  {
    if k == 0 then main else active[k - 1].env
  }

  ghost function Below(active: seq<Coroutine>, k: nat): Frame?
    requires k <= |active|
    reads active`boundaryFrame
  {
    if k == 0 then null else active[k - 1].boundaryFrame
  }

  ghost function BelowBuf(active: seq<Coroutine>, k: nat): JmpBuf?
    requires k <= |active|
    reads active`prevJmpBuf
  {
    if k == 0 then null else active[k - 1].prevJmpBuf
  }

  /** The jump-buffer list as of level `k`. */
  ghost function Top(main: Context, active: seq<Coroutine>, k: nat): JmpBuf?
    requires k <= |active|
    reads active`prevJmpBuf, At(main, active, k)`bufs
  {
    TopBuf(At(main, active, k).bufs, BelowBuf(active, k))
  }

  /** An active coroutine is based on whoever resumed it, and remembers that one's jump-buffer list. */
  ghost predicate Resumed(main: Context, active: seq<Coroutine>, k: nat)
    requires k < |active|
    reads active, At(main, active, k)
  {
    var c, at := active[k], At(main, active, k);
    && c.status == RUNNING && c.started
    && c.boundaryFrame == at.frame && at.frame != null && at.frames != []
    && c.prevJmpBuf == Top(main, active, k) && c.listOfResumer == Top(main, active, k)
    && c.resumer == if k == 0 then null else active[k - 1]
  }

  ghost function Innermost(active: seq<Coroutine>): Coroutine? {
    if active == [] then null else active[|active| - 1]
  }

  ghost predicate Based(main: Context, active: seq<Coroutine>, k: nat)
    requires k <= |active|
    reads active, At(main, active, k), At(main, active, k).frames`prev, At(main, active, k).frames`owner
    reads At(main, active, k).bufs`prev, At(main, active, k).bufs`owner
  {
    At(main, active, k).Based(Below(active, k), BelowBuf(active, k))
  }

  /** Every level is based on the one below. */
  ghost predicate Levels(main: Context, active: seq<Coroutine>)
    reads *
  {
    && (forall k | 0 <= k <= |active| :: Based(main, active, k))
    && (forall k | 0 <= k < |active| :: Resumed(main, active, k))
  }

  ghost predicate Idlers(active: seq<Coroutine>, coroutines: set<Coroutine>)
    reads *
  {
    forall c | c in coroutines && c !in active :: c.Idle()
  }

  /** The coroutines and their contexts are all different. */
  ghost predicate Different(main: Context, active: seq<Coroutine>, coroutines: set<Coroutine>) {
    && (forall i, j | 0 <= i < j < |active| :: active[i] != active[j])
    && (forall c | c in active :: c in coroutines)
    && (forall c | c in coroutines :: c.env != main)
    && (forall c, d | c in coroutines && d in coroutines && c != d :: c.env != d.env)
  }

  lemma Apart(main: Context, active: seq<Coroutine>, coroutines: set<Coroutine>)
    requires Different(main, active, coroutines)
    ensures forall j, k | 0 <= j < k <= |active| :: At(main, active, j) != At(main, active, k)
    ensures forall c, k | c in coroutines && c !in active && 0 <= k <= |active| :: c.env != At(main, active, k)
  {}

  lemma DifferentMore(main: Context, active: seq<Coroutine>, coroutines: set<Coroutine>, c: Coroutine)
    requires Different(main, active, coroutines) && c in coroutines && c !in active
    ensures Different(main, active + [c], coroutines)
    ensures forall d | d in coroutines && d !in active + [c] :: d !in active && d != c && d.env != c.env
  {}

  /** What is owned by one context is in no other segment. */
  ghost predicate Foreign(x: Context, ctx: Context?)
    reads x, x.frames`owner, x.bufs`owner
  {
    (forall f | f in x.frames :: f.owner != ctx) && (forall b | b in x.bufs :: b.owner != ctx)
  }

  lemma IdleElsewhere(active: seq<Coroutine>, coroutines: set<Coroutine>, ctx: Context?)
    requires Idlers(active, coroutines)
    ensures forall c | c in coroutines && c !in active && c.env != ctx :: Foreign(c.env, ctx)
  {}

  lemma Elsewhere(main: Context, active: seq<Coroutine>, ctx: Context?)
    requires Levels(main, active)
    ensures forall k | 0 <= k <= |active| && At(main, active, k) != ctx :: Foreign(At(main, active, k), ctx)
  {
    forall k | 0 <= k <= |active| && At(main, active, k) != ctx
      ensures Foreign(At(main, active, k), ctx)
    {
      assert Based(main, active, k);
    }
  }

  /** One more active coroutine. */
  lemma OneMore(main: Context, active: seq<Coroutine>, c: Coroutine)
    requires Levels(main, active) && c.env.Based(c.boundaryFrame, c.prevJmpBuf)
    requires c.status == RUNNING && c.started
    requires var at := At(main, active, |active|); c.boundaryFrame == at.frame && at.frame != null && at.frames != []
    requires c.prevJmpBuf == Top(main, active, |active|) && c.listOfResumer == Top(main, active, |active|)
    requires c.resumer == Innermost(active)
    ensures Levels(main, active + [c])
  {
    var act := active + [c];
    forall k | 0 <= k < |act|
      ensures Resumed(main, act, k)
    {
      if k < |active| { assert Resumed(main, active, k); }
    }
    forall k | 0 <= k <= |act|
      ensures Based(main, act, k)
    {
      if k <= |active| { assert Based(main, active, k); }
    }
  }

  /** One active coroutine fewer. */
  lemma OneFewer(main: Context, active: seq<Coroutine>)
    requires Levels(main, active) && active != []
    ensures Levels(main, active[..|active| - 1])
  {
    var act := active[..|active| - 1];
    forall k | 0 <= k < |act|
      ensures Resumed(main, act, k)
    {
      assert Resumed(main, active, k);
    }
    forall k | 0 <= k <= |act|
      ensures Based(main, act, k)
    {
      assert Based(main, active, k);
    }
  }

  /** A context with its segments. */
  ghost function Held(x: Context): set<object>
    reads x
  {
    {x as object} + (set f | f in x.frames) + (set b | b in x.bufs)
  }

  class Thread {
    var jmpBufList: JmpBuf?
    const main: Context
    /** The running coroutine; null while the main program runs. */
    var current: Coroutine?
    /** The coroutines that have been resumed and not yielded, the running one last. */
    ghost var active: seq<Coroutine>
    ghost var coroutines: set<Coroutine>

    constructor ()
      ensures Valid() && current == null && jmpBufList == null && coroutines == {} && active == [] && fresh(Repr())
      ensures main.frames == [] && main.bufs == []
    {
      main := new Context();
      jmpBufList, current := null, null;
      active, coroutines := [], {};
    }

    /** The thread, its coroutines and all their segments. */
    ghost function Repr(): set<object>
      reads this, main, coroutines, set c | c in coroutines :: c.env
    {
      {this as object} + coroutines + Held(main) + (set c, o | c in coroutines && o in Held(c.env) :: o)
    }

    /** Segments lose nothing but what `extra` has, and gain nothing else. */
    twostate lemma Kept(extra: set<object>)
      requires coroutines == old(coroutines)
      requires forall f | f in main.frames :: f in old(main.frames) || f in extra
      requires forall b | b in main.bufs :: b in old(main.bufs) || b in extra
      requires forall c | c in coroutines :: forall f | f in c.env.frames :: f in old(c.env.frames) || f in extra
      requires forall c | c in coroutines :: forall b | b in c.env.bufs :: b in old(c.env.bufs) || b in extra
      ensures Repr() <= old(Repr()) + extra
    {
      forall o | o in Repr()
        ensures o in old(Repr()) + extra
      {
        if o !in {this as object} + coroutines + Held(main) {
          var c :| c in coroutines && o in Held(c.env);
          assert o in old(Held(c.env)) || o in extra;
        }
      }
    }

    ghost predicate Valid()
      reads *
    {
      && Levels(main, active) && Idlers(active, coroutines) && Different(main, active, coroutines)
      && current == Innermost(active)
      && jmpBufList == Top(main, active, |active|)
    }

    /** The context now running. */
    ghost function Running(): Context
      reads this
    {
      At(main, active, |active|)
    }

    method Env() returns (env: Context)
      requires current == Innermost(active)
      ensures env == Running()
    {
      env := if current == null then main else current.env;
    }

    /** The running context on its base. */
    lemma RunningFacts()
      requires Valid()
      ensures Running().Based(Below(active, |active|), BelowBuf(active, |active|))
      ensures Running().frames != [] ==> Running().frame == Running().frames[0] && Running().frame.owner == Running()
      ensures Running().bufs != [] ==> Running().bufs[0].owner == Running()
    {
      assert Based(main, active, |active|);
      Running().TopOwned(Below(active, |active|), BelowBuf(active, |active|));
    }

    /** YogEval_push_frame. */
    method PushFrame(f: Frame)
      requires Valid() && f.owner == null
      modifies Running()`frame, Running()`frames, f`prev, f`owner
      ensures Valid() && Running().frames == [f] + old(Running().frames) && Running().frame == f
      ensures Repr() <= old(Repr()) + {f}
    {
      hide Context.Based, Coroutine.Idle, Thread.Repr, Held;
      Apart(main, active, coroutines);
      Elsewhere(main, active, null);
      IdleElsewhere(active, coroutines, null);
      RunningFacts();
      var env := Env();
      env.PushFrame(f, Below(active, |active|), BelowBuf(active, |active|));
      Kept({f});
    }

    /** YogEval_pop_frame. */
    method PopFrame()
      requires Valid() && Running().frames != []
      modifies Running()`frame, Running()`frames, FrameIn(Running().frame)`owner
      ensures Valid() && Running().frames == old(Running().frames)[1..] && Repr() <= old(Repr())
    {
      hide Context.Based, Coroutine.Idle, Thread.Repr, Held;
      Apart(main, active, coroutines);
      Elsewhere(main, active, Running());
      IdleElsewhere(active, coroutines, Running());
      RunningFacts();
      var env := Env();
      env.PopFrame(Below(active, |active|), BelowBuf(active, |active|));
      Kept({});
    }

    /** PUSH_JMPBUF. */
    method PushJmpBuf(b: JmpBuf)
      requires Valid() && b.owner == null
      modifies this`jmpBufList, b, Running()`bufs
      ensures Valid() && Running().bufs == [b] + old(Running().bufs) && jmpBufList == b && Repr() <= old(Repr()) + {b}
    {
      hide Thread.Valid, Thread.Repr, Held;
      LinkJmpBuf(b);
      TakeJmpBuf(b);
      Kept({b});
    }

    /** A jump buffer of nobody's, linked to the list. */
    method LinkJmpBuf(b: JmpBuf)
      requires Valid() && b.owner == null
      modifies b`prev
      ensures Valid() && b.prev == jmpBufList && b !in Running().bufs
    {
      hide Context.Based, Coroutine.Idle, Different;
      Elsewhere(main, active, null);
      IdleElsewhere(active, coroutines, null);
      RunningFacts();
      Running().OwnOnly(Below(active, |active|), BelowBuf(active, |active|));
      b.prev := jmpBufList;
    }

    /** The list begins with it. */
    method TakeJmpBuf(b: JmpBuf)
      requires Valid() && b.owner == null && b.prev == jmpBufList && b !in Running().bufs
      modifies this`jmpBufList, b`owner, Running()`bufs
      ensures Valid() && Running().bufs == [b] + old(Running().bufs) && jmpBufList == b
    {
      hide Context.Based, Coroutine.Idle;
      Apart(main, active, coroutines);
      Elsewhere(main, active, null);
      IdleElsewhere(active, coroutines, null);
      RunningFacts();
      jmpBufList := b;
      Running().AddBuf(b, Below(active, |active|), BelowBuf(active, |active|));
    }

    /** POP_JMPBUF, of one of the context's own. */
    method PopJmpBuf()
      requires Valid() && Running().bufs != []
      modifies this`jmpBufList, Running()`bufs, BufIn(jmpBufList)`owner
      ensures Valid() && Running().bufs == old(Running().bufs)[1..] && Repr() <= old(Repr())
    {
      hide Context.Based, Coroutine.Idle, Thread.Repr, Held;
      Apart(main, active, coroutines);
      Elsewhere(main, active, Running());
      IdleElsewhere(active, coroutines, Running());
      RunningFacts();
      ghost var b := jmpBufList;
      jmpBufList := jmpBufList.prev;
      Running().DropBuf(b, Below(active, |active|), BelowBuf(active, |active|));
      Kept({});
    }

    /** Coroutine.new. */
    method NewCoroutine() returns (c: Coroutine)
      requires Valid()
      modifies this`coroutines
      ensures Valid() && fresh(c) && fresh(c.env) && coroutines == old(coroutines) + {c} && fresh(Repr() - old(Repr()))
      ensures c.status == SUSPENDED && !c.started && c.args == [] && c.env.frames == [] && c.env.bufs == []
    {
      hide Thread.Valid;
      c := new Coroutine();
      AddCoroutine(c);
    }

    method AddCoroutine(c: Coroutine)
      requires Valid() && c.Idle() && c !in coroutines && c.env != main && forall d | d in coroutines :: d.env != c.env
      modifies this`coroutines
      ensures Valid() && coroutines == old(coroutines) + {c}
    {
      hide Context.Based, Coroutine.Idle;
      coroutines := coroutines + {c};
    }

    lemma IdleFacts(c: Coroutine)
      requires Valid() && c in coroutines && c.status == SUSPENDED
      ensures c !in active && c.Idle()
      ensures c.started ==>
        && c.env.frames != [] && c.env.bufs != [] && c.bottomFrame != null && c.bottomJmpBuf != null
        && c.bottomFrame.owner == c.env && c.bottomJmpBuf.owner == c.env
        && c.env.frame != null && c.env.frame.owner == c.env
        && c.bottomFrame in c.env.frames && c.bottomJmpBuf in c.env.bufs && c.env.frame in c.env.frames
    {
      forall k | 0 <= k < |active| ensures active[k] != c { assert Resumed(main, active, k); }
    }

    /**
     * resume. A coroutine that stopped in yield goes on with its own segments, now based on the resumer; one
     * not begun starts with the block called. The source rejects a dead coroutine only: that the coroutine is
     * not active already is up to the caller.
     */
    method Resume(c: Coroutine, args: seq<Value>) returns (r: Outcome)
      requires Valid() && c in coroutines && c.status != RUNNING && Running().frames != []
      modifies this`jmpBufList, this`current, this`active
      modifies c, c.env`frame, c.Bottom()`prev, c.BottomBuf()`prev, c.TopOf()`multiVal
      ensures Valid() && (r == CoroutineError <==> old(c.status) == DEAD) && Repr() <= old(Repr())
      ensures r == CoroutineError ==>
        active == old(active) && jmpBufList == old(jmpBufList) && current == old(current) && unchanged(c)
      ensures r == Switched ==> active == old(active) + [c] && current == c && c.status == RUNNING && c.started
      ensures r == Switched ==> c.prevJmpBuf == old(jmpBufList) && c.boundaryFrame == old(Running().frame)
      ensures r == Switched && old(c.started) ==>
        c.env.frame == old(c.env.frame) && c.env.frame != null
      ensures r == Switched && old(c.started) && args != [] ==> c.env.frame.multiVal == args
      ensures r == Switched && old(c.started) && args == [] ==> c.env.frame.multiVal == [Nil]
      ensures r == Switched ==> c.args == args && (!old(c.started) ==> jmpBufList == old(jmpBufList))
    {
      if c.status == DEAD {
        return CoroutineError;
      }
      hide *;
      var list := Wake(c, args);
      SwitchTo(c, list);
      Kept({});
      return Switched;
    }

    method SwitchTo(c: Coroutine, list: JmpBuf?)
      requires var act := active + [c];
        Levels(main, act) && Idlers(act, coroutines) && Different(main, act, coroutines)
          && list == Top(main, act, |act|)
      modifies this`jmpBufList, this`current, this`active
      ensures Valid() && active == old(active) + [c] && current == c && jmpBufList == list
    {
      hide Context.Based, Coroutine.Idle, Different;
      jmpBufList := list;
      current := c;
      active := active + [c];
    }

    /** The effect of resume on the coroutine. */
    method Wake(c: Coroutine, args: seq<Value>) returns (list: JmpBuf?)
      requires Valid() && c in coroutines && c.status == SUSPENDED && Running().frames != []
      modifies c, c.env`frame, c.Bottom()`prev, c.BottomBuf()`prev, c.TopOf()`multiVal
      ensures var act := active + [c];
        && Levels(main, act) && Idlers(act, coroutines) && Different(main, act, coroutines)
        && list == Top(main, act, |act|)
      ensures !old(c.started) ==> list == jmpBufList
      ensures c.status == RUNNING && c.started && c.args == args
      ensures c.prevJmpBuf == jmpBufList && c.boundaryFrame == old(Running().frame)
      ensures old(c.started) ==> c.env.frame == old(c.env.frame) && c.env.frame != null
      ensures old(c.started) && args != [] ==> c.env.frame.multiVal == args
      ensures old(c.started) && args == [] ==> c.env.frame.multiVal == [Nil]
    {
      hide Context.Based, Coroutine.Idle, Different, Levels, Idlers, Thread.Repr, Held;
      IdleFacts(c);
      RunningFacts();
      Untouched(c);
      var env := Env();
      list := GoOnAbove(c, env.frame, args);
      OneMore(main, active, c);
    }

    /** The coroutine goes on, and nothing below or beside it changes. */
    method GoOnAbove(c: Coroutine, frame: Frame, args: seq<Value>) returns (list: JmpBuf?)
      requires Valid() && c in coroutines && c.status == SUSPENDED && frame == Running().frame
      modifies c, c.env`frame, c.Bottom()`prev, c.BottomBuf()`prev, c.TopOf()`multiVal
      ensures Levels(main, active) && Idlers(active + [c], coroutines)
      ensures c.env.Based(frame, jmpBufList) && c.status == RUNNING && c.started && c.resumer == current
      ensures c.boundaryFrame == frame && c.prevJmpBuf == jmpBufList && c.listOfResumer == jmpBufList && c.args == args
      ensures list == TopBuf(c.env.bufs, jmpBufList)
      ensures old(c.started) ==> c.env.frame == old(c.env.frame) && c.env.frame != null
      ensures old(c.started) && args != [] ==> c.env.frame.multiVal == args
      ensures old(c.started) && args == [] ==> c.env.frame.multiVal == [Nil]
      ensures !old(c.started) ==> list == jmpBufList
    {
      hide Context.Based, Coroutine.Idle, Different, Thread.Repr, Held;
      IdleFacts(c);
      Untouched(c);
      list := if c.started then c.topJmpBuf else jmpBufList;
      c.GoOn(current, frame, jmpBufList, args);
    }

    lemma Untouched(c: Coroutine)
      requires Valid() && c in coroutines && c !in active
      ensures Different(main, active + [c], coroutines)
      ensures forall k | 0 <= k <= |active| :: At(main, active, k) != c.env && Foreign(At(main, active, k), c.env)
      ensures forall d | d in coroutines && d !in active + [c] ::
        d !in active && d != c && d.env != c.env && Foreign(d.env, c.env)
    {
      Apart(main, active, coroutines);
      Elsewhere(main, active, c.env);
      IdleElsewhere(active, coroutines, c.env);
      DifferentMore(main, active, coroutines, c);
    }

    /** The context of the resumer: its frame is the boundary, and its list the one under the coroutine's own. */
    lemma ResumerFacts()
      requires Valid() && current != null
      ensures active != [] && current == active[|active| - 1] && Resumed(main, active, |active| - 1)
      ensures current.boundaryFrame != null && current.boundaryFrame.owner == At(main, active, |active| - 1)
      ensures At(main, active, |active| - 1) != current.env && current.env == Running()
      ensures At(main, active, |active| - 1).frames != [] && current in coroutines
    {
      var n: nat := |active| - 1;
      assert Based(main, active, n) && Resumed(main, active, n);
      Apart(main, active, coroutines);
    }

    /** No jump buffer of the list at level `k` belongs to a context further in. */
    lemma {:induction false} TopElsewhere(k: nat, x: Context)
      requires Valid() && k <= |active| && forall j | 0 <= j <= k :: At(main, active, j) != x
      ensures Top(main, active, k) != null ==> Top(main, active, k).owner != x
    {
      assert Based(main, active, k);
      if k > 0 && At(main, active, k).bufs == [] {
        assert Resumed(main, active, k - 1);
        TopElsewhere(k - 1, x);
      }
    }

    /** find_bottom_jmp_buf: the walk ends, at the last of the coroutine's own jump buffers. */
    method FindBottomJmpBuf() returns (buf: JmpBuf)
      requires Valid() && current != null && current.env.bufs != []
      ensures buf == current.env.bufs[|current.env.bufs| - 1]
    {
      hide Coroutine.Idle;
      ResumerFacts();
      RunningFacts();
      ghost var n: nat := |active| - 1;
      ghost var bs := current.env.bufs;
      Apart(main, active, coroutines);
      TopElsewhere(n, current.env);
      buf := jmpBufList;
      ghost var i := 0;
      while buf.prev != current.prevJmpBuf
        invariant 0 <= i < |bs| && buf == bs[i]
        decreases |bs| - i
      {
        assert i + 1 < |bs|;
        assert bs[i].prev == bs[i + 1];
        i := i + 1;
        buf := buf.prev;
      }
      if i + 1 < |bs| { current.env.InnerBuf(i, Below(active, n + 1), BelowBuf(active, n + 1)); }
    }

    /** The walk of yield from its frame down to the one above the boundary. */
    method FindBottomFrame() returns (frame: Frame)
      requires Valid() && current != null && current.env.frames != []
      ensures frame == current.env.frames[|current.env.frames| - 1] && frame.owner == current.env
    {
      hide Coroutine.Idle;
      ResumerFacts();
      RunningFacts();
      ghost var fs := current.env.frames;
      ghost var n: nat := |active| - 1;
      frame := current.env.frame;
      ghost var i := 0;
      while frame.prev != current.boundaryFrame
        invariant 0 <= i < |fs| && frame == fs[i]
        decreases |fs| - i
      {
        assert i + 1 < |fs|;
        assert fs[i].prev == fs[i + 1];
        i := i + 1;
        frame := frame.prev;
      }
      assert fs[i] in fs;
      if i + 1 < |fs| { current.env.InnerFrame(i, Below(active, n + 1), BelowBuf(active, n + 1)); }
    }

    /** The switch to whoever resumed the coroutine, and what is left there of resume. */
    method SwitchBack(c: Coroutine)
      requires active != [] && c == active[|active| - 1]
      requires var act := active[..|active| - 1];
        && Levels(main, act) && Idlers(act, coroutines) && Different(main, act, coroutines)
        && c.listOfResumer == Top(main, act, |act|) && c.resumer == Innermost(act) && At(main, act, |act|).frame != null
      modifies this`jmpBufList, this`current, this`active, FrameIn(At(main, active, |active| - 1).frame)`multiVal
      ensures Valid() && active == old(active)[..|old(active)| - 1]
      ensures jmpBufList == c.listOfResumer
      ensures Running().frame != null
      ensures c.args != [] ==> Running().frame.multiVal == c.args
      ensures c.args == [] ==> Running().frame.multiVal == [Nil]
    {
      hide Context.Based, Coroutine.Idle, Different, Returned;
      jmpBufList := c.listOfResumer;
      var env := if c.resumer == null then main else c.resumer.env;
      env.frame.multiVal := Returned(c.args);
      LeaveTo(c);
    }

    method LeaveTo(c: Coroutine)
      requires active != []
      requires var act := active[..|active| - 1];
        && Levels(main, act) && Idlers(act, coroutines) && Different(main, act, coroutines)
        && jmpBufList == Top(main, act, |act|) && c.resumer == Innermost(act)
      modifies this`current, this`active
      ensures Valid() && active == old(active)[..|old(active)| - 1]
    {
      hide Context.Based, Coroutine.Idle, Different;
      current := c.resumer;
      active := active[..|active| - 1];
    }

    /** yield: the segments are cut loose and kept; the resumer goes on with its own list and the values. */
    method Yield(args: seq<Value>)
      requires Valid() && current != null && current.env.frames != [] && current.env.bufs != []
      modifies this`jmpBufList, this`current, this`active
      modifies current`args, current`bottomFrame, current`topJmpBuf, current`bottomJmpBuf, current`status
      modifies (set f | f in current.env.frames)`prev, FrameIn(current.boundaryFrame)`multiVal
      ensures Valid() && active == old(active)[..|old(active)| - 1] && Repr() <= old(Repr())
      ensures old(current).status == SUSPENDED && old(current).started && old(current).args == args
      ensures jmpBufList == old(current.prevJmpBuf)
      ensures Running().frame == old(current.boundaryFrame)
      ensures Running().frame != null
      ensures args != [] ==> Running().frame.multiVal == args
      ensures args == [] ==> Running().frame.multiVal == [Nil]
    {
      hide Context.Based, Coroutine.Idle, Different, Levels, Idlers, Thread.Repr, Held;
      var c := current;
      ResumerFacts();
      Stop(args);
      SwitchBack(c);
      Kept({});
    }

    /** The effect of yield on the coroutine. */
    method Stop(args: seq<Value>)
      requires Valid() && current != null && current.env.frames != [] && current.env.bufs != []
      modifies current`args, current`bottomFrame, current`topJmpBuf, current`bottomJmpBuf, current`status
      modifies (set f | f in current.env.frames)`prev
      ensures active != [] && current == active[|active| - 1] && current.Idle() && current.status == SUSPENDED
      ensures current.args == args && current.started
      ensures var act := active[..|active| - 1];
        && Levels(main, act) && Idlers(act, coroutines) && Different(main, act, coroutines)
        && current.listOfResumer == Top(main, act, |act|) == old(current.prevJmpBuf)
          && current.resumer == Innermost(act)
        && At(main, act, |act|).frame == old(current.boundaryFrame) && old(current.boundaryFrame) != null
    {
      hide *;
      var bottom := FindBottomFrame();
      var bottomBuf := FindBottomJmpBuf();
      StopAt(args, bottom, bottomBuf);
    }

    method StopAt(args: seq<Value>, bottom: Frame, bottomBuf: JmpBuf)
      requires Valid() && current != null && current.env.frames != [] && current.env.bufs != []
      requires bottom == current.env.frames[|current.env.frames| - 1] && bottom.owner == current.env
      requires bottomBuf == current.env.bufs[|current.env.bufs| - 1]
      modifies current`args, current`bottomFrame, current`topJmpBuf, current`bottomJmpBuf, current`status
      modifies bottom`prev
      ensures active != [] && current == active[|active| - 1] && current.Idle() && current.status == SUSPENDED
      ensures current.args == args && current.started
      ensures var act := active[..|active| - 1];
        && Levels(main, act) && Idlers(act, coroutines) && Different(main, act, coroutines)
        && current.listOfResumer == Top(main, act, |act|) == old(current.prevJmpBuf)
          && current.resumer == Innermost(act)
        && At(main, act, |act|).frame == old(current.boundaryFrame) && old(current.boundaryFrame) != null
    {
      hide Context.Based, Coroutine.Idle, Different;
      ResumerFacts();
      RunningFacts();
      UntouchedBelow();
      current.StopIn(args, bottom, bottomBuf, jmpBufList);
    }

    lemma UntouchedBelow()
      requires Valid() && current != null
      ensures active != [] && current == active[|active| - 1]
      ensures var act := active[..|active| - 1];
        && Levels(main, act) && Different(main, act, coroutines)
        && (forall k | 0 <= k <= |act| :: At(main, act, k) != current.env && Foreign(At(main, act, k), current.env))
        && (forall d | d in coroutines && d !in act && d != current ::
              d !in active && d.env != current.env && Foreign(d.env, current.env))
        && (forall k | 0 <= k < |act| :: act[k] != current)
    {
      var act := active[..|active| - 1];
      Apart(main, active, coroutines);
      OneFewer(main, active);
      Elsewhere(main, act, current.env);
      IdleElsewhere(active, coroutines, current.env);
      forall k | 0 <= k <= |act| ensures At(main, act, k) == At(main, active, k) {}
    }

    /** The end of coroutine_main. */
    method Finish(retval: Value)
      requires Valid() && current != null
      modifies this`jmpBufList, this`current, this`active
      modifies current`args, current`status, current.env`frames, current.env`bufs,
        FrameIn(current.boundaryFrame)`multiVal
      ensures Valid() && active == old(active)[..|old(active)| - 1] && Repr() <= old(Repr())
      ensures old(current).status == DEAD && jmpBufList == old(current.prevJmpBuf) && old(current).args == [retval]
      ensures old(current).env.frames == [] && old(current).env.bufs == []
      ensures Running().frame == old(current.boundaryFrame)
      ensures Running().frame != null && Running().frame.multiVal == [retval]
    {
      hide Context.Based, Coroutine.Idle, Different, Levels, Idlers, Thread.Repr, Held;
      ResumerFacts();
      var c := current;
      Over(retval);
      SwitchBack(c);
      Kept({});
    }

    /** The effect of the end on the coroutine. */
    method Over(retval: Value)
      requires Valid() && current != null
      modifies current`args, current`status, current.env`frames, current.env`bufs
      ensures active != [] && current == active[|active| - 1] && current.Idle() && current.status == DEAD
      ensures current.args == [retval] && current.env.frames == [] && current.env.bufs == []
      ensures var act := active[..|active| - 1];
        && Levels(main, act) && Idlers(act, coroutines) && Different(main, act, coroutines)
        && current.listOfResumer == Top(main, act, |act|) == old(current.prevJmpBuf)
        && current.resumer == Innermost(act)
        && At(main, act, |act|).frame == old(current.boundaryFrame) && old(current.boundaryFrame) != null
    {
      hide Context.Based, Coroutine.Idle, Thread.Repr, Held;
      Apart(main, active, coroutines);
      ResumerFacts();
      OneFewer(main, active);
      current.Die(retval);
    }

    /** What one call undoes: a yield followed by a resume of the same coroutine changes nothing but the values. */
    method ResumeUndoesYield(sent: seq<Value>, received: seq<Value>)
      requires Valid() && current != null && current.env.frames != [] && current.env.bufs != []
      modifies this`jmpBufList, this`current, this`active, current, current.env`frame
      modifies (set f | f in current.env.frames), FrameIn(current.boundaryFrame)`multiVal
      modifies (set b | b in current.env.bufs)`prev
      ensures Valid() && current == old(current) && active == old(active) && jmpBufList == old(jmpBufList)
      ensures current.boundaryFrame == old(current.boundaryFrame) && current.prevJmpBuf == old(current.prevJmpBuf)
      ensures current.env.frame == old(current.env.frame)
      ensures current.boundaryFrame != null
      ensures sent != [] ==> current.boundaryFrame.multiVal == sent
      ensures sent == [] ==> current.boundaryFrame.multiVal == [Nil]
      ensures current.env.frame != null
      ensures received != [] ==> current.env.frame.multiVal == received
      ensures received == [] ==> current.env.frame.multiVal == [Nil]
    {
      hide Context.Based, Different, Levels, Idlers, Thread.Repr, Held, Coroutine.Idle, Top, BelowBuf, Below;
      var c := current;
      ResumerFacts();
      RunningFacts();
      Yield(sent);
      IdleFacts(c);
      assert Running() == old(At(main, active, |active| - 1));
      ResumeWaiting(c, received);
    }

    /** A coroutine that waits in a yield goes on with its own segments. */
    method ResumeWaiting(c: Coroutine, args: seq<Value>)
      requires Valid() && c in coroutines && c.status == SUSPENDED && c.started && Running().frames != []
      modifies this`jmpBufList, this`current, this`active
      modifies c, c.env`frame, c.Bottom()`prev, c.BottomBuf()`prev, c.TopOf()`multiVal
      ensures Valid() && active == old(active) + [c] && current == c
      ensures c.env.bufs != [] && jmpBufList == c.env.bufs[0]
      ensures c.prevJmpBuf == old(jmpBufList) && c.boundaryFrame == old(Running().frame)
      ensures c.env.frame == old(c.env.frame) && c.env.frame != null
      ensures args != [] ==> c.env.frame.multiVal == args
      ensures args == [] ==> c.env.frame.multiVal == [Nil]
    {
      hide Context.Based, Coroutine.Idle, Different, Levels, Idlers, Thread.Repr, Held;
      IdleFacts(c);
      var r := Resume(c, args);
    }
  }
}
