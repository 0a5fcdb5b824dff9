/** Runs of the thread: any sequence of calls, resumes, yields and ends of coroutines. */
module CoroutineRuns {
  import opened Coroutines
  import opened CoroutineWorlds

  /** All that a step may change belongs to the thread. */
  lemma Reachable(t: Thread)
    requires t.Valid()
    ensures t in t.Repr() && t.Running() in t.Repr() && t.coroutines <= t.Repr()
    ensures (forall f | f in t.Running().frames :: f in t.Repr()) && (forall b | b in t.Running().bufs :: b in t.Repr())
    ensures t.Running().frames != [] ==> t.Running().frame in t.Repr()
    ensures t.Running().bufs != [] ==> t.jmpBufList in t.Repr()
    ensures t.current != null ==>
      && t.active != [] && t.current == t.active[|t.active| - 1]
      && t.current in t.coroutines && t.current.env == t.Running() && t.current.boundaryFrame != null
      && t.current.boundaryFrame in t.Repr()
  {
    hide Coroutine.Idle;
    t.RunningFacts();
    assert t.Running() == if t.current == null then t.main else t.current.env;
    HeldIn(t, t.Running());
    if t.current != null {
      t.ResumerFacts();
      ghost var at := At(t.main, t.active, |t.active| - 1);
      assert Based(t.main, t.active, |t.active| - 1);
      HeldIn(t, at);
    }
  }

  lemma HeldIn(t: Thread, x: Context)
    requires x == t.main || exists c :: c in t.coroutines && c.env == x
    ensures Held(x) <= t.Repr() && x in Held(x)
    ensures (forall f | f in x.frames :: f in Held(x)) && (forall b | b in x.bufs :: b in Held(x))
  {}

  /** Whether the running context has a frame of its own, as its code can tell. */
  method OwnsFrame(t: Thread) returns (b: bool)
    requires t.Valid()
    ensures b <==> t.Running().frames != []
  {
    hide Coroutine.Idle;
    t.RunningFacts();
    var env := t.Env();
    if t.current == null {
      return env.frame != null;
    }
    t.ResumerFacts();
    return env.frame != t.current.boundaryFrame;
  }

  /** Whether it has a jump buffer of its own. */
  method OwnsJmpBuf(t: Thread) returns (b: bool)
    requires t.Valid()
    ensures b <==> t.Running().bufs != []
  {
    hide Coroutine.Idle;
    t.RunningFacts();
    if t.current == null {
      return t.jmpBufList != null;
    }
    t.ResumerFacts();
    Apart(t.main, t.active, t.coroutines);
    t.TopElsewhere(|t.active| - 1, t.current.env);
    return t.jmpBufList != t.current.prevJmpBuf;
  }

  /** Nothing of a coroutine has changed, and it has not begun to run. */
  twostate predicate Rested(t: Thread, c: Coroutine)
    reads t, c, c.env
  {
    && c in t.coroutines && c !in t.active && c.status == old(c.status) && c.started == old(c.started)
    && c.args == old(c.args) && SameContext(c.env)
  }

  twostate predicate SameContext(x: Context)
    reads x
  {
    x.frame == old(x.frame) && x.frames == old(x.frames) && x.bufs == old(x.bufs)
  }

  /**
   * The contexts below the last coroutine of a chain are as they were, and all its coroutines remember what they
   * did of those that resumed them.
   */
  twostate predicate Waiting(t: Thread, chain: seq<Coroutine>)
    reads t.main, chain, set c | c in chain :: c.env
  {
    && (forall k | 0 <= k < |chain| :: SameContext(At(t.main, chain, k)))
    && (forall c | c in chain :: c.boundaryFrame == old(c.boundaryFrame) && c.prevJmpBuf == old(c.prevJmpBuf))
  }

  /**
   * One coroutine has left the chain, by the step `s`. Those below wait as they did, and the one that resumed it
   * has its own list and frame back, and the values.
   */
  twostate predicate Left(t: Thread, chain: seq<Coroutine>, s: Step)
    requires chain != []
    reads t, t.main, chain, set c | c in chain :: c.env
    reads FrameIn(At(t.main, chain, |chain| - 1).frame)
  {
    var c := chain[|chain| - 1];
    var at := At(t.main, chain, |chain| - 1);
    && t.active == chain[..|chain| - 1] && Waiting(t, chain)
    && t.jmpBufList == old(c.prevJmpBuf) && at == t.Running() && at.frame == old(c.boundaryFrame)
    && at.frame != null && Passed(s, at.frame.multiVal)
    && c.status == if s.End? then DEAD else SUSPENDED
  }

  /** What a resume returns once the coroutine has yielded or ended. */
  predicate Passed(s: Step, values: seq<Value>) {
    || (s.YieldTo? && (s.args != [] ==> values == s.args) && (s.args == [] ==> values == [Nil]))
    || (s.End? && values == [s.retval])
  }

  /** The chain has not become shorter: all that waited, waits as it did. */
  twostate predicate Stayed(t: Thread, chain: seq<Coroutine>)
    reads t, t.main, chain, set c | c in chain :: c.env
  {
    chain <= t.active && Waiting(t, chain)
  }

  /** A call within the running context. */
  method CallStep(t: Thread, ghost cs: seq<Coroutine>, ghost w: World)
    requires t.Valid()
    modifies t.Running()`frame, t.Running()`frames
    ensures t.Valid() && fresh(t.Repr() - old(t.Repr()))
    ensures t.Running().frames != [] && t.Running().frames[1..] == old(t.Running().frames)
    ensures old(Shows(t, cs, w)) ==> Shows(t, cs, Next(w, Call))
  {
    hide Thread.Valid, Thread.Repr;
    if Shows(t, cs, w) { Separate(t, cs, w); }
    var f := new Frame();
    t.PushFrame(f);
    if old(Shows(t, cs, w)) {
      RunningChanged(t, cs, w, Running(w).(values := [[]] + Running(w).values));
    }
  }

  /** A return within the running context, where it has a frame of its own. */
  method ReturnStep(t: Thread, ghost cs: seq<Coroutine>, ghost w: World)
    requires t.Valid()
    modifies t.Running()`frame, t.Running()`frames, (set f | f in t.Running().frames)`owner
    ensures t.Valid() && t.Repr() <= old(t.Repr())
    ensures t.Running().frames == if old(t.Running().frames) == [] then [] else old(t.Running().frames)[1..]
    ensures old(Shows(t, cs, w)) ==> Shows(t, cs, Next(w, CoroutineWorlds.Leave))
  {
    hide Thread.Valid, Thread.Repr;
    if Shows(t, cs, w) { Separate(t, cs, w); }
    t.RunningFacts();
    var b := OwnsFrame(t);
    if b {
      t.PopFrame();
      if old(Shows(t, cs, w)) {
        RunningChanged(t, cs, w, Running(w).(values := Running(w).values[1..]));
      }
    }
  }

  /** A jump buffer set within the running context. */
  method SetStep(t: Thread, ghost cs: seq<Coroutine>, ghost w: World)
    requires t.Valid()
    modifies t`jmpBufList, t.Running()`bufs
    ensures t.Valid() && fresh(t.Repr() - old(t.Repr()))
    ensures t.Running().bufs != [] && t.Running().bufs[1..] == old(t.Running().bufs)
    ensures old(Shows(t, cs, w)) ==> Shows(t, cs, Next(w, CoroutineWorlds.SetJmp))
  {
    hide Thread.Valid, Thread.Repr;
    if Shows(t, cs, w) { Separate(t, cs, w); }
    var b := new JmpBuf();
    t.PushJmpBuf(b);
    if old(Shows(t, cs, w)) {
      RunningChanged(t, cs, w, Running(w).(setjmps := Running(w).setjmps + 1));
    }
  }

  lemma TopOfList(t: Thread)
    requires t.Valid() && t.Running().bufs != []
    ensures t.jmpBufList == t.Running().bufs[0]
  {}

  /** A jump buffer given up, where the running context has one of its own. */
  method UnsetStep(t: Thread, ghost cs: seq<Coroutine>, ghost w: World)
    requires t.Valid()
    modifies t`jmpBufList, t.Running()`bufs, (set b | b in t.Running().bufs)`owner
    ensures t.Valid() && t.Repr() <= old(t.Repr())
    ensures t.Running().bufs == if old(t.Running().bufs) == [] then [] else old(t.Running().bufs)[1..]
    ensures old(Shows(t, cs, w)) ==> Shows(t, cs, Next(w, CoroutineWorlds.UnsetJmp))
  {
    hide Thread.Valid, Thread.Repr;
    if Shows(t, cs, w) { Separate(t, cs, w); }
    Reachable(t);
    t.RunningFacts();
    var b := OwnsJmpBuf(t);
    if b {
      TopOfList(t);
      t.PopJmpBuf();
      if old(Shows(t, cs, w)) {
        RunningChanged(t, cs, w, Running(w).(setjmps := Running(w).setjmps - 1));
      }
    }
  }

  /** A call or return within the running context. */
  method InsideFrame(t: Thread, s: Step, ghost cs: seq<Coroutine>, ghost w: World)
    requires t.Valid() && (s.Call? || s.Leave?)
    modifies t.Repr()
    ensures t.Valid() && fresh(t.Repr() - old(t.Repr())) && t.coroutines == old(t.coroutines)
      && t.active == old(t.active)
    ensures forall c | c in t.coroutines && c !in t.active :: Rested(t, c)
    ensures forall c | c in t.coroutines :: c.status == old(c.status)
    ensures Stayed(t, old(t.active)) && (old(Shows(t, cs, w)) ==> Shows(t, cs, Next(w, s)))
    ensures s.Call? ==> t.Running().frames != [] && t.Running().frames[1..] == old(t.Running().frames)
    ensures s.Leave? ==>
      t.Running().frames == if old(t.Running().frames) == [] then [] else old(t.Running().frames)[1..]
  {
    hide Thread.Valid, Thread.Repr;
    Reachable(t);
    IdleEnvs(t);
    LevelsApart(t);
    if s.Call? {
      CallStep(t, cs, w);
    } else {
      ReturnStep(t, cs, w);
    }
  }

  /** A jump buffer set or given up within the running context. */
  method InsideList(t: Thread, s: Step, ghost cs: seq<Coroutine>, ghost w: World)
    requires t.Valid() && (s.SetJmp? || s.UnsetJmp?)
    modifies t.Repr()
    ensures t.Valid() && fresh(t.Repr() - old(t.Repr())) && t.coroutines == old(t.coroutines)
      && t.active == old(t.active)
    ensures forall c | c in t.coroutines && c !in t.active :: Rested(t, c)
    ensures forall c | c in t.coroutines :: c.status == old(c.status)
    ensures Stayed(t, old(t.active)) && (old(Shows(t, cs, w)) ==> Shows(t, cs, Next(w, s)))
    ensures s.SetJmp? ==> t.Running().bufs != [] && t.Running().bufs[1..] == old(t.Running().bufs)
    ensures s.UnsetJmp? ==> t.Running().bufs == if old(t.Running().bufs) == [] then [] else old(t.Running().bufs)[1..]
  {
    hide Thread.Valid, Thread.Repr;
    Reachable(t);
    IdleEnvs(t);
    LevelsApart(t);
    if s.SetJmp? {
      SetStep(t, cs, w);
    } else {
      UnsetStep(t, cs, w);
    }
  }

  /** The running context is not that of an idle coroutine. */
  lemma IdleEnvs(t: Thread)
    requires t.Valid()
    ensures forall c | c in t.coroutines && c !in t.active ::
      c.env != t.Running() && c != t.current && c.status != RUNNING
    ensures forall c | c in t.active :: c in t.coroutines && c.status == RUNNING
  {
    Apart(t.main, t.active, t.coroutines);
    forall c | c in t.active
      ensures c.status == RUNNING
    {
      var k :| 0 <= k < |t.active| && t.active[k] == c;
      assert Resumed(t.main, t.active, k);
    }
  }

  /** The contexts that wait are not the running one. */
  lemma LevelsApart(t: Thread)
    requires t.Valid()
    ensures forall k | 0 <= k < |t.active| :: At(t.main, t.active, k) != t.Running()
  {
    Apart(t.main, t.active, t.coroutines);
  }

  /** Where it is possible, the coroutine runs, and if it had begun its yield returns the values. */
  twostate predicate ResumedOrNot(t: Thread, c: Coroutine, args: seq<Value>)
    reads *
  {
    if old(c.status) == SUSPENDED && old(t.Running().frames) != [] then
      && t.active == old(t.active) + [c] && t.current == c && c.status == RUNNING && c.args == args
      && c.boundaryFrame == old(t.Running().frame)
      && (old(c.started) ==>
            && c.env.frame != null && (args != [] ==> c.env.frame.multiVal == args)
            && (args == [] ==> c.env.frame.multiVal == [Nil]))
    else t.active == old(t.active)
  }

  /** A resume, where it is possible: of a coroutine that is not active, by a context with a frame of its own. */
  method ResumeStep(t: Thread, c: Coroutine, args: seq<Value>, ghost cs: seq<Coroutine>, ghost k: nat, ghost w: World)
    requires t.Valid() && c in t.coroutines && k < |cs| && cs[k] == c
    modifies t.Repr()
    ensures t.Valid() && t.Repr() <= old(t.Repr()) && t.coroutines == old(t.coroutines)
    ensures forall d | d in t.coroutines && d !in old(t.active) && d != c :: Rested(t, d)
    ensures forall d | d in t.coroutines && old(d.status) == DEAD :: d.status == DEAD
    ensures Stayed(t, old(t.active))
    ensures ResumedOrNot(t, c, args) && (old(Shows(t, cs, w)) ==> Shows(t, cs, Next(w, ResumeOne(k, args))))
  {
    hide Thread.Valid, Thread.Repr, Held, Shows, Next;
    Reachable(t);
    IdleEnvs(t);
    if Shows(t, cs, w) && (t.Running().frames == [] || c.status != SUSPENDED) {
      NoResume(t, cs, w, k, args);
    }
    var b := OwnsFrame(t);
    if b && c.status == SUSPENDED { ResumeNow(t, c, args, cs, k, w); }
  }

  method ResumeNow(t: Thread, c: Coroutine, args: seq<Value>, ghost cs: seq<Coroutine>, ghost k: nat, ghost w: World)
    requires t.Valid() && c in t.coroutines && c.status == SUSPENDED && t.Running().frames != []
    requires k < |cs| && cs[k] == c
    modifies t.Repr()
    ensures t.Valid() && t.Repr() <= old(t.Repr()) && t.coroutines == old(t.coroutines)
    ensures forall d | d in t.coroutines && d !in old(t.active) && d != c :: Rested(t, d)
    ensures forall d | d in t.coroutines && old(d.status) == DEAD :: d.status == DEAD
    ensures Stayed(t, old(t.active))
    ensures old(t.Running().frames) != [] && ResumedOrNot(t, c, args)
    ensures old(Shows(t, cs, w)) ==> Shows(t, cs, Next(w, ResumeOne(k, args)))
  {
    hide Thread.Valid, Thread.Repr, Held, Shows, Next;
    Reachable(t);
    IdleEnvs(t);
    OtherEnvs(t, c);
    ResumeShown(t, c, args, cs, k, w);
  }

  /** A resume, followed in the world. */
  method ResumeShown(t: Thread, c: Coroutine, args: seq<Value>, ghost cs: seq<Coroutine>, ghost k: nat, ghost w: World)
    requires t.Valid() && c in t.coroutines && c.status == SUSPENDED && t.Running().frames != []
    modifies t`jmpBufList, t`current, t`active
    modifies c, c.env`frame, c.Bottom()`prev, c.BottomBuf()`prev, c.TopOf()`multiVal
    ensures t.Valid() && t.Repr() <= old(t.Repr())
    ensures t.active == old(t.active) + [c] && c.status == RUNNING && c.started && t.current == c
    ensures c.prevJmpBuf == old(t.jmpBufList) && c.boundaryFrame == old(t.Running().frame)
    ensures c.args == args && (!old(c.started) ==> t.jmpBufList == old(t.jmpBufList))
    ensures old(c.started) ==>
      && c.env.frame == old(c.env.frame) && c.env.frame != null
      && (args != [] ==> c.env.frame.multiVal == args) && (args == [] ==> c.env.frame.multiVal == [Nil])
    ensures k < |cs| && cs[k] == c && old(Shows(t, cs, w)) ==> Shows(t, cs, Next(w, ResumeOne(k, args)))
  {
    hide Thread.Valid, Thread.Repr, Held, Coroutine.Idle, Coroutine.TopOf, CoShown, Given, Next, Corresponds, Proper,
      Running;
    if k < |cs| && cs[k] == c && Shows(t, cs, w) {
      TopApart(t, cs, w, k);
      Shown(cs[k], w.cos[k]);
      ResumePossible(w, k, args);
    }
    ghost var was := t.active;
    var r := t.Resume(c, args);
    if k < |cs| && cs[k] == c && old(Shows(t, cs, w)) {
      ghost var d := Co(RUNNING, true, args, if w.cos[k].started then Given(w.cos[k].place, args) else w.cos[k].place);
      if w.cos[k].started { GivenShown(c.env, w.cos[k].place, args); }
      ResumedShown(t, cs, w, k, d, was);
    }
  }

  lemma OtherEnvs(t: Thread, c: Coroutine)
    requires t.Valid() && c in t.coroutines
    ensures c.env != t.main && forall d | d in t.coroutines && d != c :: d.env != c.env
    ensures c.env in t.Repr() && c.Bottom() <= t.Repr() && c.BottomBuf() <= t.Repr() && c.TopOf() <= t.Repr()
  {
    HeldIn(t, c.env);
    if c.status == SUSPENDED { t.IdleFacts(c); }
  }

  /** A yield, where it is possible: by a coroutine with a frame and a jump buffer of its own. */
  method YieldStep(t: Thread, args: seq<Value>, ghost cs: seq<Coroutine>, ghost w: World)
    requires t.Valid()
    modifies t.Repr()
    ensures t.Valid() && t.Repr() <= old(t.Repr()) && t.coroutines == old(t.coroutines)
    ensures forall d | d in t.coroutines && d !in old(t.active) :: Rested(t, d)
    ensures forall d | d in t.coroutines && old(d.status) == DEAD :: d.status == DEAD
    ensures if old(t.current != null && t.Running().frames != [] && t.Running().bufs != [])
            then old(t.active) != [] && Left(t, old(t.active), YieldTo(args))
            else t.active == old(t.active) && Stayed(t, old(t.active))
    ensures old(Shows(t, cs, w)) ==> Shows(t, cs, Next(w, YieldTo(args)))
  {
    hide Thread.Valid, Thread.Repr, Held, Shows, Next, Passed;
    Reachable(t);
    IdleEnvs(t);
    if Shows(t, cs, w) && (t.current == null || t.Running().frames == [] || t.Running().bufs == []) {
      NotPossible(t, cs, w, YieldTo(args));
    }
    if t.current == null { return; }
    var frame := OwnsFrame(t);
    var buf := OwnsJmpBuf(t);
    if frame && buf { YieldNow(t, args, cs, w); }
  }

  method YieldNow(t: Thread, args: seq<Value>, ghost cs: seq<Coroutine>, ghost w: World)
    requires t.Valid() && t.current != null && t.Running().frames != [] && t.Running().bufs != []
    modifies t.Repr()
    ensures t.Valid() && t.Repr() <= old(t.Repr()) && t.coroutines == old(t.coroutines)
    ensures forall d | d in t.coroutines && d !in old(t.active) :: Rested(t, d)
    ensures forall d | d in t.coroutines && old(d.status) == DEAD :: d.status == DEAD
    ensures old(t.active) != [] && Left(t, old(t.active), YieldTo(args))
    ensures old(Shows(t, cs, w)) ==> Shows(t, cs, Next(w, YieldTo(args)))
  {
    hide Thread.Valid, Thread.Repr, Held, Shows, Next;
    Reachable(t);
    IdleEnvs(t);
    LevelsApart(t);
    OtherEnvs(t, t.current);
    YieldShown(t, args, cs, w);
  }

  /** A yield, followed in the world. */
  method YieldShown(t: Thread, args: seq<Value>, ghost cs: seq<Coroutine>, ghost w: World)
    requires t.Valid() && t.current != null && t.Running().frames != [] && t.Running().bufs != []
    requires t.current.env == t.Running()
    modifies t`jmpBufList, t`current, t`active
    modifies t.current`args, t.current`bottomFrame, t.current`topJmpBuf, t.current`bottomJmpBuf, t.current`status
    modifies (set f | f in t.current.env.frames)`prev, FrameIn(t.current.boundaryFrame)`multiVal
    ensures t.Valid() && t.active == old(t.active)[..|old(t.active)| - 1] && t.Repr() <= old(t.Repr())
    ensures old(t.current).status == SUSPENDED && old(t.current).started && t.jmpBufList == old(t.current.prevJmpBuf)
    ensures t.Running().frame == old(t.current.boundaryFrame) && t.Running().frame != null
    ensures args != [] ==> t.Running().frame.multiVal == args
    ensures args == [] ==> t.Running().frame.multiVal == [Nil]
    ensures old(Shows(t, cs, w)) ==> Shows(t, cs, Next(w, YieldTo(args)))
  {
    hide Thread.Valid, Thread.Repr, Held, Coroutine.Idle, Given, Stopped, CoShown, Next, Corresponds, Proper,
      Running;
    ghost var was := t.active;
    if Shows(t, cs, w) {
      Enabled(t, cs, w);
      BoundaryApart(t, cs, w);
      Possible(w, args, Nil);
      Shown(t.current, w.cos[w.active[|w.active| - 1]]);
      if Under(w) >= 0 { Shown(cs[Under(w)], w.cos[Under(w)]); }
    }
    t.Yield(args);
    if old(Shows(t, cs, w)) {
      ghost var k := w.active[|w.active| - 1];
      ghost var d := w.cos[k].(status := SUSPENDED, args := args);
      GivenShown(UnderContext(t, cs, w), UnderPlace(w), args);
      StoppedShown(t, cs, w, d, args, was);
    }
  }

  /** The end of a coroutine; the main program has none. */
  method EndStep(t: Thread, retval: Value, ghost cs: seq<Coroutine>, ghost w: World)
    requires t.Valid()
    modifies t.Repr()
    ensures t.Valid() && t.Repr() <= old(t.Repr()) && t.coroutines == old(t.coroutines)
    ensures forall d | d in t.coroutines && d !in old(t.active) :: Rested(t, d)
    ensures forall d | d in t.coroutines && old(d.status) == DEAD :: d.status == DEAD
    ensures if old(t.current != null) then old(t.active) != [] && Left(t, old(t.active), End(retval))
            else t.active == old(t.active) && Stayed(t, old(t.active))
    ensures old(Shows(t, cs, w)) ==> Shows(t, cs, Next(w, End(retval)))
  {
    hide Thread.Valid, Thread.Repr, Held, Shows, Next;
    Reachable(t);
    IdleEnvs(t);
    LevelsApart(t);
    if Shows(t, cs, w) && t.current == null { NotPossible(t, cs, w, End(retval)); }
    if t.current == null { return; }
    OtherEnvs(t, t.current);
    EndShown(t, retval, cs, w);
  }

  /** The end of a coroutine, followed in the world. */
  method EndShown(t: Thread, retval: Value, ghost cs: seq<Coroutine>, ghost w: World)
    requires t.Valid() && t.current != null
    modifies t`jmpBufList, t`current, t`active
    modifies t.current`args, t.current`status, t.current.env`frames, t.current.env`bufs
    modifies FrameIn(t.current.boundaryFrame)`multiVal
    ensures t.Valid() && t.active == old(t.active)[..|old(t.active)| - 1] && t.Repr() <= old(t.Repr())
    ensures old(t.current).status == DEAD && t.jmpBufList == old(t.current.prevJmpBuf)
    ensures t.Running().frame == old(t.current.boundaryFrame) && t.Running().frame != null
    ensures t.Running().frame.multiVal == [retval]
    ensures old(Shows(t, cs, w)) ==> Shows(t, cs, Next(w, End(retval)))
  {
    hide Thread.Valid, Thread.Repr, Held, Coroutine.Idle, Given, Stopped, CoShown, Next, Corresponds, Proper,
      Running;
    ghost var was := t.active;
    if Shows(t, cs, w) {
      Enabled(t, cs, w);
      BoundaryApart(t, cs, w);
      Possible(w, [], retval);
      Shown(t.current, w.cos[w.active[|w.active| - 1]]);
      if Under(w) >= 0 { Shown(cs[Under(w)], w.cos[Under(w)]); }
    }
    t.Finish(retval);
    if old(Shows(t, cs, w)) {
      ghost var d := Co(DEAD, true, [retval], Place([], 0));
      GivenShown(UnderContext(t, cs, w), UnderPlace(w), [retval]);
      StoppedShown(t, cs, w, d, [retval], was);
    }
  }

  /** A coroutine made. */
  method CreateStep(t: Thread, ghost cs: seq<Coroutine>, ghost w: World) returns (c: Coroutine)
    requires t.Valid()
    modifies t`coroutines
    ensures t.Valid() && fresh(c) && fresh(c.env) && t.coroutines == old(t.coroutines) + {c}
    ensures fresh(t.Repr() - old(t.Repr())) && c.status == SUSPENDED
    ensures old(Shows(t, cs, w)) ==> Shows(t, cs + [c], Next(w, Create))
  {
    hide Thread.Valid, Thread.Repr, Held, PlaceShown;
    if Shows(t, cs, w) { Separate(t, cs, w); }
    c := t.NewCoroutine();
    NothingShown(c.env);
  }

  /** One step; what is not possible is left out. */
  method Do(t: Thread, cs: seq<Coroutine>, s: Step, ghost w: World) returns (now: seq<Coroutine>)
    requires t.Valid() && forall c | c in cs :: c in t.coroutines
    modifies t.Repr()
    ensures t.Valid() && fresh(t.Repr() - old(t.Repr())) && old(t.coroutines) <= t.coroutines
    ensures cs <= now && (forall c | c in now[|cs|..] :: fresh(c)) && forall c | c in now :: c in t.coroutines
    ensures forall c | c in old(t.coroutines) && c !in old(t.active) && !Targets(s, cs, c) :: Rested(t, c)
    ensures forall c | c in old(t.coroutines) && old(c.status) == DEAD :: c.status == DEAD
    ensures if old(Leaves(t, s)) then old(t.active) != [] && Left(t, old(t.active), s) else Stayed(t, old(t.active))
    ensures Did(t, cs, s, now) && (old(Shows(t, cs, w)) ==> Shows(t, now, Next(w, s)))
  {
    hide Thread.Valid, Thread.Repr, Shows, Next, Passed;
    Reachable(t);
    IdleEnvs(t);
    now := cs;
    match s
    case Create =>
      var c := CreateStep(t, cs, w);
      now := cs + [c];
    case ResumeOne(k, args) =>
      if k < |cs| { ResumeStep(t, cs[k], args, cs, k, w); } else if Shows(t, cs, w) { NoneToResume(t, cs, w, s); }
    case YieldTo(args) => YieldStep(t, args, cs, w);
    case End(retval) => EndStep(t, retval, cs, w);
    case Call => InsideFrame(t, s, cs, w);
    case Leave => InsideFrame(t, s, cs, w);
    case SetJmp => InsideList(t, s, cs, w);
    case UnsetJmp => InsideList(t, s, cs, w);
  }

  /** What a step that is possible does to the running context, and which coroutines are active. */
  twostate predicate Did(t: Thread, cs: seq<Coroutine>, s: Step, new now: seq<Coroutine>)
    reads *
  {
    && (s.Create? ==> |now| == |cs| + 1 && now[|cs|] in t.coroutines && now[|cs|].status == SUSPENDED)
    && (!s.Create? ==> now == cs)
    && (s.Call? ==> t.Running().frames != [] && t.Running().frames[1..] == old(t.Running().frames))
    && (s.Leave? ==>
          t.Running().frames == if old(t.Running().frames) == [] then [] else old(t.Running().frames)[1..])
    && (s.SetJmp? ==> t.Running().bufs != [] && t.Running().bufs[1..] == old(t.Running().bufs))
    && (s.UnsetJmp? ==> t.Running().bufs == if old(t.Running().bufs) == [] then [] else old(t.Running().bufs)[1..])
    && (if s.ResumeOne? && s.k < |cs| then ResumedOrNot(t, cs[s.k], s.args)
        else if old(Leaves(t, s)) then old(t.active) != [] && t.active == old(t.active)[..|old(t.active)| - 1]
        else t.active == old(t.active))
  }

  /** The step ends the running coroutine, or stops it in a yield. */
  ghost predicate Leaves(t: Thread, s: Step)
    reads t, t.Running()
  {
    t.current != null && (s.End? || (s.YieldTo? && t.Running().frames != [] && t.Running().bufs != []))
  }

  predicate Targets(s: Step, cs: seq<Coroutine>, c: Coroutine) {
    s.ResumeOne? && s.k < |cs| && cs[s.k] == c
  }

  /** None of the steps resumes the coroutine. */
  predicate Unnamed(steps: seq<Step>, cs: seq<Coroutine>, c: Coroutine) {
    forall s | s in steps :: !Targets(s, cs, c)
  }

  /**
   * Any run, from any valid state. Coroutines that are not active and not resumed keep their segments, and a
   * dead one stays dead. The linked frames and jump buffers show at the end what the steps mean without them.
   */
  method Run(t: Thread, known: seq<Coroutine>, steps: seq<Step>, ghost w: World) returns (cs: seq<Coroutine>)
    requires t.Valid() && forall c | c in known :: c in t.coroutines
    modifies t.Repr()
    ensures t.Valid() && fresh(t.Repr() - old(t.Repr())) && old(t.coroutines) <= t.coroutines
    ensures known <= cs && forall c | c in cs :: c in t.coroutines
    ensures forall c | c in old(t.coroutines) && c !in old(t.active) && Unnamed(steps, known, c) :: Rested(t, c)
    ensures forall c | c in old(t.coroutines) && old(c.status) == DEAD :: c.status == DEAD
    ensures old(Shows(t, known, w)) ==> Shows(t, cs, After(w, steps))
  {
    hide Thread.Valid, Thread.Repr, Shows, Next, After;
    cs := known;
    ShowsProper(t, known, w);
    if Proper(w) { AfterAll(w, steps); }
    for i := 0 to |steps|
      invariant t.Valid() && fresh(t.Repr() - old(t.Repr())) && old(t.coroutines) <= t.coroutines
      invariant known <= cs && (forall c | c in cs[|known|..] :: fresh(c)) && forall c | c in cs :: c in t.coroutines
      invariant forall c | c in old(t.coroutines) && c !in old(t.active)
        && Unnamed(steps[..i], known, c) :: Rested(t, c)
      invariant forall c | c in old(t.coroutines) && old(c.status) == DEAD :: c.status == DEAD
      invariant old(Shows(t, known, w)) ==> Proper(w) && Shows(t, cs, After(w, steps[..i]))
    {
      if Proper(w) { AfterNext(w, steps, i); }
      ghost var before, mid := cs, t.Repr();
      assert fresh(mid - old(t.Repr()));
      label L:
      cs := Do(t, cs, steps[i], if Proper(w) then After(w, steps[..i]) else w);
      forall o | o in t.Repr() && o !in old(t.Repr())
        ensures fresh(o)
      {
        assert if o in mid then o in mid - old(t.Repr()) else o in t.Repr() - mid && fresh@L(o);
      }
      assert cs[|known|..] == before[|known|..] + cs[|before|..];
      assert steps[..i + 1] == steps[..i] + [steps[i]];
      forall c | c in old(t.coroutines) && c !in old(t.active) && Unnamed(steps[..i + 1], known, c)
        ensures Rested(t, c)
      {
        assert steps[i] in steps[..i + 1];
        assert !Targets(steps[i], before, c) by {
          if steps[i].ResumeOne? && steps[i].k < |before| {
            if steps[i].k < |known| {
              assert !Targets(steps[i], known, c);
              assert before[steps[i].k] == known[steps[i].k];
            } else {
              assert before[steps[i].k] in before[|known|..];
            }
          }
        }
      }
    }
    assert steps[..|steps|] == steps;
  }

  /** A run from the start. */
  method RunProgram(steps: seq<Step>) returns (t: Thread, cs: seq<Coroutine>)
    ensures t.Valid() && Shows(t, cs, After(World(Place([], 0), [], []), steps))
  {
    hide Thread.Valid, Thread.Repr, Next, After;
    t := new Thread();
    cs := Run(t, [], steps, World(Place([], 0), [], []));
  }

  /** One step, seen from a chain of coroutines that are active: none of them leaves, or the last one does. */
  method DoUnder(t: Thread, cs: seq<Coroutine>, s: Step, ghost chain: seq<Coroutine>, ghost w: World)
    returns (now: seq<Coroutine>)
    requires t.Valid() && chain != [] && chain <= t.active && forall c | c in cs :: c in t.coroutines
    modifies t.Repr()
    ensures t.Valid() && fresh(t.Repr() - old(t.Repr())) && old(t.coroutines) <= t.coroutines
    ensures cs <= now && forall c | c in now :: c in t.coroutines
    ensures Stayed(t, chain) || Left(t, chain, s)
    ensures old(Shows(t, cs, w)) ==> Shows(t, now, Next(w, s))
  {
    hide Thread.Valid, Thread.Repr, Rested, Targets, Passed, Shows, Next;
    now := Do(t, cs, s, w);
    forall k | 0 <= k < |chain|
      ensures SameContext(At(t.main, chain, k))
    {
      assert At(t.main, chain, k) == At(t.main, old(t.active), k);
    }
  }

  /**
   * Any run from any valid state, until the coroutine running at first has yielded or ended. Whatever was called,
   * resumed, yielded or ended in between, all contexts below it wait as they did; and when it leaves, the one that
   * resumed it has its own list, frame and segments back, and the values of the last step.
   */
  method RunBack(t: Thread, known: seq<Coroutine>, steps: seq<Step>, ghost w: World)
    returns (cs: seq<Coroutine>, done: nat)
    requires t.Valid() && t.current != null && forall c | c in known :: c in t.coroutines
    modifies t.Repr()
    ensures t.Valid() && fresh(t.Repr() - old(t.Repr())) && old(t.coroutines) <= t.coroutines
    ensures known <= cs && forall c | c in cs :: c in t.coroutines
    ensures old(t.active) != [] && done <= |steps|
    ensures if old(t.current).status == RUNNING then done == |steps| && Stayed(t, old(t.active))
            else done > 0 && Left(t, old(t.active), steps[done - 1])
    ensures old(Shows(t, known, w)) ==> Shows(t, cs, After(w, steps[..done]))
  {
    hide Thread.Valid, Thread.Repr, Rested, Targets, Passed, Shows, Next, After;
    ShowsProper(t, known, w);
    if Proper(w) { AfterAll(w, steps); }
    Reachable(t);
    IdleEnvs(t);
    var first := t.current;
    ghost var chain := t.active;
    assert first in chain;
    cs, done := known, 0;
    while done < |steps| && first.status == RUNNING
      invariant t.Valid() && fresh(t.Repr() - old(t.Repr())) && old(t.coroutines) <= t.coroutines
      invariant known <= cs && (forall c | c in cs :: c in t.coroutines) && done <= |steps|
      invariant Stayed(t, chain) || (done > 0 && Left(t, chain, steps[done - 1]))
      invariant first.status == RUNNING <==> Stayed(t, chain)
      invariant old(Shows(t, known, w)) ==> Proper(w) && Shows(t, cs, After(w, steps[..done]))
    {
      if Proper(w) { AfterNext(w, steps, done); }
      ghost var mid := t.Repr();
      assert fresh(mid - old(t.Repr()));
      label L:
      cs := DoUnder(t, cs, steps[done], chain, if Proper(w) then After(w, steps[..done]) else w);
      forall o | o in t.Repr() && o !in old(t.Repr())
        ensures fresh(o)
      {
        assert if o in mid then o in mid - old(t.Repr()) else o in t.Repr() - mid && fresh@L(o);
      }
      done := done + 1;
      IdleEnvs(t);
      forall k | 0 <= k < |chain|
        ensures SameContext(At(t.main, chain, k))
      {
        assert SameContext@L(At(t.main, chain, k));
      }
    }
  }

  /** A resume: the contexts up to the resumer wait as they are, and the coroutine remembers the resumer's. */
  method ResumeOnTop(t: Thread, c: Coroutine, args: seq<Value>, ghost cs: seq<Coroutine>, ghost k: nat, ghost w: World)
    requires t.Valid() && c in t.coroutines && c.status == SUSPENDED && t.Running().frames != []
    modifies t.Repr()
    ensures t.Valid() && t.Repr() <= old(t.Repr()) && t.coroutines == old(t.coroutines)
    ensures t.active == old(t.active) + [c] && t.current == c && c.status == RUNNING
    ensures Waiting(t, old(t.active)) && SameContext(old(t.Running())) && old(t.Running()) != c.env
    ensures c.prevJmpBuf == old(t.jmpBufList) && c.boundaryFrame == old(t.Running().frame)
    ensures old(c.started) ==> SameContext(c.env) && c.env.frame != null
    ensures old(c.started) && args != [] ==> c.env.frame.multiVal == args
    ensures old(c.started) && args == [] ==> c.env.frame.multiVal == [Nil]
    ensures !old(c.started) ==> c.args == args && t.jmpBufList == old(t.jmpBufList)
    ensures k < |cs| && cs[k] == c && old(Shows(t, cs, w)) ==> Shows(t, cs, Next(w, ResumeOne(k, args)))
  {
    hide Thread.Valid, Thread.Repr, Held, Shows, Next;
    Reachable(t);
    IdleEnvs(t);
    OtherEnvs(t, c);
    LevelsApart(t);
    ResumeShown(t, c, args, cs, k, w);
  }

  /**
   * A resume, and any run after it. If the coroutine has left by the end, the resumer runs again with its own list,
   * frame and segments, and has the values; if not, it still waits with them.
   */
  method ResumeAndRun(t: Thread, c: Coroutine, args: seq<Value>, known: seq<Coroutine>, steps: seq<Step>, ghost k: nat,
                      ghost w: World)
    returns (cs: seq<Coroutine>, done: nat)
    requires t.Valid() && c in t.coroutines && c.status == SUSPENDED && t.Running().frames != []
    requires forall d | d in known :: d in t.coroutines
    modifies t.Repr()
    ensures t.Valid() && fresh(t.Repr() - old(t.Repr())) && done <= |steps|
    ensures Waiting(t, old(t.active)) && SameContext(old(t.Running()))
    ensures c.status == RUNNING ==> done == |steps| && old(t.active) + [c] <= t.active
    ensures c.status != RUNNING ==>
      && done > 0 && t.active == old(t.active) && t.Running() == old(t.Running()) && t.jmpBufList == old(t.jmpBufList)
      && t.Running().frame != null && Passed(steps[done - 1], t.Running().frame.multiVal)
    ensures known <= cs && forall d | d in cs :: d in t.coroutines
    ensures k < |known| && known[k] == c && old(Shows(t, known, w)) ==>
      Shows(t, cs, After(Next(w, ResumeOne(k, args)), steps[..done]))
  {
    hide Thread.Valid, Thread.Repr, Held, Passed, Shows, Next, After;
    ShowsProper(t, known, w);
    ghost var chain := t.active + [c];
    assert At(t.main, chain, |t.active|) == t.Running();
    assert forall k | 0 <= k < |t.active| :: At(t.main, chain, k) == At(t.main, t.active, k);
    ResumeOnTop(t, c, args, known, k, w);
    ghost var mid := t.Repr();
    label L:
    cs, done := RunBack(t, known, steps, if Proper(w) then Next(w, ResumeOne(k, args)) else w);
    forall o | o in t.Repr() && o !in old(t.Repr())
      ensures fresh(o)
    {
      assert o in t.Repr() - mid && fresh@L(o);
    }
    forall k | 0 <= k < |chain|
      ensures SameContext(At(t.main, chain, k))
    {
      assert SameContext@L(At(t.main, chain, k));
    }
  }

  /**
   * A yield, any run that does not resume the coroutine, and the next resume, by whichever context runs then. The
   * coroutine goes on with the frame and segments it yielded with, now on top of that context, and has the values.
   */
  method YieldAndWait(t: Thread, args: seq<Value>, known: seq<Coroutine>, steps: seq<Step>, received: seq<Value>,
                      ghost k: nat, ghost w: World)
    returns (resumed: bool, cs: seq<Coroutine>)
    requires t.Valid() && t.current != null && t.Running().frames != [] && t.Running().bufs != []
    requires (forall d | d in known :: d in t.coroutines) && Unnamed(steps, known, t.current)
    modifies t.Repr()
    ensures t.Valid() && fresh(t.Repr() - old(t.Repr()))
    ensures SameContext(old(t.Running()))
    ensures if resumed then t.current == old(t.current) && t.Running() == old(t.Running()) else t.Running().frames == []
    ensures resumed ==> t.Running().frame != null
    ensures resumed && received != [] ==> t.Running().frame.multiVal == received
    ensures resumed && received == [] ==> t.Running().frame.multiVal == [Nil]
    ensures known <= cs && forall d | d in cs :: d in t.coroutines
    ensures k < |known| && known[k] == old(t.current) && old(Shows(t, known, w)) ==>
      var v := After(Next(w, YieldTo(args)), steps);
      Shows(t, cs, if resumed then Next(v, ResumeOne(k, received)) else v)
  {
    hide Thread.Valid, Thread.Repr, Held, Shows, Next, After;
    ShowsProper(t, known, w);
    ghost var v := if Proper(w) then Next(w, YieldTo(args)) else w;
    Reachable(t);
    IdleEnvs(t);
    var c := t.current;
    YieldShown(t, args, known, w);
    IdleEnvs(t);
    ghost var mid := t.Repr();
    label L:
    cs := Run(t, known, steps, v);
    forall o | o in t.Repr() && o !in old(t.Repr())
      ensures fresh(o)
    {
      assert o in t.Repr() - mid && fresh@L(o);
    }
    resumed := OwnsFrame(t);
    if resumed {
      ResumeOnTop(t, c, received, cs, k, if Proper(v) then After(v, steps) else v);
      Reachable(t);
    }
  }
}
