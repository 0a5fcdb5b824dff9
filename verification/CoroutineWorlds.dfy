/** What calls, resumes, yields and ends of coroutines mean, without frames, jump buffers and links between them. */
module CoroutineWorlds {
  import opened Coroutines

  /** What the running context can do next. Coroutines are given by their number. */
  datatype Step =
    | Call | Leave | SetJmp | UnsetJmp
    | Create | ResumeOne(k: nat, args: seq<Value>) | YieldTo(args: seq<Value>) | End(retval: Value)

  /** A place of execution: what each call now running has been returned, the newest first, and the setjmps. */
  datatype Place = Place(values: seq<seq<Value>>, setjmps: nat)

  datatype Co = Co(status: Status, started: bool, args: seq<Value>, place: Place)

  /** The main program, all coroutines, and the numbers of those resumed and not yielded, the running one last. */
  datatype World = World(main: Place, cos: seq<Co>, active: seq<nat>)

  predicate Proper(w: World) {
    forall i | 0 <= i < |w.active| :: w.active[i] < |w.cos|
  }

  function Running(w: World): Place
    requires Proper(w)
  {
    if w.active == [] then w.main else w.cos[w.active[|w.active| - 1]].place
  }

  function WithRunning(w: World, p: Place): World
    requires Proper(w)
  {
    if w.active == [] then w.(main := p)
    else var k := w.active[|w.active| - 1]; w.(cos := w.cos[k := w.cos[k].(place := p)])
  }

  /** The newest call returns the values, or nil for none. */
  function Given(p: Place, values: seq<Value>): Place {
    if p.values == [] then p else p.(values := p.values[0 := if values == [] then [Nil] else values])
  }

  /** The running coroutine stops, and whoever resumed it is given the values. */
  function Stopped(w: World, c: Co, values: seq<Value>): World
    requires Proper(w) && w.active != []
  {
    var n := |w.active| - 1;
    var v := World(w.main, w.cos[w.active[n] := c], w.active[..n]);
    WithRunning(v, Given(Running(v), values))
  }

  /** What a step means; one that is not possible does nothing. */
  function Next(w: World, s: Step): (v: World)
    requires Proper(w)
    ensures Proper(v)
  {
    var p := Running(w);
    match s
    case Call => WithRunning(w, p.(values := [[]] + p.values))
    case Leave => if p.values == [] then w else WithRunning(w, p.(values := p.values[1..]))
    case SetJmp => WithRunning(w, p.(setjmps := p.setjmps + 1))
    case UnsetJmp => if p.setjmps == 0 then w else WithRunning(w, p.(setjmps := p.setjmps - 1))
    case Create => w.(cos := w.cos + [Co(SUSPENDED, false, [], Place([], 0))])
    case ResumeOne(k, args) =>
      if k < |w.cos| && w.cos[k].status == SUSPENDED && p.values != [] then
        var c := w.cos[k];
        var now := Co(RUNNING, true, args, if c.started then Given(c.place, args) else c.place);
        World(w.main, w.cos[k := now], w.active + [k])
      else w
    case YieldTo(args) =>
      if w.active != [] && p.values != [] && p.setjmps > 0 then
        Stopped(w, w.cos[w.active[|w.active| - 1]].(status := SUSPENDED, args := args), args)
      else w
    case End(retval) =>
      if w.active != [] then Stopped(w, Co(DEAD, true, [retval], Place([], 0)), [retval]) else w
  }

  function After(w: World, steps: seq<Step>): (v: World)
    requires Proper(w)
    ensures Proper(v)
  {
    if steps == [] then w
    else
      Next(After(w, steps[..|steps| - 1]), steps[|steps| - 1])
  }

  lemma AfterAll(w: World, steps: seq<Step>)
    requires Proper(w)
    ensures After(w, steps[..0]) == w && After(w, steps[..|steps|]) == After(w, steps)
  {
    assert steps[..|steps|] == steps;
  }

  lemma AfterNext(w: World, steps: seq<Step>, i: nat)
    requires Proper(w) && i < |steps|
    ensures After(w, steps[..i + 1]) == Next(After(w, steps[..i]), steps[i])
  {
    assert steps[..i + 1][..i] == steps[..i];
  }

  ghost predicate PlaceShown(x: Context, p: Place)
    reads x`frames, x`bufs, x.frames`multiVal
  {
    && |x.frames| == |p.values| && |x.bufs| == p.setjmps
    && forall i | 0 <= i < |x.frames| :: x.frames[i].multiVal == p.values[i]
  }

  ghost predicate CoShown(c: Coroutine, d: Co)
    reads c, c.env`frames, c.env`bufs, c.env.frames`multiVal
  {
    c.status == d.status && c.started == d.started && c.args == d.args && PlaceShown(c.env, d.place)
  }

  /** How all coroutines, the active ones among them, and their numbers correspond. */
  ghost predicate Corresponds(all: set<Coroutine>, active: seq<Coroutine>, cs: seq<Coroutine>, w: World) {
    && |cs| == |w.cos| && all == (set c | c in cs)
    && (forall i, j | 0 <= i < j < |cs| :: cs[i] != cs[j])
    && Proper(w) && |w.active| == |active| && (forall i | 0 <= i < |w.active| :: active[i] == cs[w.active[i]])
  }

  /** The thread, its contexts and the values in their frames are as the world says; `cs` are all coroutines. */
  ghost predicate Shows(t: Thread, cs: seq<Coroutine>, w: World)
    reads *
  {
    && Corresponds(t.coroutines, t.active, cs, w) && PlaceShown(t.main, w.main)
    && (forall i | 0 <= i < |cs| :: CoShown(cs[i], w.cos[i]))
  }

  /** The contexts are different, each owns its frames, and the running one is that of the innermost coroutine. */
  lemma Separate(t: Thread, cs: seq<Coroutine>, w: World)
    requires t.Valid() && Shows(t, cs, w)
    ensures w.active == [] ==> t.Running() == t.main && t.current == null
    ensures w.active != [] ==>
      var c := cs[w.active[|w.active| - 1]];
      t.current == c && t.Running() == c.env && c.status == RUNNING && c.started && c in t.coroutines
    ensures PlaceShown(t.Running(), Running(w))
    ensures forall i | 0 <= i < |cs| :: cs[i].env != t.main && Owning(cs[i].env)
    ensures forall i, j | 0 <= i < j < |cs| :: cs[i].env != cs[j].env
    ensures Owning(t.main)
  {
    hide Context.Based, Coroutine.Idle, PlaceShown, CoShown;
    forall i | 0 <= i < |cs|
      ensures Owning(cs[i].env)
    {
      assert cs[i] in t.coroutines;
      CoroutineOwning(t, cs[i]);
    }
    assert Based(t.main, t.active, 0);
    BasedOwning(t.main, Below(t.active, 0), BelowBuf(t.active, 0));
    if w.active != [] {
      assert Resumed(t.main, t.active, |t.active| - 1);
      assert cs[w.active[|w.active| - 1]] in cs;
      assert CoShown(cs[w.active[|w.active| - 1]], w.cos[w.active[|w.active| - 1]]);
      Shown(cs[w.active[|w.active| - 1]], w.cos[w.active[|w.active| - 1]]);
    }
    assert forall i, j | 0 <= i < j < |cs| :: cs[i] in t.coroutines && cs[j] in t.coroutines;
  }

  lemma ShowsProper(t: Thread, cs: seq<Coroutine>, w: World)
    ensures Shows(t, cs, w) ==> Proper(w) && |cs| == |w.cos|
  {}

  lemma Shown(c: Coroutine, d: Co)
    requires CoShown(c, d)
    ensures c.status == d.status && c.started == d.started && c.args == d.args && PlaceShown(c.env, d.place)
  {}

  lemma ShownNow(c: Coroutine, d: Co)
    requires c.status == d.status && c.started == d.started && c.args == d.args && PlaceShown(c.env, d.place)
    ensures CoShown(c, d)
  {}

  ghost predicate Owning(x: Context)
    reads x, x.frames`owner
  {
    (forall f | f in x.frames :: f.owner == x) && forall i, j | 0 <= i < j < |x.frames| :: x.frames[i] != x.frames[j]
  }

  lemma BasedOwning(x: Context, below: Frame?, belowBuf: JmpBuf?)
    requires x.Based(below, belowBuf)
    ensures Owning(x)
  {}

  lemma CoroutineOwning(t: Thread, c: Coroutine)
    requires t.Valid() && c in t.coroutines
    ensures Owning(c.env)
  {
    hide Context.Based;
    if c in t.active {
      var k :| 0 <= k < |t.active| && t.active[k] == c;
      assert Based(t.main, t.active, k + 1);
      BasedOwning(c.env, Below(t.active, k + 1), BelowBuf(t.active, k + 1));
    } else {
      assert c.Idle();
      if c.status == SUSPENDED && c.started {
        BasedOwning(c.env, null, c.env.bufs[|c.env.bufs| - 1].prev);
      }
    }
  }

  /** The running place has changed, and nothing else. */
  lemma RunningChanged(t: Thread, cs: seq<Coroutine>, w: World, p: Place)
    requires Corresponds(t.coroutines, t.active, cs, w)
    requires PlaceShown(t.main, if w.active == [] then p else w.main)
    requires forall i | 0 <= i < |cs| ::
      CoShown(cs[i], if w.active != [] && i == w.active[|w.active| - 1] then w.cos[i].(place := p) else w.cos[i])
    ensures Shows(t, cs, WithRunning(w, p))
  {}

  /** What the running context can do shows in the world. */
  lemma Enabled(t: Thread, cs: seq<Coroutine>, w: World)
    requires t.Valid() && Shows(t, cs, w)
    ensures w.active == [] <==> t.current == null
    ensures Running(w).values == [] <==> t.Running().frames == []
    ensures Running(w).setjmps == 0 <==> t.Running().bufs == []
  {
    Separate(t, cs, w);
  }

  /** A yield or an end that is not possible means nothing. */
  lemma NotPossible(t: Thread, cs: seq<Coroutine>, w: World, s: Step)
    requires t.Valid() && Shows(t, cs, w)
    requires t.current == null || (s.YieldTo? && (t.Running().frames == [] || t.Running().bufs == []))
    ensures s.YieldTo? || s.End? ==> Next(w, s) == w
  {
    Enabled(t, cs, w);
  }

  lemma NoResume(t: Thread, cs: seq<Coroutine>, w: World, k: nat, args: seq<Value>)
    requires t.Valid() && Shows(t, cs, w) && k < |cs|
    requires t.Running().frames == [] || cs[k].status != SUSPENDED
    ensures Next(w, ResumeOne(k, args)) == w
  {
    Enabled(t, cs, w);
    assert CoShown(cs[k], w.cos[k]);
  }

  /** A yield or an end that is possible. */
  lemma Possible(w: World, args: seq<Value>, retval: Value)
    requires Proper(w) && w.active != []
    ensures var c := w.cos[w.active[|w.active| - 1]];
      && (Running(w).values != [] && Running(w).setjmps > 0 ==>
            Next(w, YieldTo(args)) == Stopped(w, c.(status := SUSPENDED, args := args), args))
      && Next(w, End(retval)) == Stopped(w, Co(DEAD, true, [retval], Place([], 0)), [retval])
  {}

  lemma ResumePossible(w: World, k: nat, args: seq<Value>)
    requires Proper(w) && k < |w.cos| && w.cos[k].status == SUSPENDED && Running(w).values != []
    ensures var c := w.cos[k];
      var d := Co(RUNNING, true, args, if c.started then Given(c.place, args) else c.place);
      Next(w, ResumeOne(k, args)) == World(w.main, w.cos[k := d], w.active + [k])
  {}

  lemma NoneToResume(t: Thread, cs: seq<Coroutine>, w: World, s: Step)
    requires Shows(t, cs, w) && s.ResumeOne? && s.k >= |cs|
    ensures Next(w, s) == w
  {}

  lemma NothingShown(x: Context)
    ensures x.frames == [] && x.bufs == [] ==> PlaceShown(x, Place([], 0))
  {}

  /** The number of the coroutine under the running one, or none for the main program. */
  function Under(w: World): int
    requires w.active != []
  {
    if |w.active| == 1 then -1 else w.active[|w.active| - 2]
  }

  function UnderPlace(w: World): Place
    requires w.active != [] && Under(w) < |w.cos|
  {
    if Under(w) < 0 then w.main else w.cos[Under(w)].place
  }

  ghost function UnderContext(t: Thread, cs: seq<Coroutine>, w: World): Context
    requires w.active != [] && Under(w) < |cs|
  {
    if Under(w) < 0 then t.main else cs[Under(w)].env
  }

  /** The context under the running coroutine: its newest frame is the boundary, and nobody else's. */
  lemma BoundaryApart(t: Thread, cs: seq<Coroutine>, w: World)
    requires t.Valid() && Shows(t, cs, w) && w.active != []
    ensures Proper(w) && |w.cos| == |cs| && t.active != []
    ensures t.current != null && Under(w) < |cs| && Under(w) != w.active[|w.active| - 1]
    ensures w.active[|w.active| - 1] < |cs| && t.current == cs[w.active[|w.active| - 1]]
    ensures t.current.started && w.cos[w.active[|w.active| - 1]].started && t.current.env != t.main
    ensures forall i | 0 <= i < |cs| && i != w.active[|w.active| - 1] :: cs[i].env != t.current.env
    ensures var x, p := UnderContext(t, cs, w), UnderPlace(w);
      && PlaceShown(x, p) && x.frames != [] && t.current.boundaryFrame == x.frames[0]
      && (forall i | 0 < i < |x.frames| :: x.frames[i] != x.frames[0])
      && (Under(w) >= 0 ==> x.frames[0] !in t.main.frames)
      && forall i | 0 <= i < |cs| && i != Under(w) :: cs[i].env != x && x.frames[0] !in cs[i].env.frames
  {
    hide Context.Based, Coroutine.Idle, PlaceShown;
    Separate(t, cs, w);
    var n := |w.active| - 1;
    if n > 0 { assert CoShown(cs[w.active[n - 1]], w.cos[w.active[n - 1]]); }
    t.ResumerFacts();
    assert Based(t.main, t.active, n) && Resumed(t.main, t.active, n);
    assert t.active[n] == cs[w.active[n]] && CoShown(cs[w.active[n]], w.cos[w.active[n]]);
    if n > 0 { assert t.active[n - 1] == cs[w.active[n - 1]]; }
    At(t.main, t.active, n).TopOwned(Below(t.active, n), BelowBuf(t.active, n));
  }

  /** The running coroutine has stopped, and the context under it has been given the values. */
  lemma StoppedShown(t: Thread, cs: seq<Coroutine>, w: World, d: Co, values: seq<Value>, was: seq<Coroutine>)
    requires w.active != [] && Corresponds(t.coroutines, was, cs, w) && Proper(w) && |cs| == |w.cos| && was != []
    requires t.active == was[..|was| - 1] && Under(w) != w.active[|w.active| - 1]
    requires var c := cs[w.active[|w.active| - 1]];
      c.status == d.status && c.started == d.started && c.args == d.args && PlaceShown(c.env, d.place)
    requires Under(w) < |cs| && PlaceShown(UnderContext(t, cs, w), Given(UnderPlace(w), values))
    requires Under(w) >= 0 ==>
      var c, e := cs[Under(w)], w.cos[Under(w)];
      PlaceShown(t.main, w.main) && c.status == e.status && c.started == e.started && c.args == e.args
    requires forall i | 0 <= i < |cs| && i != w.active[|w.active| - 1] && i != Under(w) :: CoShown(cs[i], w.cos[i])
    ensures Shows(t, cs, Stopped(w, d, values))
  {
    var n := |w.active| - 1;
    var v := World(w.main, w.cos[w.active[n] := d], w.active[..n]);
    ShownNow(cs[w.active[n]], d);
    if Under(w) >= 0 { ShownNow(cs[Under(w)], w.cos[Under(w)].(place := Given(UnderPlace(w), values))); }
    hide CoShown, PlaceShown, Given;
    RunningChanged(t, cs, v, Given(Running(v), values));
  }

  /** The frame that resume gives the values to, if the coroutine has begun, is its newest and nobody else's. */
  lemma TopApart(t: Thread, cs: seq<Coroutine>, w: World, k: nat)
    requires t.Valid() && Shows(t, cs, w) && k < |cs|
    ensures Proper(w) && |w.cos| == |cs| && (Running(w).values == [] <==> t.Running().frames == [])
    ensures var c := cs[k];
      && (c.status == SUSPENDED && c.started ==> c.env.frames != [] && c.env.frame == c.env.frames[0])
      && (c.status == SUSPENDED && !c.started ==> c.env.frames == [] && c.TopOf() == {})
      && c.TopOf() <= FrameIn(c.env.frame) && (c.status == DEAD ==> c.TopOf() == {})
      && (forall i | 0 < i < |c.env.frames| :: c.env.frames[i] != c.env.frames[0])
      && (c.TopOf() != {} ==> c.env.frame != null && c.env.frame !in t.main.frames)
      && forall i | 0 <= i < |cs| && i != k ::
           cs[i] != c && cs[i].env != c.env && (c.TopOf() != {} ==> c.env.frame !in cs[i].env.frames)
  {
    hide Context.Based, CoShown;
    Separate(t, cs, w);
    var c := cs[k];
    assert c in t.coroutines;
    if c.status == SUSPENDED {
      t.IdleFacts(c);
      if c.started { c.env.TopOwned(null, c.env.bufs[|c.env.bufs| - 1].prev); }
    }
  }

  /** One coroutine has changed, the main program has or has not, and the active ones are given. */
  lemma OneChanged(t: Thread, cs: seq<Coroutine>, w: World, k: nat, d: Co)
    requires Corresponds(t.coroutines, t.active, cs, w) && k < |cs|
    requires PlaceShown(t.main, w.main) && CoShown(cs[k], d)
    requires forall i | 0 <= i < |cs| && i != k :: CoShown(cs[i], w.cos[i])
    ensures Shows(t, cs, World(w.main, w.cos[k := d], w.active))
  {}

  /** One more coroutine runs. */
  lemma ResumedShown(t: Thread, cs: seq<Coroutine>, w: World, k: nat, d: Co, was: seq<Coroutine>)
    requires Corresponds(t.coroutines, was, cs, w) && k < |cs| == |w.cos| && t.active == was + [cs[k]]
    requires PlaceShown(t.main, w.main) && forall i | 0 <= i < |cs| && i != k :: CoShown(cs[i], w.cos[i])
    requires cs[k].status == d.status && cs[k].started == d.started && cs[k].args == d.args
      && PlaceShown(cs[k].env, d.place)
    ensures Shows(t, cs, World(w.main, w.cos[k := d], w.active + [k]))
  {
    ShownNow(cs[k], d);
    hide CoShown, PlaceShown;
    OneChanged(t, cs, World(w.main, w.cos, w.active + [k]), k, d);
  }

  /** The newest frame given values. */
  lemma GivenShown(x: Context, p: Place, values: seq<Value>)
    requires |p.values| == |x.frames| && |x.bufs| == p.setjmps
    requires x.frames != [] && forall i | 0 < i < |x.frames| :: x.frames[i].multiVal == p.values[i]
    requires x.frames[0].multiVal == if values == [] then [Nil] else values
    ensures PlaceShown(x, Given(p, values))
  {}
}
