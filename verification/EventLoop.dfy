/**
  muduo's EventLoop: the functor queue that other threads fill and the eventfd that
  wakes the loop. Threads interleave, so the protocol is a state machine whose steps
  are the regions between points where another thread can come in.
 */
module EventLoop {

  type Functor = int
  type Thread = int

  /** A write to an eventfd whose counter is at its maximum fails and leaves it there. */
  const MAX_COUNTER := 0xffff_ffff_ffff_fffe

  function Bump(counter: nat): (c: nat)
    ensures c > 0
  {
    if counter < MAX_COUNTER then counter + 1 else counter
  }

  /** Where loop() is. While handling, `wakeup` says that the wakeup channel is still to be served. */
  datatype Phase = Polling | Handling(wakeup: bool) | Swapping | Running | Stopped

  datatype Loop = Loop(
    phase: Phase,
    pending: seq<Functor>,
    batch: seq<Functor>,
    calling: bool,
    counter: nat,
    quit: bool,
    owing: set<Thread>,
    loopOwes: bool,
    queued: seq<Functor>,
    ran: seq<Functor>)

  datatype Step =
    // queueInLoop and quit called by another thread, and the wakeup that each of them ends with
    | Queue(thread: Thread, f: Functor)
    | Quit(thread: Thread)
    | Wakeup(thread: Thread)
    // queueInLoop, its wakeup and quit called on the loop thread, from a handler or a functor
    | LoopQueue(f: Functor)
    | LoopWakeup
    | LoopQuit
    // loop()
    | PollReturns(wakeup: bool)
    | HandleRead
    | HandlersDone
    | Swap
    | RunFunctor
    | FunctorsDone

  ghost predicate InUserCode(s: Loop) {
    !s.loopOwes && (s.phase.Handling? || s.phase.Running?)
  }

  ghost predicate Enabled(s: Loop, step: Step) {
    match step
    case Queue(t, _) => t !in s.owing
    case Quit(t) => t !in s.owing
    case Wakeup(t) => t in s.owing
    case LoopQueue(_) => InUserCode(s)
    case LoopQuit => InUserCode(s)
    case LoopWakeup => s.loopOwes
    // poll may time out or report other channels only; it can report the eventfd when that is readable
    case PollReturns(wakeup) => s.phase.Polling? && (wakeup ==> s.counter > 0)
    case HandleRead => s.phase == Handling(true) && !s.loopOwes
    case HandlersDone => s.phase == Handling(false) && !s.loopOwes
    case Swap => s.phase.Swapping?
    case RunFunctor => s.phase.Running? && !s.loopOwes && s.batch != []
    case FunctorsDone => s.phase.Running? && !s.loopOwes && s.batch == []
  }

  ghost function Next(s: Loop, step: Step): Loop
    requires Enabled(s, step)
  {
    match step
    case Queue(t, f) => s.(pending := s.pending + [f], queued := s.queued + [f], owing := s.owing + {t})
    case Quit(t) => s.(quit := true, owing := s.owing + {t})
    case Wakeup(t) => s.(counter := Bump(s.counter), owing := s.owing - {t})
    case LoopQueue(f) =>
      s.(pending := s.pending + [f], queued := s.queued + [f], loopOwes := s.calling)
    case LoopQuit => s.(quit := true)
    case LoopWakeup => s.(counter := Bump(s.counter), loopOwes := false)
    case PollReturns(wakeup) => s.(phase := Handling(wakeup))
    case HandleRead => s.(phase := Handling(false), counter := 0)
    case HandlersDone => s.(phase := Swapping, calling := true)
    case Swap => s.(phase := Running, batch := s.pending, pending := [])
    case RunFunctor => s.(batch := s.batch[1..], ran := s.ran + [s.batch[0]])
    case FunctorsDone => s.(phase := if s.quit then Stopped else Polling, calling := false)
  }

  /** loop() has just started; functors may have been queued by other threads, each with its wakeup. */
  ghost predicate Initial(s: Loop) {
    && s.phase == Polling && s.batch == [] && !s.calling && !s.quit && !s.loopOwes
    && s.ran == [] && s.pending == s.queued
    && (s.pending != [] ==> s.counter > 0 || s.owing != {})
  }

  ghost predicate EnabledRun(s: Loop, steps: seq<Step>)
    decreases |steps|
  {
    steps == [] || (Enabled(s, steps[0]) && EnabledRun(Next(s, steps[0]), steps[1..]))
  }

  ghost function Run(s: Loop, steps: seq<Step>): Loop
    requires EnabledRun(s, steps)
    decreases |steps|
  {
    if steps == [] then s else Run(Next(s, steps[0]), steps[1..])
  }

  // ---------- Invariants ----------

  /** Whoever left a functor behind for the next poll has woken the loop, or still owes it a wakeup. */
  ghost predicate WakeupIsComing(s: Loop) {
    s.pending != [] && (s.phase.Polling? || s.phase.Running?) ==>
      s.counter > 0 || s.owing != {} || s.loopOwes
  }

  /** Functors run in the order in which they were queued, each exactly once. */
  ghost predicate InOrder(s: Loop) {
    s.ran + s.batch + s.pending == s.queued
  }

  ghost predicate Inv(s: Loop) {
    && WakeupIsComing(s) && InOrder(s)
    && (s.calling <==> s.phase.Swapping? || s.phase.Running?)
    && (s.loopOwes ==> s.phase.Running?)
    && (s.batch != [] ==> s.phase.Running?)
  }

  lemma StepKeepsInv(s: Loop, step: Step)
    requires Inv(s) && Enabled(s, step)
    ensures Inv(Next(s, step))
  {
    var t := Next(s, step);
    match step
    case Queue(_, f) => assert s.ran + s.batch + (s.pending + [f]) == s.ran + s.batch + s.pending + [f];
    case LoopQueue(f) => assert s.ran + s.batch + (s.pending + [f]) == s.ran + s.batch + s.pending + [f];
    case RunFunctor =>
      assert s.batch == [s.batch[0]] + s.batch[1..];
      assert t.ran + t.batch == s.ran + s.batch;
    case Swap =>
      assert t.ran + t.batch + t.pending == s.ran + s.batch + s.pending;
    case _ =>
  }

  /** No lost wakeup and exactly-once first-in first-out order, in every run with any number of threads. */
  lemma {:induction false} RunKeepsInv(s: Loop, steps: seq<Step>)
    requires Inv(s) && EnabledRun(s, steps)
    ensures Inv(Run(s, steps))
    ensures s.queued <= Run(s, steps).queued && s.ran <= Run(s, steps).ran
    decreases |steps|
  {
    if steps == [] {
    } else {
      StepKeepsInv(s, steps[0]);
      RunKeepsInv(Next(s, steps[0]), steps[1..]);
    }
  }

  /**
    Whenever the loop is at poll and nobody is in the middle of waking it, a poll that would block means
    that every queued functor has run.
   */
  lemma BlockedMeansIdle(start: Loop, steps: seq<Step>)
    requires Initial(start) && EnabledRun(start, steps)
    ensures var s := Run(start, steps);
            s.phase.Polling? && s.counter == 0 && s.owing == {} ==> s.ran == s.queued
  {
    assert start.ran + start.batch + start.pending == start.queued;
    RunKeepsInv(start, steps);
    var s := Run(start, steps);
    if s.phase.Polling? && s.counter == 0 && s.owing == {} {
      assert s.ran + s.batch + s.pending == s.ran;
    }
  }

  // ---------- Quitting ----------

  /** A quit that the loop has not seen yet has woken it, or will; and the loop only stops for a quit. */
  ghost predicate QuitInv(s: Loop) {
    && (s.quit && s.phase.Polling? ==> s.counter > 0 || s.owing != {})
    && (s.phase.Stopped? ==> s.quit)
  }

  lemma {:induction false} RunKeepsQuitInv(s: Loop, steps: seq<Step>)
    requires QuitInv(s) && EnabledRun(s, steps)
    ensures QuitInv(Run(s, steps)) && (s.quit ==> Run(s, steps).quit)
    ensures s.phase.Stopped? ==> Run(s, steps).phase.Stopped?
    decreases |steps|
  {
    if steps == [] {
    } else {
      RunKeepsQuitInv(Next(s, steps[0]), steps[1..]);
    }
  }

  /** A loop that blocks in poll has not been told to quit. */
  lemma BlockedIsNotQuitting(start: Loop, steps: seq<Step>)
    requires Initial(start) && EnabledRun(start, steps)
    ensures var s := Run(start, steps);
            s.phase.Polling? && s.counter == 0 && s.owing == {} ==> !s.quit
  {
    RunKeepsQuitInv(start, steps);
  }

  /** Told to quit, the loop finishes its turn and stops; otherwise it goes back to poll. */
  lemma TurnEndsInStopIffQuit(s: Loop, steps: seq<Step>)
    requires QuitInv(s) && EnabledRun(s, steps) && steps != [] && steps[|steps| - 1] == FunctorsDone
    ensures Run(s, steps).phase == if Run(s, steps).quit then Stopped else Polling
    ensures s.quit ==> Run(s, steps).phase.Stopped?
    decreases |steps|
  {
    RunKeepsQuitInv(s, steps);
    if |steps| == 1 {
    } else {
      RunKeepsQuitInv(s, [steps[0]]) by { assert [steps[0]][1..] == [] && EnabledRun(Next(s, steps[0]), []); }
      TurnEndsInStopIffQuit(Next(s, steps[0]), steps[1..]);
    }
  }

  /** quit() from the loop thread or from another one. */
  predicate IsQuit(step: Step) {
    step.Quit? || step.LoopQuit?
  }

  lemma {:induction false} QuitIffCalled(s: Loop, steps: seq<Step>)
    requires EnabledRun(s, steps)
    ensures Run(s, steps).quit <==> s.quit || exists i :: 0 <= i < |steps| && IsQuit(steps[i])
    decreases |steps|
  {
    if steps == [] {
    } else {
      var rest := steps[1..];
      QuitIffCalled(Next(s, steps[0]), rest);
      assert forall i | 0 <= i < |rest| :: rest[i] == steps[i + 1];
      assert forall i | 1 <= i < |steps| :: steps[i] == rest[i - 1];
    }
  }

  // ---------- No wakeup without cause ----------

  /** How often the loop reads the eventfd, and how often somebody writes it. */
  function Reads(steps: seq<Step>): nat {
    if steps == [] then 0 else (if steps[0].HandleRead? then 1 else 0) + Reads(steps[1..])
  }

  function Writes(steps: seq<Step>): nat {
    if steps == [] then 0 else (if steps[0].Wakeup? || steps[0].LoopWakeup? then 1 else 0) + Writes(steps[1..])
  }

  /** The loop is woken no more often than somebody wakes it: each read empties the eventfd. */
  lemma {:induction false} ReadsAreWritten(s: Loop, steps: seq<Step>)
    requires EnabledRun(s, steps) && (s.phase == Handling(true) ==> s.counter > 0)
    ensures Reads(steps) <= Writes(steps) + if s.counter > 0 then 1 else 0
    decreases |steps|
  {
    if steps == [] {
    } else {
      ReadsAreWritten(Next(s, steps[0]), steps[1..]);
    }
  }

  // ---------- Progress ----------

  /** The functors `q` have been run, or are sure to be run by the end of this turn. */
  ghost predicate DueThisTurn(s: Loop, q: seq<Functor>) {
    || q <= s.ran
    || (s.phase.Running? && q <= s.ran + s.batch)
    || ((s.phase.Polling? || s.phase.Handling? || s.phase.Swapping?) && q <= s.queued)
  }

  lemma StepKeepsDue(s: Loop, step: Step, q: seq<Functor>)
    requires Inv(s) && Enabled(s, step) && DueThisTurn(s, q)
    ensures DueThisTurn(Next(s, step), q)
    ensures step.FunctorsDone? ==> q <= Next(s, step).ran
  {
    var t := Next(s, step);
    match step
    case Swap => assert t.ran + t.batch == s.ran + s.batch + s.pending;
    case RunFunctor => assert t.ran + t.batch == s.ran + s.batch;
    case FunctorsDone => assert s.ran + s.batch == s.ran;
    case _ =>
  }

  lemma {:induction false} DueIsRun(s: Loop, steps: seq<Step>, q: seq<Functor>)
    requires Inv(s) && EnabledRun(s, steps) && DueThisTurn(s, q)
    ensures FunctorsDone in steps ==> q <= Run(s, steps).ran
    decreases |steps|
  {
    if steps == [] {
    } else {
      var t := Next(s, steps[0]);
      StepKeepsInv(s, steps[0]);
      StepKeepsDue(s, steps[0], q);
      if steps[0].FunctorsDone? {
        RunKeepsInv(t, steps[1..]);
      } else {
        DueIsRun(t, steps[1..], q);
      }
    }
  }

  /**
    In every run, whatever handlers, functors and other threads do in between: once the loop has left
    poll and finished its functors, everything that was queued when it was at poll has run.
   */
  lemma OneTurnRunsEverything(s: Loop, steps: seq<Step>)
    requires Inv(s) && s.phase.Polling? && EnabledRun(s, steps) && FunctorsDone in steps
    ensures s.queued <= Run(s, steps).ran
  {
    DueIsRun(s, steps, s.queued);
  }

  lemma {:induction false} BatchDrains(s: Loop) returns (steps: seq<Step>)
    requires Inv(s) && s.phase.Running? && !s.loopOwes
    ensures EnabledRun(s, steps) && Run(s, steps) == s.(ran := s.ran + s.batch, batch := [])
    decreases |s.batch|
  {
    if s.batch == [] {
      steps := [];
      assert s.ran + s.batch == s.ran;
    } else {
      var t := Next(s, RunFunctor);
      StepKeepsInv(s, RunFunctor);
      var rest := BatchDrains(t);
      steps := [RunFunctor] + rest;
      assert steps[1..] == rest;
      assert t.ran + t.batch == s.ran + s.batch;
    }
  }

  /** With functors waiting and no thread in the middle of queueInLoop, the loop can always complete a turn. */
  lemma TurnIsPossible(s: Loop) returns (steps: seq<Step>)
    requires Inv(s) && s.phase.Polling? && s.pending != [] && s.owing == {}
    ensures EnabledRun(s, steps) && steps != [] && steps[0] == PollReturns(true)
    ensures Run(s, steps).ran == s.queued
  {
    var s1 := Next(s, PollReturns(true));
    var s2 := Next(s1, HandleRead);
    var s3 := Next(s2, HandlersDone);
    var s4 := Next(s3, Swap);
    StepKeepsInv(s, PollReturns(true));
    StepKeepsInv(s1, HandleRead);
    StepKeepsInv(s2, HandlersDone);
    StepKeepsInv(s3, Swap);
    var rest := BatchDrains(s4);
    var a := [Swap] + rest;
    var b := [HandlersDone] + a;
    var c := [HandleRead] + b;
    steps := [PollReturns(true)] + c;
    assert a[1..] == rest && b[1..] == a && c[1..] == b && steps[1..] == c;
    assert EnabledRun(s3, a) && Run(s3, a) == Run(s4, rest);
    assert EnabledRun(s2, b) && Run(s2, b) == Run(s3, a);
    assert EnabledRun(s1, c) && Run(s1, c) == Run(s2, b);
    assert s4.ran + s4.batch + s4.pending == s4.ran + s4.batch;
  }

  // ---------- The code of queueInLoop and doPendingFunctors ----------

  lemma {:induction false} RunAppend(s: Loop, a: seq<Step>, b: seq<Step>)
    requires EnabledRun(s, a) && EnabledRun(Run(s, a), b)
    ensures EnabledRun(s, a + b) && Run(s, a + b) == Run(Run(s, a), b)
    decreases |a|
  {
    if a == [] {
      assert a + b == b;
    } else {
      assert (a + b)[1..] == a[1..] + b;
      RunAppend(Next(s, a[0]), a[1..], b);
    }
  }

  lemma RunOne(s: Loop, a: seq<Step>, step: Step)
    requires EnabledRun(s, a) && Enabled(Run(s, a), step)
    ensures EnabledRun(s, a + [step]) && Run(s, a + [step]) == Next(Run(s, a), step)
  {
    var b := [step];
    assert b[1..] == [];
    assert EnabledRun(Next(Run(s, a), step), b[1..]) && EnabledRun(Run(s, a), b);
    RunAppend(s, a, b);
  }

  /** A call of queueInLoop: from the loop thread, or from another thread. */
  datatype Call = Call(f: Functor, inLoopThread: bool, thread: Thread)

  /** The functors of all calls in order. */
  ghost function Flat(calls: seq<seq<Call>>): seq<Functor> {
    if calls == [] then [] else Flat(calls[..|calls| - 1]) + Functors(calls[|calls| - 1])
  }

  ghost function Functors(calls: seq<Call>): seq<Functor> {
    seq(|calls|, i requires 0 <= i < |calls| => calls[i].f)
  }

  /** The members of EventLoop that queueInLoop and doPendingFunctors use, and where the loop thread is. */
  class FunctorQueue {
    var pendingFunctors: seq<Functor>
    var callingPendingFunctors: bool
    var wakeupCounter: nat
    ghost var rest: Loop

    ghost function Abs(): Loop
      reads this
    {
      rest.(pending := pendingFunctors, calling := callingPendingFunctors, counter := wakeupCounter)
    }

    constructor ()
      ensures Initial(Abs()) && Abs().owing == {}
    {
      pendingFunctors, callingPendingFunctors, wakeupCounter := [], false, 0;
      rest := Loop(Polling, [], [], false, 0, false, {}, false, [], []);
    }

    /** queueInLoop: a wakeup follows unless the loop thread calls it outside its functors. */
    method QueueInLoop(call: Call, ghost origin: Loop, ghost before: seq<Step>) returns (ghost steps: seq<Step>)
      requires EnabledRun(origin, before) && Abs() == Run(origin, before)
      requires if call.inLoopThread then InUserCode(Abs()) else call.thread !in Abs().owing
      modifies this
      ensures EnabledRun(origin, steps) && Abs() == Run(origin, steps)
      ensures pendingFunctors == old(pendingFunctors) + [call.f]
      ensures !call.inLoopThread || callingPendingFunctors ==> wakeupCounter > 0
      ensures wakeupCounter >= old(wakeupCounter)
      ensures Abs() == old(Abs()).(pending := pendingFunctors, counter := wakeupCounter,
                                   queued := old(Abs()).queued + [call.f])
    {
      ghost var queue := if call.inLoopThread then LoopQueue(call.f) else Queue(call.thread, call.f);
      RunOne(origin, before, queue);
      steps := before + [queue];
      pendingFunctors := pendingFunctors + [call.f];
      rest := Next(old(Abs()), queue);
      if !call.inLoopThread || callingPendingFunctors {
        ghost var wakeup := if call.inLoopThread then LoopWakeup else Wakeup(call.thread);
        RunOne(origin, steps, wakeup);
        steps := steps + [wakeup];
        wakeupCounter := Bump(wakeupCounter);
        rest := Next(rest, wakeup);
      }
    }

    /** The calls that are made while one functor runs. */
    method QueueAll(calls: seq<Call>, ghost origin: Loop, ghost before: seq<Step>) returns (ghost steps: seq<Step>)
      requires EnabledRun(origin, before) && Abs() == Run(origin, before) && InUserCode(Abs()) && callingPendingFunctors
      requires forall call <- calls :: call.inLoopThread || call.thread !in Abs().owing
      modifies this
      ensures EnabledRun(origin, steps) && Abs() == Run(origin, steps)
      ensures pendingFunctors == old(pendingFunctors) + Functors(calls)
      ensures Abs() == old(Abs()).(pending := pendingFunctors, counter := wakeupCounter, queued := Abs().queued)
      ensures wakeupCounter >= old(wakeupCounter) && (calls != [] ==> wakeupCounter > 0)
    {
      steps := before;
      for i := 0 to |calls|
        invariant EnabledRun(origin, steps) && Abs() == Run(origin, steps)
        invariant pendingFunctors == old(pendingFunctors) + Functors(calls[..i])
        invariant Abs() == old(Abs()).(pending := pendingFunctors, counter := wakeupCounter, queued := Abs().queued)
        invariant wakeupCounter >= old(wakeupCounter) && (i > 0 ==> wakeupCounter > 0)
      {
        assert calls[i] in calls;
        assert Functors(calls[..i + 1]) == Functors(calls[..i]) + [calls[i].f];
        steps := QueueInLoop(calls[i], origin, steps);
      }
      assert calls[..|calls|] == calls;
    }

    /**
      doPendingFunctors, where the calls `calls[i]` are made while the i-th functor runs, by it or by other
      threads. It is a run of the state machine: exactly the functors that were pending are run, in order;
      the new ones stay for the next turn, and the eventfd is readable for them.
     */
    method DoPendingFunctors(calls: seq<seq<Call>>) returns (ghost steps: seq<Step>)
      requires Enabled(Abs(), HandlersDone) && Inv(Abs()) && |calls| == |pendingFunctors|
      requires forall i | 0 <= i < |calls| :: forall call <- calls[i] ::
                 call.inLoopThread || call.thread !in Abs().owing
      modifies this
      ensures EnabledRun(old(Abs()), steps) && Abs() == Run(old(Abs()), steps) && Inv(Abs())
      ensures Abs().ran == old(Abs()).ran + old(pendingFunctors) && pendingFunctors == Flat(calls)
      ensures !callingPendingFunctors && (pendingFunctors != [] ==> wakeupCounter > 0)
    {
      ghost var origin := Abs();
      var functors;
      functors, steps := SwapPending();
      for i := 0 to |functors|
        invariant EnabledRun(origin, steps) && Abs() == Run(origin, steps)
        invariant callingPendingFunctors && Abs().phase.Running? && !Abs().loopOwes && Abs().owing == origin.owing
        invariant Abs().batch == functors[i..] && Abs().ran == origin.ran + functors[..i]
        invariant pendingFunctors == Flat(calls[..i]) && (pendingFunctors != [] ==> wakeupCounter > 0)
      {
        steps := RunFunctorAt(functors, i, calls[i], origin, steps);
        assert calls[..i + 1][..i] == calls[..i];
        assert functors[..i + 1] == functors[..i] + [functors[i]];
      }
      assert functors[..|functors|] == functors && calls[..|calls|] == calls;
      steps := EndCalling(origin, steps);
    }

    /** The flag is reset once the batch has run. */
    method EndCalling(ghost origin: Loop, ghost before: seq<Step>) returns (ghost steps: seq<Step>)
      requires Inv(origin) && EnabledRun(origin, before) && Abs() == Run(origin, before)
      requires Enabled(Abs(), FunctorsDone)
      modifies `callingPendingFunctors, `rest
      ensures EnabledRun(origin, steps) && Abs() == Run(origin, steps) && Inv(Abs())
      ensures Abs().ran == old(Abs()).ran && !callingPendingFunctors
    {
      RunOne(origin, before, FunctorsDone);
      rest := Next(Abs(), FunctorsDone);
      callingPendingFunctors := false;
      steps := before + [FunctorsDone];
      RunKeepsInv(origin, steps);
    }

    /** The flag is set, and the pending functors are swapped out. */
    method SwapPending() returns (functors: seq<Functor>, ghost steps: seq<Step>)
      requires Enabled(Abs(), HandlersDone) && Inv(Abs())
      modifies this
      ensures EnabledRun(old(Abs()), steps) && Abs() == Run(old(Abs()), steps)
      ensures functors == old(pendingFunctors)
      ensures Abs() == old(Abs()).(phase := Running, calling := true, batch := functors, pending := [])
    {
      RunOne(Abs(), [], HandlersDone);
      assert [] + [HandlersDone] == [HandlersDone];
      callingPendingFunctors := true;
      rest := Next(old(Abs()), HandlersDone);
      RunOne(old(Abs()), [HandlersDone], Swap);
      functors := pendingFunctors;
      pendingFunctors := [];
      rest := Next(rest, Swap);
      steps := [HandlersDone, Swap];
      assert steps == [] + [HandlersDone] + [Swap];
    }

    /** One functor of the batch, with the calls that are made while it runs. */
    method RunFunctorAt(functors: seq<Functor>, i: nat, calls: seq<Call>, ghost origin: Loop, ghost before: seq<Step>)
      returns (ghost steps: seq<Step>)
      requires i < |functors| && EnabledRun(origin, before) && Abs() == Run(origin, before)
      requires callingPendingFunctors && Abs().phase.Running? && !Abs().loopOwes && Abs().batch == functors[i..]
      requires forall call <- calls :: call.inLoopThread || call.thread !in Abs().owing
      modifies this
      ensures EnabledRun(origin, steps) && Abs() == Run(origin, steps) && callingPendingFunctors
      ensures Abs() == old(Abs()).(batch := functors[i + 1..], ran := old(Abs()).ran + [functors[i]],
                                   pending := pendingFunctors, counter := wakeupCounter, queued := Abs().queued)
      ensures pendingFunctors == old(pendingFunctors) + Functors(calls)
      ensures wakeupCounter >= old(wakeupCounter) && (calls != [] ==> wakeupCounter > 0)
    {
      RunOne(origin, before, RunFunctor);
      rest := Next(Abs(), RunFunctor);
      steps := QueueAll(calls, origin, before + [RunFunctor]);
    }
  }
}
