/**
  Coroutines that share stack memories (libco): co_resume, co_yield_env, co_swap
  and save_stack_buffer, proved to refine a machine in which every coroutine owns
  a private stack.

  Addresses inside a stack memory are offsets from stack_buffer, so stack_bp is
  the size of the memory and the live part of a coroutine's stack is
  `buffer[sp..]`.
 */
module SharedStack {
  import opened Bytes

  /** The capacity of the environment's pCallStack array. */
  const CALL_STACK_CAPACITY := 128

  /** stStackMem_t: one block of stack memory and the coroutine whose frames it now holds. */
  class StackMem {
    const size: nat
    var occupyCo: Coroutine?
    var buffer: seq<byte>

    constructor (buffer: seq<byte>)
      ensures size == |buffer| && this.buffer == buffer && occupyCo == null
    {
      size := |buffer|;
      this.buffer := buffer;
      occupyCo := null;
    }
  }

  /** stCoRoutine_t, restricted to the fields that the context switch uses. */
  class Coroutine {
    const isShareStack: bool
    const stackMem: StackMem
    var started: bool
    var ended: bool
    var stackSp: nat
    var saveBuffer: Option<seq<byte>>

    constructor (isShareStack: bool, stackMem: StackMem)
      ensures this.isShareStack == isShareStack && this.stackMem == stackMem
      ensures !started && !ended && saveBuffer == None
    {
      this.isShareStack, this.stackMem := isShareStack, stackMem;
      started, ended, stackSp, saveBuffer := false, false, 0, None;
    }
  }

  // ---------- The reference machine: one private stack per coroutine ----------

  /**
    One context switch. `frame` is what the running coroutine has made of its stack
    memory since it was last switched to, and `depth` is its stack pointer at the switch.
   */
  datatype Event =
    | Resume(frame: seq<byte>, depth: nat, co: Coroutine)
    | Yield(frame: seq<byte>, depth: nat, finished: bool)

  datatype Private = Private(
    callStack: seq<Coroutine>,
    stacks: map<Coroutine, seq<byte>>,
    ended: set<Coroutine>)

  /** What the source demands of whoever performs the switch. */
  ghost predicate Legal(p: Private, e: Event, all: set<Coroutine>) {
    && p.callStack != []
    && var curr := p.callStack[|p.callStack| - 1];
    && |e.frame| == curr.stackMem.size
    && e.depth <= curr.stackMem.size
    && match e
       case Resume(_, _, co) =>
         && co in all && co !in p.callStack && co !in p.ended
         && |p.callStack| < CALL_STACK_CAPACITY
       case Yield(_, _, _) => |p.callStack| >= 2
  }

  /** The coroutine that a switch hands control to. */
  ghost function Target(p: Private, e: Event): Coroutine
    requires p.callStack != [] && (e.Yield? ==> |p.callStack| >= 2)
  {
    match e
    case Resume(_, _, co) => co
    case Yield(_, _, _) => p.callStack[|p.callStack| - 2]
  }

  /** With private stacks a switch only records the frames that the running coroutine leaves behind. */
  ghost function PrivateStep(p: Private, e: Event): Private
    requires p.callStack != [] && (e.Yield? ==> |p.callStack| >= 2) && e.depth <= |e.frame|
  {
    var curr := p.callStack[|p.callStack| - 1];
    var stacks := p.stacks[curr := e.frame[e.depth..]];
    match e
    case Resume(_, _, co) => Private(p.callStack + [co], stacks, p.ended)
    case Yield(_, _, finished) =>
      Private(p.callStack[..|p.callStack| - 1], stacks, if finished then p.ended + {curr} else p.ended)
  }

  /** What the coroutine that is switched to finds on its own stack; None when it has never run. */
  ghost function Observation(p: Private, e: Event): Option<seq<byte>>
    requires p.callStack != [] && (e.Yield? ==> |p.callStack| >= 2)
  {
    var co := Target(p, e);
    if co in p.stacks then Some(p.stacks[co]) else None
  }

  ghost predicate LegalRun(p: Private, events: seq<Event>, all: set<Coroutine>)
    decreases |events|
  {
    events == [] || (Legal(p, events[0], all) && LegalRun(PrivateStep(p, events[0]), events[1..], all))
  }

  ghost function PrivateRun(p: Private, events: seq<Event>, all: set<Coroutine>): (found: seq<Option<seq<byte>>>)
    requires LegalRun(p, events, all)
    ensures |found| == |events|
    decreases |events|
  {
    if events == [] then []
    else [Observation(p, events[0])] + PrivateRun(PrivateStep(p, events[0]), events[1..], all)
  }

  // ---------- What the reference machine shows ----------

  /** The machine in front of event `k` of a run. */
  ghost function StateAt(p: Private, events: seq<Event>, all: set<Coroutine>, k: nat): (q: Private)
    requires LegalRun(p, events, all) && k <= |events|
    ensures k < |events| ==> Legal(q, events[k], all)
    decreases |events|
  {
    if k == 0 then p else StateAt(PrivateStep(p, events[0]), events[1..], all, k - 1)
  }

  /** The coroutine that runs until event `k`. */
  ghost function RunnerAt(p: Private, events: seq<Event>, all: set<Coroutine>, k: nat): Coroutine
    requires LegalRun(p, events, all) && k < |events|
  {
    var q := StateAt(p, events, all, k);
    q.callStack[|q.callStack| - 1]
  }

  lemma {:induction false} StateAtNext(p: Private, events: seq<Event>, all: set<Coroutine>, k: nat)
    requires LegalRun(p, events, all) && k < |events|
    ensures StateAt(p, events, all, k + 1) == PrivateStep(StateAt(p, events, all, k), events[k])
    ensures PrivateRun(p, events, all)[k] == Observation(StateAt(p, events, all, k), events[k])
    decreases |events|
  {
    if k == 0 {
      if |events| > 1 {
        StateAtNext(PrivateStep(p, events[0]), events[1..], all, 0);
      }
    } else {
      StateAtNext(PrivateStep(p, events[0]), events[1..], all, k - 1);
    }
  }

  /** The stack of a coroutine changes only while it runs. */
  lemma {:induction false} StackStays(
    p: Private, events: seq<Event>, all: set<Coroutine>, i: nat, j: nat, co: Coroutine)
    requires LegalRun(p, events, all) && i <= j < |events| && co in StateAt(p, events, all, i).stacks
    requires forall k | i <= k < j :: RunnerAt(p, events, all, k) != co
    ensures co in StateAt(p, events, all, j).stacks
    ensures StateAt(p, events, all, j).stacks[co] == StateAt(p, events, all, i).stacks[co]
    decreases j - i
  {
    if i == j {
    } else {
      StateAtNext(p, events, all, i);
      assert RunnerAt(p, events, all, i) != co;
      StackStays(p, events, all, i + 1, j, co);
    }
  }

  /**
    What a coroutine finds when it is switched to is what it left when it ran last: the bytes from its stack
    pointer to the end of its stack at that switch.
   */
  lemma FindsWhatItLeft(p: Private, events: seq<Event>, all: set<Coroutine>, i: nat, j: nat)
    requires LegalRun(p, events, all) && i < j < |events|
    requires Target(StateAt(p, events, all, j), events[j]) == RunnerAt(p, events, all, i)
    requires forall k | i < k < j :: RunnerAt(p, events, all, k) != RunnerAt(p, events, all, i)
    ensures PrivateRun(p, events, all)[j] == Some(events[i].frame[events[i].depth..])
  {
    var co := RunnerAt(p, events, all, i);
    StateAtNext(p, events, all, i);
    StateAtNext(p, events, all, j);
    StackStays(p, events, all, i + 1, j, co);
  }

  /** A coroutine that has never run finds nothing. */
  lemma {:induction false} FirstRunFindsNothing(p: Private, events: seq<Event>, all: set<Coroutine>,
                                                j: nat, co: Coroutine)
    requires LegalRun(p, events, all) && j < |events| && Target(StateAt(p, events, all, j), events[j]) == co
    requires co !in p.stacks && forall k | 0 <= k < j :: RunnerAt(p, events, all, k) != co
    ensures PrivateRun(p, events, all)[j] == None
    decreases j
  {
    StateAtNext(p, events, all, j);
    if j == 0 {
    } else {
      var next, rest := PrivateStep(p, events[0]), events[1..];
      assert RunnerAt(p, events, all, 0) != co;
      forall k | 0 <= k < j - 1
        ensures RunnerAt(next, rest, all, k) != co
      {
        assert RunnerAt(p, events, all, k + 1) == RunnerAt(next, rest, all, k);
      }
      FirstRunFindsNothing(next, rest, all, j - 1, co);
    }
  }

  /** What resumes and yields keep: nobody is on the call stack twice. */
  ghost predicate Once(p: Private) {
    forall i, j | 0 <= i < j < |p.callStack| :: p.callStack[i] != p.callStack[j]
  }

  lemma StepKeepsOnce(p: Private, e: Event, all: set<Coroutine>)
    requires Legal(p, e, all) && Once(p)
    ensures Once(PrivateStep(p, e))
  {
  }

  /** A coroutine that has ended and left the call stack is never switched to again. */
  lemma {:induction false} EndedStaysEnded(p: Private, events: seq<Event>, all: set<Coroutine>, co: Coroutine, j: nat)
    requires LegalRun(p, events, all) && Once(p) && co in p.ended && co !in p.callStack && j < |events|
    ensures Target(StateAt(p, events, all, j), events[j]) != co
    decreases j
  {
    if j == 0 {
    } else {
      var next := PrivateStep(p, events[0]);
      StepKeepsOnce(p, events[0], all);
      assert co in next.ended && co !in next.callStack;
      EndedStaysEnded(next, events[1..], all, co, j - 1);
    }
  }

  /** A coroutine whose function has returned never gets control again. */
  lemma {:induction false} FinishedNeverRunsAgain(p: Private, events: seq<Event>, all: set<Coroutine>, i: nat, j: nat)
    requires LegalRun(p, events, all) && Once(p) && i < j < |events| && events[i].Yield? && events[i].finished
    ensures Target(StateAt(p, events, all, j), events[j]) != RunnerAt(p, events, all, i)
    decreases i
  {
    var next, rest := PrivateStep(p, events[0]), events[1..];
    StepKeepsOnce(p, events[0], all);
    if i == 0 {
      EndedStaysEnded(next, rest, all, RunnerAt(p, events, all, 0), j - 1);
    } else {
      FinishedNeverRunsAgain(next, rest, all, i - 1, j - 1);
    }
  }

  // ---------- Copying frames out and back ----------

  /** The memory once `saved` has been copied to offset `sp`. */
  ghost function Restored(buffer: seq<byte>, sp: nat, saved: seq<byte>): (r: seq<byte>)
    requires sp + |saved| <= |buffer|
    ensures |r| == |buffer|
  {
    buffer[..sp] + saved + buffer[sp + |saved|..]
  }

  /** Whatever has become of the memory, copying back what was saved up to its end brings it back, and nothing else. */
  lemma RestoreInvertsSave(was: seq<byte>, later: seq<byte>, sp: nat)
    requires sp <= |was| == |later|
    ensures Restored(later, sp, was[sp..])[sp..] == was[sp..]
    ensures Restored(later, sp, was[sp..])[..sp] == later[..sp]
  {
  }

  /** One more byte of the copy. */
  lemma RestoreOne(buffer: seq<byte>, sp: nat, saved: seq<byte>, i: nat)
    requires sp + |saved| <= |buffer| && i < |saved|
    ensures Restored(buffer, sp, saved[..i])[sp + i := saved[i]] == Restored(buffer, sp, saved[..i + 1])
  {
    assert saved[..i + 1] == saved[..i] + [saved[i]];
  }

  // ---------- The implementation ----------

  /** stCoRoutineEnv_t: the call stack of coroutines and the scratch pair that co_swap leaves for its target. */
  class Env {
    var callStack: seq<Coroutine>
    var pendingCo: Coroutine?
    var occupyCo: Coroutine?

    /** Every coroutine of this environment, and the reference machine's private stacks. */
    ghost const all: set<Coroutine>
    ghost const mems: set<StackMem>
    ghost var stacks: map<Coroutine, seq<byte>>
    ghost var endedCos: set<Coroutine>

    /** Fixed at creation: which memory a coroutine uses, and that memory is shared only between sharers. */
    static ghost predicate Layout(all: set<Coroutine>, mems: set<StackMem>) {
      && (forall co <- all :: co.stackMem in mems)
      && (forall co <- all, other <- all :: !co.isShareStack && co != other ==> co.stackMem != other.stackMem)
    }

    ghost predicate WellFormedMemory()
      reads this, all, mems
    {
      && Layout(all, mems)
      && (forall mem <- mems :: |mem.buffer| == mem.size)
      && (forall mem <- mems :: mem.occupyCo != null ==>
            mem.occupyCo in all && mem.occupyCo.isShareStack && mem.occupyCo.started && mem.occupyCo.stackMem == mem)
    }

    /** A suspended coroutine's frames are in place when its memory is its own to use, and saved otherwise. */
    ghost predicate HoldsFrames(co: Coroutine)
      reads this, co, co.stackMem
    {
      && co in stacks
      && co.stackSp <= co.stackMem.size
      && |stacks[co]| == co.stackMem.size - co.stackSp
      && (if !co.isShareStack || co.stackMem.occupyCo == co
          then |co.stackMem.buffer| == co.stackMem.size && co.stackMem.buffer[co.stackSp..] == stacks[co]
          else co.stackMem.occupyCo != null && co.saveBuffer == Some(stacks[co]))
    }

    ghost predicate Valid()
      reads this, all, mems
    {
      && WellFormedMemory()
      && ValidCallStack()
      && (Current().isShareStack ==> Current().stackMem.occupyCo == Current())
      && (forall co <- all :: co.started && co != Current() ==> HoldsFrames(co))
    }

    /** No coroutine is on the call stack twice, and only coroutines that have started have frames. */
    ghost predicate ValidCallStack()
      reads this, all
    {
      && callStack != []
      && (forall i | 0 <= i < |callStack| :: callStack[i] in all && callStack[i].started)
      && (forall i, j | 0 <= i < j < |callStack| :: callStack[i] != callStack[j])
      && (forall co <- all :: !co.started ==> co !in stacks)
      && (forall co <- all :: co.ended <==> co in endedCos)
    }

    ghost function Current(): Coroutine
      reads this
      requires callStack != []
    {
      callStack[|callStack| - 1]
    }

    /** The reference machine that this environment is in step with. */
    ghost function Abs(): Private
      reads this
    {
      Private(callStack, stacks, endedCos)
    }

    /** A thread's environment: its main coroutine runs, and no other coroutine has started. */
    constructor (main: Coroutine, ghost others: set<Coroutine>, ghost mems: set<StackMem>)
      requires main !in others && !main.isShareStack && !main.started && !main.ended
      requires forall co <- others :: !co.started && !co.ended
      requires forall co <- others + {main} :: co.stackMem in mems
      requires forall mem <- mems :: mem.occupyCo == null && |mem.buffer| == mem.size
      requires forall co <- others + {main}, other <- others + {main} ::
                 !co.isShareStack && co != other ==> co.stackMem != other.stackMem
      modifies main
      ensures Valid() && all == others + {main} && this.mems == mems
      ensures Abs() == Private([main], map[], {})
    {
      all := others + {main};
      this.mems := mems;
      callStack := [main];
      pendingCo, occupyCo := null, null;
      stacks, endedCos := map[], {};
      main.started := true;
    }

    /** The running coroutine is free to do anything to the stack memory it runs on. */
    method Execute(frame: seq<byte>)
      requires Valid() && |frame| == Current().stackMem.size
      modifies Current().stackMem`buffer
      ensures Valid() && Abs() == old(Abs()) && Current().stackMem.buffer == frame
    {
      var curr := callStack[|callStack| - 1];
      curr.stackMem.buffer := frame;
    }

    /** save_stack_buffer: copy the frames of the coroutine that is being displaced. */
    static method SaveStackBuffer(occupant: Coroutine)
      requires occupant.stackSp <= |occupant.stackMem.buffer|
      modifies occupant`saveBuffer
      ensures occupant.saveBuffer == Some(occupant.stackMem.buffer[occupant.stackSp..])
    {
      var buffer, sp := occupant.stackMem.buffer, occupant.stackSp;
      var saved := [];
      for i := 0 to |buffer| - sp
        invariant saved == buffer[sp..sp + i]
      {
        saved := saved + [buffer[sp + i]];
      }
      assert saved == buffer[sp..];
      occupant.saveBuffer := Some(saved);
    }

    /** The copy back to stack_sp after a switch. */
    static method RestoreStackBuffer(co: Coroutine, saved: seq<byte>)
      requires co.stackSp + |saved| <= |co.stackMem.buffer|
      modifies co.stackMem`buffer
      ensures co.stackMem.buffer == Restored(old(co.stackMem.buffer), co.stackSp, saved)
    {
      ghost var was := co.stackMem.buffer;
      assert Restored(was, co.stackSp, []) == was;
      for i := 0 to |saved|
        invariant co.stackMem.buffer == Restored(was, co.stackSp, saved[..i])
      {
        ghost var before := co.stackMem.buffer;
        co.stackMem.buffer := co.stackMem.buffer[co.stackSp + i := saved[i]];
        RestoreOne(was, co.stackSp, saved, i);
      }
      assert saved[..|saved|] == saved;
    }

    /** What a switch from `curr` to `pending` needs: everyone but `curr` and a fresh target holds its frames. */
    ghost predicate ReadyToSwap(curr: Coroutine, pending: Coroutine, first: bool)
      reads this, all, mems
    {
      && WellFormedMemory() && curr in all && pending in all && curr != pending
      && curr.started && pending.started
      && (curr.isShareStack ==> curr.stackMem.occupyCo == curr)
      && (forall co <- all :: co.started && co != curr && !(co == pending && first) ==> HoldsFrames(co))
      && (first ==> pending.stackMem.occupyCo != pending)
    }

    /** `pending` takes over its stack memory, and the coroutine that it displaces is saved. */
    method Occupy(pending: Coroutine, ghost first: bool)
      requires WellFormedMemory() && pending in all && pending.isShareStack && pending.started
      requires forall co <- all :: co.started && !(co == pending && first) ==> HoldsFrames(co)
      modifies `pendingCo, `occupyCo, all`saveBuffer, pending.stackMem`occupyCo
      ensures WellFormedMemory() && pending.stackMem.occupyCo == pending
      ensures forall co <- all :: co.started && co != pending ==> HoldsFrames(co)
      ensures pendingCo == pending && occupyCo == old(pending.stackMem.occupyCo)
      ensures pending.saveBuffer == old(pending.saveBuffer)
    {
      pendingCo := pending;
      var occupant := pending.stackMem.occupyCo;
      pending.stackMem.occupyCo := pending;
      occupyCo := occupant;
      if occupant != null && occupant != pending {
        assert old(HoldsFrames(occupant));
        SaveStackBuffer(occupant);
        assert HoldsFrames(occupant);
      }
      forall co <- all | co.started && co != pending
        ensures HoldsFrames(co)
      {
        assert old(HoldsFrames(co));
        assert co != occupant && co.stackMem == pending.stackMem ==> co.isShareStack;
      }
    }

    /** Everyone but the target of a switch holds its frames, and the target may use its memory. */
    ghost predicate OthersHoldFrames(pending: Coroutine)
      reads this, all, mems
    {
      && WellFormedMemory() && ValidCallStack() && pending == Current()
      && (pending.isShareStack ==> pending.stackMem.occupyCo == pending)
      && (forall co <- all :: co.started && co != pending ==> HoldsFrames(co))
    }

    /** Between the halves of a switch: the target's frames are in place unless it displaced someone. */
    ghost predicate InTransit(pending: Coroutine)
      reads this, pending, pending.stackMem
    {
      && pendingCo == (if pending.isShareStack then pending else null)
      && pending in stacks && pending.stackSp <= pending.stackMem.size
      && |stacks[pending]| == pending.stackMem.size - pending.stackSp
      && (if pending.isShareStack && occupyCo != pending
          then occupyCo != null && pending.saveBuffer == Some(stacks[pending])
          else |pending.stackMem.buffer| == pending.stackMem.size
               && pending.stackMem.buffer[pending.stackSp..] == stacks[pending])
    }

    /** Note where `curr` stops: its frames are in place, because it occupies the memory it runs on. */
    method LeaveFrames(curr: Coroutine, ghost pending: Coroutine, sp: nat, ghost first: bool)
      requires ReadyToSwap(curr, pending, first) && sp <= curr.stackMem.size && ValidCallStack()
      modifies `stacks, curr`stackSp
      ensures WellFormedMemory() && ValidCallStack()
      ensures stacks == old(stacks)[curr := curr.stackMem.buffer[sp..]]
      ensures forall co <- all :: co.started && !(co == pending && first) ==> HoldsFrames(co)
      ensures !first ==> pending in old(stacks)
    {
      assert !first ==> HoldsFrames(pending);
      curr.stackSp := sp;
      stacks := stacks[curr := curr.stackMem.buffer[sp..]];
      forall co <- all | co.started && !(co == pending && first)
        ensures HoldsFrames(co)
      {
        assert co != curr ==> old(HoldsFrames(co));
      }
    }

    /** Give `pending` its memory, and leave a note for the code after coctx_swap. */
    method GiveMemory(pending: Coroutine, ghost first: bool)
      requires WellFormedMemory() && ValidCallStack() && pending == Current()
      requires forall co <- all :: co.started && !(co == pending && first) ==> HoldsFrames(co)
      modifies `pendingCo, `occupyCo, all`saveBuffer, pending.stackMem`occupyCo
      ensures OthersHoldFrames(pending)
      ensures !first ==> InTransit(pending)
    {
      if !pending.isShareStack {
        UseOwnMemory(pending, first);
      } else {
        UseSharedMemory(pending, first);
      }
    }

    /** A coroutine with memory of its own displaces nobody. */
    method UseOwnMemory(pending: Coroutine, ghost first: bool)
      requires WellFormedMemory() && ValidCallStack() && pending == Current() && !pending.isShareStack
      requires forall co <- all :: co.started && !(co == pending && first) ==> HoldsFrames(co)
      modifies `pendingCo, `occupyCo
      ensures OthersHoldFrames(pending)
      ensures !first ==> InTransit(pending)
    {
      assert !first ==> HoldsFrames(pending);
      pendingCo := null;
      occupyCo := null;
    }

    method UseSharedMemory(pending: Coroutine, ghost first: bool)
      requires WellFormedMemory() && ValidCallStack() && pending == Current() && pending.isShareStack
      requires forall co <- all :: co.started && !(co == pending && first) ==> HoldsFrames(co)
      modifies `pendingCo, `occupyCo, all`saveBuffer, pending.stackMem`occupyCo
      ensures OthersHoldFrames(pending)
      ensures !first ==> InTransit(pending)
    {
      assert !first ==> HoldsFrames(pending);
      Occupy(pending, first);
    }

    /** The part of co_swap before coctx_swap: note where `curr` stops, then give `pending` its memory. */
    method BeginSwap(curr: Coroutine, pending: Coroutine, sp: nat, ghost first: bool)
      requires ReadyToSwap(curr, pending, first) && sp <= curr.stackMem.size
      requires ValidCallStack() && pending == Current()
      modifies `pendingCo, `occupyCo, `stacks, curr`stackSp, all`saveBuffer, pending.stackMem`occupyCo
      ensures OthersHoldFrames(pending)
      ensures stacks == old(stacks)[curr := curr.stackMem.buffer[sp..]]
      ensures !first ==> InTransit(pending) && pending in old(stacks)
    {
      LeaveFrames(curr, pending, sp, first);
      GiveMemory(pending, first);
    }

    /** The part of co_swap after coctx_swap, run on the stack of the coroutine that was switched to. */
    method EndSwap(ghost pending: Coroutine)
      requires OthersHoldFrames(pending) && InTransit(pending)
      modifies pending.stackMem`buffer
      ensures OthersHoldFrames(pending) && HoldsFrames(pending)
    {
      var updateOccupyCo, updatePendingCo := occupyCo, pendingCo;
      if updateOccupyCo != null && updatePendingCo != null && updateOccupyCo != updatePendingCo {
        if updatePendingCo.saveBuffer.Some? && |updatePendingCo.saveBuffer.value| > 0 {
          RestoreStackBuffer(updatePendingCo, updatePendingCo.saveBuffer.value);
        }
      }
      forall co <- all | co.started && co != pending
        ensures HoldsFrames(co)
      {
        assert old(HoldsFrames(co));
      }
    }

    /**
      co_swap. `first` says that the target has never run, so that control enters its
      function instead of the code after coctx_swap.
     */
    method CoSwap(curr: Coroutine, pending: Coroutine, sp: nat, first: bool)
      requires ReadyToSwap(curr, pending, first) && sp <= curr.stackMem.size
      requires ValidCallStack() && pending == Current()
      modifies `pendingCo, `occupyCo, `stacks, curr`stackSp, all`saveBuffer
      modifies pending.stackMem`occupyCo, pending.stackMem`buffer
      ensures Valid()
      ensures stacks == old(stacks)[curr := old(curr.stackMem.buffer)[sp..]]
      ensures !first ==> HoldsFrames(pending) && pending in old(stacks) && stacks[pending] == old(stacks)[pending]
    {
      BeginSwap(curr, pending, sp, first);
      if !first {
        EndSwap(pending);
      }
    }

    /** The bookkeeping of co_resume: `co` counts as started and goes on top of the call stack. */
    method Push(co: Coroutine) returns (first: bool)
      requires Valid() && co in all && co !in callStack
      modifies `callStack, co`started
      ensures ValidCallStack() && callStack == old(callStack) + [co] && co.started
      ensures first == !old(co.started)
      ensures ReadyToSwap(old(Current()), co, first)
    {
      first := !co.started;
      assert co.stackMem.occupyCo == co ==> co.started;
      assert old(Current()) in callStack;
      if first {
        co.started := true;
      }
      callStack := callStack + [co];
      forall other <- all | other.started && other != old(Current()) && !(other == co && first)
        ensures HoldsFrames(other)
      {
        assert old(HoldsFrames(other));
      }
    }

    /** co_resume, called by the running coroutine when its stack pointer is `sp`. */
    method CoResume(co: Coroutine, sp: nat)
      requires Valid() && Legal(Abs(), Resume(Current().stackMem.buffer, sp, co), all)
      modifies `callStack, `pendingCo, `occupyCo, `stacks, Current()`stackSp, all`saveBuffer, co`started
      modifies co.stackMem`occupyCo, co.stackMem`buffer
      ensures Valid()
      ensures Abs() == PrivateStep(old(Abs()), Resume(old(Current().stackMem.buffer), sp, co))
      ensures old(co.started) ==> HoldsFrames(co) && co in old(stacks) && stacks[co] == old(stacks)[co]
    {
      var curr := callStack[|callStack| - 1];
      var first := Push(co);
      CoSwap(curr, co, sp, first);
    }

    /** The bookkeeping of co_yield_env: the running coroutine leaves the call stack. */
    method Pop() returns (curr: Coroutine, last: Coroutine)
      requires Valid() && |callStack| >= 2
      modifies `callStack
      ensures ValidCallStack() && callStack == old(callStack)[..|old(callStack)| - 1]
      ensures curr == old(Current()) && last == Current() && ReadyToSwap(curr, last, false)
    {
      last := callStack[|callStack| - 2];
      curr := callStack[|callStack| - 1];
      callStack := callStack[..|callStack| - 1];
      forall other <- all | other.started && other != curr
        ensures HoldsFrames(other)
      {
        assert old(HoldsFrames(other));
      }
    }

    /** co_yield_env, called by the running coroutine when its stack pointer is `sp`. */
    method CoYield(sp: nat)
      requires Valid() && Legal(Abs(), Yield(Current().stackMem.buffer, sp, false), all)
      modifies `callStack, `pendingCo, `occupyCo, `stacks, Current()`stackSp, all`saveBuffer
      modifies callStack[|callStack| - 2].stackMem`occupyCo, callStack[|callStack| - 2].stackMem`buffer
      ensures Valid()
      ensures Abs() == PrivateStep(old(Abs()), Yield(old(Current().stackMem.buffer), sp, false))
      ensures HoldsFrames(Current()) && Current() in old(stacks) && stacks[Current()] == old(stacks)[Current()]
    {
      var curr, last := Pop();
      CoSwap(curr, last, sp, false);
    }

    /** The running coroutine's function has returned. */
    method Finish()
      requires Valid()
      modifies `endedCos, Current()`ended
      ensures Valid() && Abs() == old(Abs()).(ended := old(Abs()).ended + {Current()})
    {
      var curr := callStack[|callStack| - 1];
      curr.ended := true;
      endedCos := endedCos + {curr};
      forall co <- all | co.started && co != curr
        ensures HoldsFrames(co)
      {
        assert old(HoldsFrames(co));
      }
    }

    /** CoRoutineFunc after the coroutine's function has returned. */
    method FinishAndYield(sp: nat)
      requires Valid() && Legal(Abs(), Yield(Current().stackMem.buffer, sp, true), all)
      modifies this`callStack, `pendingCo, `occupyCo, `stacks, `endedCos
      modifies Current()`stackSp, Current()`ended, all`saveBuffer
      modifies callStack[|callStack| - 2].stackMem`occupyCo, callStack[|callStack| - 2].stackMem`buffer
      ensures Valid()
      ensures Abs() == PrivateStep(old(Abs()), Yield(old(Current().stackMem.buffer), sp, true))
      ensures HoldsFrames(Current()) && Current() in old(stacks) && stacks[Current()] == old(stacks)[Current()]
    {
      Finish();
      CoYield(sp);
    }

    /** The live part of a coroutine's stack. */
    static function Live(co: Coroutine): (live: seq<byte>)
      reads co, co.stackMem
      requires co.stackSp <= |co.stackMem.buffer|
    {
      co.stackMem.buffer[co.stackSp..]
    }

    method SwitchByResume(e: Event) returns (found: Option<seq<byte>>)
      requires Valid() && e.Resume? && Legal(Abs(), e, all) && Current().stackMem.buffer == e.frame
      modifies this, all, mems
      ensures Valid() && Abs() == PrivateStep(old(Abs()), e)
      ensures found == Observation(old(Abs()), e)
    {
      var ran := e.co.started;
      assert ran ==> HoldsFrames(e.co);
      CoResume(e.co, e.depth);
      found := if ran then Some(Live(e.co)) else None;
    }

    method SwitchByYield(e: Event) returns (found: Option<seq<byte>>)
      requires Valid() && e.Yield? && !e.finished && Legal(Abs(), e, all) && Current().stackMem.buffer == e.frame
      modifies this, all, mems
      ensures Valid() && Abs() == PrivateStep(old(Abs()), e)
      ensures found == Observation(old(Abs()), e)
    {
      CoYield(e.depth);
      found := Some(Live(callStack[|callStack| - 1]));
    }

    method SwitchByFinish(e: Event) returns (found: Option<seq<byte>>)
      requires Valid() && e.Yield? && e.finished && Legal(Abs(), e, all) && Current().stackMem.buffer == e.frame
      modifies this, all, mems
      ensures Valid() && Abs() == PrivateStep(old(Abs()), e)
      ensures found == Observation(old(Abs()), e)
    {
      FinishAndYield(e.depth);
      found := Some(Live(callStack[|callStack| - 1]));
    }

    /** One event of a run; the result is what the target finds on the live part of its stack. */
    method Switch(e: Event) returns (found: Option<seq<byte>>)
      requires Valid() && Legal(Abs(), e, all)
      modifies this, all, mems
      ensures Valid() && Abs() == PrivateStep(old(Abs()), e)
      ensures found == Observation(old(Abs()), e)
    {
      Execute(e.frame);
      if e.Resume? {
        found := SwitchByResume(e);
      } else if e.finished {
        found := SwitchByFinish(e);
      } else {
        found := SwitchByYield(e);
      }
    }

    /**
      Shared-stack copying refines private stacks: in every legal run, every coroutine finds
      at every switch to it exactly what it would find with a stack of its own.
     */
    method Run(events: seq<Event>) returns (found: seq<Option<seq<byte>>>)
      requires Valid() && LegalRun(Abs(), events, all)
      modifies this, all, mems
      ensures Valid()
      ensures found == PrivateRun(old(Abs()), events, all)
    {
      found := [];
      for i := 0 to |events|
        invariant Valid() && LegalRun(Abs(), events[i..], all)
        invariant found + PrivateRun(Abs(), events[i..], all) == PrivateRun(old(Abs()), events, all)
      {
        assert events[i..][1..] == events[i + 1..];
        var one := Switch(events[i]);
        found := found + [one];
      }
    }
  }
}
