/**
  The event loop of libco (co_eventloop, OnPollPreparePfn, co_poll_inner): waits move
  between the timing wheel and the active list until their coroutine is resumed.

  A wait is one call of co_poll_inner that parks its coroutine; it is named by a
  number that is never used again, since its stPoll_t is allocated for that call.
 */
module CoEventLoop {
  import opened TimingWheel

  /** stPoll_t: the deadline, and what has happened to the wait so far. */
  datatype Wait = Wait(expire: nat, timedOut: bool, raised: nat, detached: bool)

  /** Where co_eventloop is: collecting epoll results, or working off the active list at tick `now`. */
  datatype Phase = Collecting | Processing(now: nat)

  /** One resumption: the wait, the number of events it will report, and the loop's clock. */
  datatype Resumption = Resumption(id: int, raised: nat, now: nat)

  datatype Loop = Loop(
    wheel: Wheel<int>,
    active: seq<int>,
    waits: map<int, Wait>,
    phase: Phase,
    log: seq<Resumption>)

  datatype Step =
    | Park(id: int, tick: nat, timeout: nat)
    | Raise(id: int)
    | Take(now: nat)
    | Process
    | NextTurn

  // ---------- The operations ----------

  /** The first occurrence of `x` taken out of a list: RemoveFromLink. */
  function Without(s: seq<int>, x: int): seq<int> {
    if s == [] then [] else if s[0] == x then s[1..] else [s[0]] + Without(s[1..], x)
  }

  function WithoutInSlots(slots: seq<seq<int>>, x: int): (r: seq<seq<int>>)
    ensures |r| == |slots|
  {
    if slots == [] then []
    else if x in slots[0] then [Without(slots[0], x)] + slots[1..]
    else [slots[0]] + WithoutInSlots(slots[1..], x)
  }

  ghost predicate AreWaits(waits: map<int, Wait>, ids: seq<int>) {
    forall i | 0 <= i < |ids| :: ids[i] in waits
  }

  /** The wait with its bTimeout flag set for every wait in `ids`. */
  function MarkTimedOut(waits: map<int, Wait>, ids: seq<int>): (r: map<int, Wait>)
    requires AreWaits(waits, ids)
    ensures r.Keys == waits.Keys
  {
    map id | id in waits :: if id in ids then waits[id].(timedOut := true) else waits[id]
  }

  /** The wait is still on some list: it has been parked and its coroutine has not been resumed. */
  ghost predicate Pending(s: Loop, id: int) {
    id in s.active || exists i :: 0 <= i < |s.wheel.slots| && id in s.wheel.slots[i]
  }

  /** An epoll result names a wait whose descriptors are still registered. */
  ghost predicate CanRaise(s: Loop, id: int) {
    s.wheel.Valid() && s.phase.Collecting? && Pending(s, id) && id in s.waits
  }

  /** Any clock reading will do, unless it makes a wheel at index zero count zero slots. */
  ghost predicate CanTake(s: Loop, now: nat) {
    && s.wheel.Valid() && s.phase.Collecting? && !s.wheel.LosesIndex(now)
    && AreWaits(s.waits, TakeAllTimeout(s.wheel, now).1)
  }

  ghost predicate CanProcess(s: Loop) {
    s.wheel.Valid() && s.phase.Processing? && s.active != [] && s.active[0] in s.waits
  }

  /** co_poll_inner: a refused AddTimeout makes it return -1 without giving up control. */
  ghost function AfterPark(s: Loop, id: int, tick: nat, timeout: nat): Loop
    requires s.wheel.Valid()
  {
    var r := AddTimeout(s.wheel, id, tick + timeout, tick);
    s.(wheel := r.wheel,
       waits := if r.Added? then s.waits[id := Wait(tick + timeout, false, 0, false)] else s.waits)
  }

  /** OnPollPreparePfn. */
  ghost function AfterRaise(s: Loop, id: int): Loop
    requires CanRaise(s, id)
  {
    var w := s.waits[id];
    if w.detached then s.(waits := s.waits[id := w.(raised := w.raised + 1)])
    else
      s.(waits := s.waits[id := w.(raised := w.raised + 1, detached := true)],
         wheel := s.wheel.(slots := WithoutInSlots(s.wheel.slots, id)),
         active := Without(s.active, id) + [id])
  }

  /** TakeAllTimeout, the marking of what it took, and the Join with the active list. */
  ghost function AfterTake(s: Loop, now: nat): Loop
    requires CanTake(s, now)
  {
    var (wheel, taken) := TakeAllTimeout(s.wheel, now);
    s.(wheel := wheel, waits := MarkTimedOut(s.waits, taken), active := s.active + taken,
       phase := Processing(now))
  }

  /** One round of the loop over the active list. */
  ghost function AfterProcess(s: Loop): Loop
    requires CanProcess(s)
  {
    var id, now := s.active[0], s.phase.now;
    var w := s.waits[id];
    var popped := s.(active := s.active[1..]);
    var r := AddTimeout(s.wheel, id, w.expire, now);
    if w.timedOut && now < w.expire && r.Added? then
      popped.(wheel := r.wheel, waits := s.waits[id := w.(timedOut := false)])
    else
      var wheel := if w.timedOut && now < w.expire then r.wheel else s.wheel;
      popped.(wheel := wheel, log := s.log + [Resumption(id, w.raised, now)])
  }

  ghost predicate Enabled(s: Loop, step: Step) {
    match step
    case Park(id, _, timeout) => s.wheel.Valid() && id !in s.waits && timeout > 0
    case Raise(id) => CanRaise(s, id)
    case Take(now) => CanTake(s, now)
    case Process => CanProcess(s)
    case NextTurn => s.phase.Processing? && s.active == []
  }

  ghost function Next(s: Loop, step: Step): Loop
    requires Enabled(s, step)
  {
    match step
    case Park(id, tick, timeout) => AfterPark(s, id, tick, timeout)
    case Raise(id) => AfterRaise(s, id)
    case Take(now) => AfterTake(s, now)
    case Process => AfterProcess(s)
    case NextTurn => s.(phase := Collecting)
  }

  ghost predicate EnabledRun(s: Loop, steps: seq<Step>)
    decreases |steps|
  {
    steps == [] || (Enabled(s, steps[0]) && EnabledRun(Next(s, steps[0]), steps[1..]))
  }

  ghost function Run(s: Loop, steps: seq<Step>): Loop
    requires EnabledRun(s, steps)
    decreases |steps|
  {
    if steps == [] then s else Run(Next(s, steps[0]), steps[1..])
  }

  /** A loop that has just been set up, with an empty wheel of `size` slots. */
  ghost predicate Initial(s: Loop) {
    && s.wheel.Valid() && s.wheel.start != 0 && s.wheel.slots == seq(|s.wheel.slots|, _ => [])
    && s.active == [] && s.waits == map[] && s.phase == Collecting && s.log == []
  }

  // ---------- The invariant ----------

  /** How often a wait stands in the slots of the wheel, and how often it was resumed. */
  ghost function InSlots(slots: seq<seq<int>>, id: int): nat {
    if slots == [] then 0 else multiset(slots[0])[id] + InSlots(slots[1..], id)
  }

  ghost function Resumed(log: seq<Resumption>, id: int): nat {
    if log == [] then 0
    else Resumed(log[..|log| - 1], id) + if log[|log| - 1].id == id then 1 else 0
  }

  /** Every wait is in exactly one place: a slot of the wheel, the active list, or the log of resumptions. */
  ghost predicate Conserved(s: Loop) {
    forall id :: InSlots(s.wheel.slots, id) + multiset(s.active)[id] + Resumed(s.log, id)
                 == if id in s.waits then 1 else 0
  }

  ghost predicate WaitingIsQuiet(s: Loop) {
    forall id :: InSlots(s.wheel.slots, id) > 0 && id in s.waits ==>
      !s.waits[id].timedOut && !s.waits[id].detached && s.waits[id].raised == 0
  }

  ghost predicate ActiveHasReason(s: Loop) {
    forall id :: id in s.active && id in s.waits ==>
      && s.waits[id].timedOut == !s.waits[id].detached
      && (s.waits[id].raised > 0 <==> s.waits[id].detached)
      && (s.waits[id].timedOut ==> s.phase.Processing? && s.wheel.start == s.phase.now)
  }

  /** A resumption that reports no event happened at or after the deadline. */
  ghost predicate LogIsTimely(s: Loop) {
    forall i | 0 <= i < |s.log| ::
      s.log[i].id in s.waits && (s.log[i].raised == 0 ==> s.waits[s.log[i].id].expire <= s.log[i].now)
  }

  ghost predicate Inv(s: Loop) {
    && s.wheel.Valid() && s.wheel.start != 0
    && Conserved(s) && WaitingIsQuiet(s) && ActiveHasReason(s) && LogIsTimely(s)
  }

  // ---------- Where the waits are ----------

  lemma {:induction false} InSlotsMember(slots: seq<seq<int>>, id: int)
    ensures InSlots(slots, id) > 0 <==> exists i :: 0 <= i < |slots| && id in slots[i]
  {
    if slots == [] {
    } else {
      InSlotsMember(slots[1..], id);
      if id in slots[0] {
      } else if InSlots(slots[1..], id) > 0 {
        var i :| 0 <= i < |slots[1..]| && id in slots[1..][i];
        assert id in slots[i + 1];
      } else {
        forall i | 0 <= i < |slots|
          ensures id !in slots[i]
        {
          assert i > 0 ==> slots[i] == slots[1..][i - 1];
        }
      }
    }
  }

  lemma {:induction false} InSlotsUpdate(slots: seq<seq<int>>, i: nat, slot: seq<int>, id: int)
    requires i < |slots|
    ensures InSlots(slots[i := slot], id) + multiset(slots[i])[id] == InSlots(slots, id) + multiset(slot)[id]
  {
    if i == 0 {
      assert slots[i := slot][1..] == slots[1..];
    } else {
      assert slots[i := slot][1..] == slots[1..][i - 1 := slot];
      InSlotsUpdate(slots[1..], i - 1, slot, id);
    }
  }

  lemma {:induction false} InSlotsEmpty(n: nat, id: int)
    ensures InSlots(seq(n, _ => []), id) == 0
  {
    if n == 0 {
    } else {
      var slots: seq<seq<int>> := seq(n, _ => []);
      assert slots[1..] == seq(n - 1, _ => []);
      InSlotsEmpty(n - 1, id);
    }
  }

  lemma {:induction false} WithoutCount(s: seq<int>, x: int, id: int)
    ensures multiset(Without(s, x))[id] == multiset(s)[id] - if id == x && x in s then 1 else 0
    ensures x !in s ==> Without(s, x) == s
  {
    if s == [] {
    } else {
      assert s == [s[0]] + s[1..];
      WithoutCount(s[1..], x, id);
    }
  }

  lemma {:induction false} WithoutInSlotsCount(slots: seq<seq<int>>, x: int, id: int)
    ensures InSlots(WithoutInSlots(slots, x), id)
            == InSlots(slots, id) - if id == x && InSlots(slots, x) > 0 then 1 else 0
  {
    if slots == [] {
    } else {
      WithoutCount(slots[0], x, id);
      WithoutInSlotsCount(slots[1..], x, id);
    }
  }

  /** Appending to one slot adds one wait to the wheel. */
  lemma AppendedCount(w: Wheel<int>, offset: nat, x: int, id: int)
    requires w.Valid()
    ensures InSlots(Appended(w, offset, x).slots, id) == InSlots(w.slots, id) + if id == x then 1 else 0
  {
    var i := w.Slot(offset);
    InSlotsUpdate(w.slots, i, w.slots[i] + [x], id);
  }

  /** What a take gathers is what the wheel loses. */
  lemma {:induction false} DrainedCount(w: Wheel<int>, cnt: nat, id: int)
    requires w.Valid() && cnt <= |w.slots|
    ensures InSlots(Drained(w, cnt), id) + multiset(Gather(w, cnt))[id] == InSlots(w.slots, id)
  {
    if cnt == 0 {
    } else {
      var before, i := Drained(w, cnt - 1), w.Slot(cnt - 1);
      DrainedCount(w, cnt - 1, id);
      assert before[i] == w.slots[i] by { DrainedLane(w, cnt - 1, cnt - 1); }
      InSlotsUpdate(before, i, [], id);
      assert multiset(Gather(w, cnt))[id] == multiset(Gather(w, cnt - 1))[id] + multiset(w.slots[i])[id];
    }
  }

  lemma TakenCount(w: Wheel<int>, now: nat, id: int)
    requires w.Valid() && w.start != 0
    ensures InSlots(TakeAllTimeout(w, now).0.slots, id) + multiset(TakeAllTimeout(w, now).1)[id]
            == InSlots(w.slots, id)
  {
    if w.start <= now && w.Count(now) >= 0 {
      DrainedCount(w, w.Count(now), id);
    }
  }

  // ---------- Every step keeps the invariant ----------

  lemma InitialInv(s: Loop)
    requires Initial(s)
    ensures Inv(s)
  {
    forall id
      ensures InSlots(s.wheel.slots, id) == 0
    {
      InSlotsEmpty(|s.wheel.slots|, id);
    }
  }

  /** AddTimeout succeeds when the origin is not after the clock and the deadline not before it. */
  lemma AddTimeoutSucceeds(w: Wheel<int>, x: int, expire: nat, now: nat)
    requires w.Valid() && w.start != 0 && w.start <= now <= expire
    ensures AddTimeout(w, x, expire, now) == Added(Appended(w, Offset(w, expire), x))
    ensures AddTimeout(w, x, expire, now).wheel.start == w.start
    ensures forall id :: InSlots(AddTimeout(w, x, expire, now).wheel.slots, id)
                         == InSlots(w.slots, id) + if id == x then 1 else 0
  {
    forall id {
      AppendedCount(w, Offset(w, expire), x, id);
    }
  }

  lemma ParkKeepsInv(s: Loop, id: int, tick: nat, timeout: nat)
    requires Inv(s) && id !in s.waits
    ensures Inv(AfterPark(s, id, tick, timeout))
  {
    var t := AfterPark(s, id, tick, timeout);
    if s.wheel.start <= tick {
      AddTimeoutSucceeds(s.wheel, id, tick + timeout, tick);
      assert Conserved(t);
    } else {
      assert t == s;
    }
  }

  /** Outside the processing phase, a wait that no event has reached is on the wheel only. */
  lemma UndetachedIsOnWheel(s: Loop, x: int)
    requires Inv(s) && CanRaise(s, x) && !s.waits[x].detached
    ensures x !in s.active && InSlots(s.wheel.slots, x) == 1
    ensures forall id :: InSlots(WithoutInSlots(s.wheel.slots, x), id)
                         == InSlots(s.wheel.slots, id) - if id == x then 1 else 0
    ensures Without(s.active, x) == s.active
  {
    InSlotsMember(s.wheel.slots, x);
    forall id {
      WithoutInSlotsCount(s.wheel.slots, x, id);
    }
    WithoutCount(s.active, x, x);
  }

  /** Removing a wait from the wheel and appending it to the active list. */
  lemma MoveIsConserved(s: Loop, x: int)
    requires Inv(s) && CanRaise(s, x) && !s.waits[x].detached
    ensures x !in s.active && Conserved(AfterRaise(s, x))
  {
    UndetachedIsOnWheel(s, x);
    assert AfterRaise(s, x).active == s.active + [x];
  }

  /** A further event for a wait that is on the active list already. */
  lemma CountingKeepsInv(s: Loop, x: int)
    requires Inv(s) && CanRaise(s, x) && s.waits[x].detached
    ensures Inv(AfterRaise(s, x))
  {
    assert InSlots(s.wheel.slots, x) == 0;
    assert Conserved(AfterRaise(s, x));
  }

  lemma MovingKeepsInv(s: Loop, x: int)
    requires Inv(s) && CanRaise(s, x) && !s.waits[x].detached
    ensures Inv(AfterRaise(s, x))
  {
    var t := AfterRaise(s, x);
    UndetachedIsOnWheel(s, x);
    MoveIsConserved(s, x);
    assert WaitingIsQuiet(t) && ActiveHasReason(t);
  }

  lemma RaiseKeepsInv(s: Loop, x: int)
    requires Inv(s) && CanRaise(s, x)
    ensures Inv(AfterRaise(s, x))
  {
    if s.waits[x].detached {
      CountingKeepsInv(s, x);
    } else {
      MovingKeepsInv(s, x);
    }
  }

  lemma TakeKeepsInv(s: Loop, now: nat)
    requires Inv(s) && CanTake(s, now)
    ensures Inv(AfterTake(s, now))
  {
    forall id {
      TakenCount(s.wheel, now, id);
    }
  }

  /** The wait at the head of the active list, whose deadline has not come, goes back to the wheel. */
  ghost predicate IsEarly(s: Loop) {
    && s.phase.Processing? && s.active != [] && s.active[0] in s.waits
    && s.waits[s.active[0]].timedOut && s.phase.now < s.waits[s.active[0]].expire
  }

  /** A wait longer than the wheel is always parked again. */
  lemma EarlyWaitIsReparked(s: Loop)
    requires Inv(s) && IsEarly(s)
    ensures var id := s.active[0];
            && AddTimeout(s.wheel, id, s.waits[id].expire, s.phase.now).Added?
            && AfterProcess(s).log == s.log
            && InSlots(AfterProcess(s).wheel.slots, id) == 1
            && Inv(AfterProcess(s))
  {
    var id, now := s.active[0], s.phase.now;
    AddTimeoutSucceeds(s.wheel, id, s.waits[id].expire, now);
    ActiveSplits(s.active);
    var t := AfterProcess(s);
    assert Conserved(t);
    assert WaitingIsQuiet(t) && ActiveHasReason(t);
  }

  lemma ActiveSplits(s: seq<int>)
    requires s != []
    ensures forall id :: multiset(s)[id] == multiset(s[1..])[id] + if id == s[0] then 1 else 0
  {
    assert s == [s[0]] + s[1..];
  }

  lemma ResumedSnoc(log: seq<Resumption>, r: Resumption)
    ensures forall id :: Resumed(log + [r], id) == Resumed(log, id) + if r.id == id then 1 else 0
  {
    assert (log + [r])[..|log|] == log;
  }

  /** The wait moves from the active list to the log. */
  lemma ResumeIsConserved(s: Loop)
    requires Inv(s) && CanProcess(s) && !IsEarly(s)
    ensures Conserved(AfterProcess(s))
  {
    ActiveSplits(s.active);
    ResumedSnoc(s.log, Resumption(s.active[0], s.waits[s.active[0]].raised, s.phase.now));
  }

  lemma ResumeKeepsInv(s: Loop)
    requires Inv(s) && CanProcess(s) && !IsEarly(s)
    ensures Inv(AfterProcess(s))
    ensures AfterProcess(s).log == s.log + [Resumption(s.active[0], s.waits[s.active[0]].raised, s.phase.now)]
  {
    var t := AfterProcess(s);
    ResumeIsConserved(s);
    assert forall id <- t.active :: id in s.active;
    assert WaitingIsQuiet(t) && ActiveHasReason(t);
  }

  lemma StepKeepsInv(s: Loop, step: Step)
    requires Inv(s) && Enabled(s, step)
    ensures Inv(Next(s, step))
  {
    match step
    case Park(id, tick, timeout) => ParkKeepsInv(s, id, tick, timeout);
    case Raise(id) => RaiseKeepsInv(s, id);
    case Take(now) => TakeKeepsInv(s, now);
    case Process =>
      if IsEarly(s) {
        EarlyWaitIsReparked(s);
      } else {
        ResumeKeepsInv(s);
      }
    case NextTurn =>
  }

  /**
    In every run every wait is on exactly one list until its coroutine is resumed, is resumed exactly
    once, and a resumption that reports no event comes at or after the deadline.
   */
  lemma {:induction false} RunKeepsInv(s: Loop, steps: seq<Step>)
    requires Inv(s) && EnabledRun(s, steps)
    ensures Inv(Run(s, steps))
    decreases |steps|
  {
    if steps == [] {
    } else {
      StepKeepsInv(s, steps[0]);
      RunKeepsInv(Next(s, steps[0]), steps[1..]);
    }
  }

  /** Outside the epoll results and the parking of new waits, the loop always has a step to take. */
  lemma LoopIsNeverStuck(s: Loop, now: nat)
    requires Inv(s)
    ensures s.phase.Collecting? ==> (CanTake(s, now) <==> !s.wheel.LosesIndex(now))
    ensures s.phase.Processing? ==> CanProcess(s) || s.active == []
  {
    if s.phase.Collecting? {
      var taken := TakeAllTimeout(s.wheel, now).1;
      forall i | 0 <= i < |taken|
        ensures taken[i] in s.waits
      {
        TakenCount(s.wheel, now, taken[i]);
      }
    } else if s.active != [] {
      var id := s.active[0];
      assert InSlots(s.wheel.slots, id) + multiset(s.active)[id] >= 1;
    }
  }

  // ---------- No deadline is missed ----------

  /** A slot of the wheel is due no later than the deadline of any wait in it. */
  ghost predicate DueByDeadline(s: Loop)
    requires s.wheel.Valid()
  {
    forall j, id | 0 <= j < |s.wheel.slots| && id in s.wheel.Lanes()[j] && id in s.waits ::
      s.wheel.start + j <= s.waits[id].expire
  }

  /** The clock moved by an amount that TakeAllTimeout can count. */
  ghost predicate ClockIsSane(w: Wheel<int>, now: nat) {
    w.start <= now ==> CountIsComplete(now - w.start, |w.slots|)
  }

  /** Every slot is at some offset from llStartIdx. */
  lemma SlotIsOnto(w: Wheel<int>, i: nat) returns (j: nat)
    requires w.Valid() && i < |w.slots|
    ensures j < |w.slots| && w.Slot(j) == i
  {
    var n := |w.slots|;
    var q, r := w.startIdx / n, w.startIdx % n;
    if i >= r {
      j := i - r;
      ModUnique(w.startIdx + j, n, q, i);
    } else {
      j := i + n - r;
      assert w.startIdx + j == n * (q + 1) + i;
      ModUnique(w.startIdx + j, n, q + 1, i);
    }
  }

  lemma AddedIsDueByDeadline(s: Loop, t: Loop, x: int, now: nat)
    requires Inv(s) && DueByDeadline(s) && x in t.waits && s.wheel.start <= now <= t.waits[x].expire
    requires t.wheel == AddTimeout(s.wheel, x, t.waits[x].expire, now).wheel
    requires forall id :: id in t.waits && id != x ==> id in s.waits && t.waits[id].expire == s.waits[id].expire
    requires InSlots(s.wheel.slots, x) == 0
    ensures t.wheel.Valid() && DueByDeadline(t)
  {
    var k := Offset(s.wheel, t.waits[x].expire);
    AddedLanes(s.wheel, x, k);
    InSlotsMember(s.wheel.slots, x);
  }

  lemma {:induction false} WithoutInSlotsSubset(slots: seq<seq<int>>, x: int, i: nat, y: int)
    requires i < |slots| && y in WithoutInSlots(slots, x)[i]
    ensures y in slots[i]
  {
    WithoutCount(slots[0], x, y);
    if i == 0 {
      assert multiset(WithoutInSlots(slots, x)[0])[y] > 0;
    } else if x !in slots[0] {
      WithoutInSlotsSubset(slots[1..], x, i - 1, y);
    }
  }

  lemma TakeKeepsDue(s: Loop, now: nat)
    requires Inv(s) && DueByDeadline(s) && CanTake(s, now) && ClockIsSane(s.wheel, now)
    ensures DueByDeadline(AfterTake(s, now))
    ensures s.wheel.start <= now ==> AfterTake(s, now).wheel.Lanes()[0] == []
  {
    if s.wheel.start <= now {
      CompleteCount(s.wheel, now);
      TakenLanes(s.wheel, s.wheel.Count(now), now);
    }
  }

  lemma RaiseKeepsDue(s: Loop, x: int)
    requires Inv(s) && DueByDeadline(s) && CanRaise(s, x)
    ensures DueByDeadline(AfterRaise(s, x))
  {
    var t := AfterRaise(s, x);
    forall j, id | 0 <= j < |t.wheel.slots| && id in t.wheel.Lanes()[j] && id in t.waits
      ensures t.wheel.start + j <= t.waits[id].expire
    {
      if t.wheel != s.wheel {
        WithoutInSlotsSubset(s.wheel.slots, x, s.wheel.Slot(j), id);
      }
      assert id in s.wheel.Lanes()[j];
    }
  }

  lemma ParkKeepsDue(s: Loop, id: int, tick: nat, timeout: nat)
    requires Inv(s) && DueByDeadline(s) && id !in s.waits
    ensures var t := AfterPark(s, id, tick, timeout); t.wheel.Valid() && DueByDeadline(t)
  {
    if s.wheel.start <= tick {
      AddTimeoutSucceeds(s.wheel, id, tick + timeout, tick);
      AddedIsDueByDeadline(s, AfterPark(s, id, tick, timeout), id, tick);
    }
  }

  lemma ProcessKeepsDue(s: Loop)
    requires Inv(s) && DueByDeadline(s) && CanProcess(s)
    ensures AfterProcess(s).wheel.Valid() && DueByDeadline(AfterProcess(s))
  {
    if IsEarly(s) {
      var id := s.active[0];
      AddTimeoutSucceeds(s.wheel, id, s.waits[id].expire, s.phase.now);
      assert multiset(s.active)[id] > 0;
      AddedIsDueByDeadline(s, AfterProcess(s), id, s.phase.now);
    }
  }

  lemma StepKeepsDue(s: Loop, step: Step)
    requires Inv(s) && DueByDeadline(s) && Enabled(s, step) && (step.Take? ==> ClockIsSane(s.wheel, step.now))
    ensures Next(s, step).wheel.Valid() && DueByDeadline(Next(s, step))
  {
    match step
    case Park(id, tick, timeout) => ParkKeepsDue(s, id, tick, timeout);
    case Raise(id) => RaiseKeepsDue(s, id);
    case Take(now) => TakeKeepsDue(s, now);
    case Process => ProcessKeepsDue(s);
    case NextTurn =>
  }

  /** In every run whose clock readings can be counted, slots stay due by the deadlines in them. */
  lemma {:induction false} RunKeepsDue(s: Loop, steps: seq<Step>)
    requires Inv(s) && DueByDeadline(s) && EnabledRun(s, steps) && SaneRun(s, steps)
    ensures Inv(Run(s, steps)) && DueByDeadline(Run(s, steps))
    decreases |steps|
  {
    if steps == [] {
    } else {
      StepKeepsInv(s, steps[0]);
      StepKeepsDue(s, steps[0]);
      RunKeepsDue(Next(s, steps[0]), steps[1..]);
    }
  }

  ghost predicate SaneRun(s: Loop, steps: seq<Step>)
    requires EnabledRun(s, steps)
    decreases |steps|
  {
    steps == [] || ((steps[0].Take? ==> ClockIsSane(s.wheel, steps[0].now)) && SaneRun(Next(s, steps[0]), steps[1..]))
  }

  /** What is left on the wheel after a take, among the waits in `known`, is not due yet. */
  ghost predicate NothingDueIsLeft(s: Loop, known: set<int>, now: nat) {
    forall id :: id in known && id in s.waits && InSlots(s.wheel.slots, id) > 0 ==> now < s.waits[id].expire
  }

  lemma TakeLeavesNothingDue(s: Loop, now: nat)
    requires Inv(s) && DueByDeadline(s) && CanTake(s, now) && ClockIsSane(s.wheel, now)
    ensures NothingDueIsLeft(AfterTake(s, now), s.waits.Keys, now)
  {
    var t := AfterTake(s, now);
    TakeKeepsDue(s, now);
    forall id | id in s.waits && InSlots(t.wheel.slots, id) > 0
      ensures now < t.waits[id].expire
    {
      InSlotsMember(t.wheel.slots, id);
      var i :| 0 <= i < |t.wheel.slots| && id in t.wheel.slots[i];
      var j := SlotIsOnto(t.wheel, i);
      assert id in t.wheel.Lanes()[j];
    }
  }

  /** The rest of a turn: waits are worked off and new ones parked, until the active list is empty. */
  ghost predicate RestOfTurn(steps: seq<Step>) {
    forall i | 0 <= i < |steps| :: steps[i].Park? || steps[i].Process?
  }

  lemma StepLeavesNothingDue(s: Loop, step: Step, known: set<int>)
    requires Inv(s) && s.phase.Processing? && Enabled(s, step) && (step.Park? || step.Process?)
    requires known <= s.waits.Keys && NothingDueIsLeft(s, known, s.phase.now)
    ensures var t := Next(s, step);
            && t.phase == s.phase && NothingDueIsLeft(t, known, s.phase.now)
            && (forall id <- known :: id in t.waits && t.waits[id].expire == s.waits[id].expire)
  {
    if step.Park? {
      if s.wheel.start <= step.tick {
        AddTimeoutSucceeds(s.wheel, step.id, step.tick + step.timeout, step.tick);
      }
    } else if IsEarly(s) {
      AddTimeoutSucceeds(s.wheel, s.active[0], s.waits[s.active[0]].expire, s.phase.now);
    }
  }

  lemma {:induction false} RestLeavesNothingDue(s: Loop, steps: seq<Step>, known: set<int>)
    requires Inv(s) && s.phase.Processing? && EnabledRun(s, steps) && RestOfTurn(steps)
    requires known <= s.waits.Keys && NothingDueIsLeft(s, known, s.phase.now)
    ensures var t := Run(s, steps);
            && Inv(t) && NothingDueIsLeft(t, known, s.phase.now)
            && (forall id <- known :: id in t.waits && t.waits[id].expire == s.waits[id].expire)
    decreases |steps|
  {
    if steps == [] {
    } else {
      assert steps[0].Park? || steps[0].Process?;
      StepKeepsInv(s, steps[0]);
      StepLeavesNothingDue(s, steps[0], known);
      RestLeavesNothingDue(Next(s, steps[0]), steps[1..], known);
    }
  }

  /**
    No deadline is missed: when a turn of the loop that reads clock `now` has emptied the active list,
    every wait that was pending before it with a deadline up to `now` has been resumed.
   */
  lemma TurnResumesEveryDueWait(s: Loop, now: nat, steps: seq<Step>, id: int)
    requires Inv(s) && DueByDeadline(s) && CanTake(s, now) && ClockIsSane(s.wheel, now)
    requires EnabledRun(AfterTake(s, now), steps) && RestOfTurn(steps)
    requires Run(AfterTake(s, now), steps).active == []
    requires id in s.waits && s.waits[id].expire <= now
    ensures Resumed(Run(AfterTake(s, now), steps).log, id) == 1
  {
    var taken := AfterTake(s, now);
    StepKeepsInv(s, Take(now));
    TakeLeavesNothingDue(s, now);
    RestLeavesNothingDue(taken, steps, s.waits.Keys);
    var t := Run(taken, steps);
    assert InSlots(t.wheel.slots, id) == 0;
    assert multiset(t.active)[id] == 0;
  }

  // ---------- What a parked wait can rely on ----------

  lemma StepKeepsDeadlines(s: Loop, step: Step)
    requires Inv(s) && Enabled(s, step)
    ensures forall id <- s.waits :: id in Next(s, step).waits && Next(s, step).waits[id].expire == s.waits[id].expire
  {
  }

  lemma {:induction false} DeadlinesAreFixed(s: Loop, steps: seq<Step>)
    requires Inv(s) && EnabledRun(s, steps)
    ensures forall id <- s.waits :: id in Run(s, steps).waits && Run(s, steps).waits[id].expire == s.waits[id].expire
    decreases |steps|
  {
    if steps == [] {
    } else {
      StepKeepsInv(s, steps[0]);
      StepKeepsDeadlines(s, steps[0]);
      DeadlinesAreFixed(Next(s, steps[0]), steps[1..]);
    }
  }

  /** A poll that is parked at `tick` with a timeout is not resumed for want of events before the two together. */
  lemma PollWaitsForItsTimeout(s: Loop, id: int, tick: nat, timeout: nat, steps: seq<Step>)
    requires Inv(s) && id !in s.waits && timeout > 0 && s.wheel.start <= tick
    requires EnabledRun(s, [Park(id, tick, timeout)] + steps)
    ensures var t := Run(s, [Park(id, tick, timeout)] + steps);
            forall r <- t.log :: r.id == id && r.raised == 0 ==> r.now >= tick + timeout
  {
    var parked, all := AfterPark(s, id, tick, timeout), [Park(id, tick, timeout)] + steps;
    assert all[1..] == steps;
    AddTimeoutSucceeds(s.wheel, id, tick + timeout, tick);
    StepKeepsInv(s, Park(id, tick, timeout));
    DeadlinesAreFixed(parked, steps);
    RunKeepsInv(parked, steps);
  }

  // ---------- The epoll results ----------

  /** The first occurrence of each number that is not in `seen`. */
  ghost function Firsts(ids: seq<int>, seen: set<int>): seq<int> {
    if ids == [] then []
    else if ids[0] in seen then Firsts(ids[1..], seen)
    else [ids[0]] + Firsts(ids[1..], seen + {ids[0]})
  }

  ghost function Members(ids: seq<int>): set<int> {
    set id | id in ids
  }

  /**
    Collecting `results` queues the waits that they name, in the order of their first events, takes them off
    the wheel, and counts every event.
   */
  ghost predicate Collected(s: Loop, results: seq<int>, t: Loop) {
    && t.active == s.active + Firsts(results, Members(s.active)) && t.log == s.log && t.phase == s.phase
    && t.wheel.start == s.wheel.start && |t.wheel.slots| == |s.wheel.slots|
    && t.waits.Keys == s.waits.Keys
    && (forall id <- s.waits :: t.waits[id].expire == s.waits[id].expire
                                && t.waits[id].raised == s.waits[id].raised + multiset(results)[id])
    && (forall id :: InSlots(t.wheel.slots, id) == if id in results then 0 else InSlots(s.wheel.slots, id))
  }

  lemma NothingCollected(s: Loop)
    ensures Collected(s, [], s)
  {
    assert s.active + Firsts([], Members(s.active)) == s.active;
  }

  /** A wait that is pending during the epoll results is active if and only if an event has detached it. */
  lemma DetachedIsActive(s: Loop, id: int)
    requires Inv(s) && s.phase.Collecting? && Pending(s, id)
    ensures id in s.waits && (s.waits[id].detached <==> id in s.active)
    ensures InSlots(s.wheel.slots, id) == if id in s.active then 0 else 1
  {
    InSlotsMember(s.wheel.slots, id);
    PendingIffNotResumed(s);
    assert multiset(s.active)[id] > 0 <==> id in s.active;
  }

  /** One more event: the wait is queued if this is its first. */
  lemma RaiseQueues(t: Loop, id: int)
    requires Inv(t) && CanRaise(t, id)
    ensures var u := AfterRaise(t, id);
            && u.active == t.active + (if id in t.active then [] else [id])
            && u.log == t.log && u.phase == t.phase && u.wheel.start == t.wheel.start
            && |u.wheel.slots| == |t.wheel.slots| && u.waits.Keys == t.waits.Keys
            && (forall x <- t.waits :: u.waits[x].expire == t.waits[x].expire
                                       && u.waits[x].raised == t.waits[x].raised + if x == id then 1 else 0)
            && (forall x :: InSlots(u.wheel.slots, x) == if x == id then 0 else InSlots(t.wheel.slots, x))
  {
    DetachedIsActive(t, id);
    if !t.waits[id].detached {
      UndetachedIsOnWheel(t, id);
    }
  }

  lemma {:induction false} FirstsSnoc(ids: seq<int>, id: int, seen: set<int>)
    ensures Firsts(ids + [id], seen) == Firsts(ids, seen) + if id in seen || id in ids then [] else [id]
    decreases |ids|
  {
    var all := ids + [id];
    if ids == [] {
      assert all[1..] == [];
    } else {
      assert all[0] == ids[0] && all[1..] == ids[1..] + [id];
      assert id in ids <==> id == ids[0] || id in ids[1..];
      FirstsSnoc(ids[1..], id, if ids[0] in seen then seen else seen + {ids[0]});
    }
  }

  lemma {:induction false} FirstsMembers(ids: seq<int>, seen: set<int>)
    ensures forall id :: id in Firsts(ids, seen) <==> id in ids && id !in seen
    decreases |ids|
  {
    if ids == [] {
    } else {
      FirstsMembers(ids[1..], if ids[0] in seen then seen else seen + {ids[0]});
      assert forall id :: id in ids <==> id == ids[0] || id in ids[1..];
    }
  }

  /** The queue with one more event: a wait joins it unless it is there already. */
  lemma QueueSnoc(queue: seq<int>, results: seq<int>, id: int)
    ensures var queued := queue + Firsts(results, Members(queue));
            queued + (if id in queued then [] else [id]) == queue + Firsts(results + [id], Members(queue))
  {
    FirstsSnoc(results, id, Members(queue));
    FirstsMembers(results, Members(queue));
  }

  lemma CollectedSnoc(s: Loop, results: seq<int>, t: Loop, id: int)
    requires Collected(s, results, t) && Inv(t) && CanRaise(t, id)
    ensures Collected(s, results + [id], AfterRaise(t, id))
  {
    var u := AfterRaise(t, id);
    RaiseQueues(t, id);
    QueueSnoc(s.active, results, id);
    assert multiset(results + [id]) == multiset(results) + multiset{id};
  }

  // ---------- The order in which a turn resumes ----------

  ghost function Resumptions(ids: seq<int>, waits: map<int, Wait>, now: nat): (r: seq<Resumption>)
    requires AreWaits(waits, ids)
    ensures |r| == |ids|
  {
    seq(|ids|, i requires 0 <= i < |ids| => Resumption(ids[i], waits[ids[i]].raised, now))
  }

  /** The waits whose deadline has come, in their order. */
  ghost function Overdue(ids: seq<int>, waits: map<int, Wait>, now: nat): (r: seq<int>)
    requires AreWaits(waits, ids)
    ensures AreWaits(waits, r) && forall id <- r :: id in ids && waits[id].expire <= now
  {
    if ids == [] then []
    else
      var rest := Overdue(ids[1..], waits, now);
      if waits[ids[0]].expire <= now then [ids[0]] + rest else rest
  }

  /** The waits of the active list that are not parked again, in their order. */
  ghost function Ready(ids: seq<int>, waits: map<int, Wait>, now: nat): (r: seq<int>)
    requires AreWaits(waits, ids)
    ensures AreWaits(waits, r)
  {
    if ids == [] then []
    else
      var rest := Ready(ids[1..], waits, now);
      if waits[ids[0]].timedOut && now < waits[ids[0]].expire then rest else [ids[0]] + rest
  }

  /** What is said of some waits depends on those waits only. */
  lemma {:induction false} ReadyAgrees(ids: seq<int>, a: map<int, Wait>, b: map<int, Wait>, now: nat)
    requires AreWaits(a, ids) && AreWaits(b, ids) && forall i | 0 <= i < |ids| :: a[ids[i]] == b[ids[i]]
    ensures Ready(ids, a, now) == Ready(ids, b, now)
    ensures Resumptions(Ready(ids, a, now), a, now) == Resumptions(Ready(ids, b, now), b, now)
  {
    if ids == [] {
    } else {
      assert forall i | 0 <= i < |ids[1..]| :: ids[1..][i] == ids[i + 1];
      ReadyAgrees(ids[1..], a, b, now);
      ResumptionsCons(ids[0], Ready(ids[1..], a, now), a, now);
      ResumptionsCons(ids[0], Ready(ids[1..], b, now), b, now);
    }
  }

  lemma ResumptionsCons(id: int, ids: seq<int>, waits: map<int, Wait>, now: nat)
    requires id in waits && AreWaits(waits, ids)
    ensures AreWaits(waits, [id] + ids)
    ensures Resumptions([id] + ids, waits, now)
            == [Resumption(id, waits[id].raised, now)] + Resumptions(ids, waits, now)
  {
  }

  lemma ActiveAreWaits(s: Loop)
    requires Inv(s)
    ensures AreWaits(s.waits, s.active)
    ensures s.active != [] ==> s.active[0] !in s.active[1..]
  {
    forall i | 0 <= i < |s.active|
      ensures s.active[i] in s.waits
    {
      assert s.active[i] in multiset(s.active);
      assert InSlots(s.wheel.slots, s.active[i]) + multiset(s.active)[s.active[i]] >= 1;
    }
    if s.active != [] {
      ActiveSplits(s.active);
      var id := s.active[0];
      assert InSlots(s.wheel.slots, id) + multiset(s.active)[id] <= 1;
      assert multiset(s.active[1..])[id] == 0;
    }
  }

  ghost function ReadyLog(s: Loop): seq<Resumption>
    requires Inv(s) && s.phase.Processing?
  {
    ActiveAreWaits(s);
    s.log + Resumptions(Ready(s.active, s.waits, s.phase.now), s.waits, s.phase.now)
  }

  lemma ParkKeepsReadyLog(s: Loop, id: int, tick: nat, timeout: nat)
    requires Inv(s) && s.phase.Processing? && id !in s.waits
    ensures var t := AfterPark(s, id, tick, timeout);
            Inv(t) && t.phase == s.phase && ReadyLog(t) == ReadyLog(s)
  {
    var t := AfterPark(s, id, tick, timeout);
    ParkKeepsInv(s, id, tick, timeout);
    ActiveAreWaits(s);
    ReadyAgrees(s.active, s.waits, t.waits, s.phase.now);
  }

  lemma EarlyKeepsReadyLog(s: Loop)
    requires Inv(s) && CanProcess(s) && IsEarly(s)
    ensures var t := AfterProcess(s);
            Inv(t) && t.phase == s.phase && ReadyLog(t) == ReadyLog(s)
  {
    var t, rest := AfterProcess(s), s.active[1..];
    EarlyWaitIsReparked(s);
    ActiveAreWaits(s);
    ActiveAreWaits(t);
    assert forall i | 0 <= i < |rest| :: rest[i] in rest && rest[i] == s.active[i + 1];
    ReadyAgrees(rest, s.waits, t.waits, s.phase.now);
  }

  lemma ResumeKeepsReadyLog(s: Loop)
    requires Inv(s) && CanProcess(s) && !IsEarly(s)
    ensures var t := AfterProcess(s);
            Inv(t) && t.phase == s.phase && ReadyLog(t) == ReadyLog(s)
  {
    var id, rest, now := s.active[0], s.active[1..], s.phase.now;
    ResumeKeepsInv(s);
    ActiveAreWaits(s);
    ActiveAreWaits(AfterProcess(s));
    ResumptionsCons(id, Ready(rest, s.waits, now), s.waits, now);
    var a, b := [Resumption(id, s.waits[id].raised, now)], Resumptions(Ready(rest, s.waits, now), s.waits, now);
    assert s.log + (a + b) == s.log + a + b;
  }

  /** Each step of the rest of a turn leaves what will have been resumed in the end as it is. */
  lemma StepKeepsReadyLog(s: Loop, step: Step)
    requires Inv(s) && s.phase.Processing? && Enabled(s, step) && (step.Park? || step.Process?)
    ensures var t := Next(s, step);
            Inv(t) && t.phase == s.phase && ReadyLog(t) == ReadyLog(s)
  {
    if step.Park? {
      ParkKeepsReadyLog(s, step.id, step.tick, step.timeout);
    } else if IsEarly(s) {
      EarlyKeepsReadyLog(s);
    } else {
      ResumeKeepsReadyLog(s);
    }
  }

  lemma {:induction false} RestResumesReady(s: Loop, steps: seq<Step>)
    requires Inv(s) && s.phase.Processing? && EnabledRun(s, steps) && RestOfTurn(steps)
    requires Run(s, steps).active == []
    ensures Run(s, steps).log == ReadyLog(s)
    decreases |steps|
  {
    ActiveAreWaits(s);
    if steps == [] {
      assert s.log + [] == s.log;
    } else {
      assert steps[0].Park? || steps[0].Process?;
      StepKeepsReadyLog(s, steps[0]);
      RestResumesReady(Next(s, steps[0]), steps[1..]);
    }
  }

  lemma {:induction false} ReadyAppend(a: seq<int>, b: seq<int>, waits: map<int, Wait>, now: nat)
    requires AreWaits(waits, a) && AreWaits(waits, b)
    ensures AreWaits(waits, a + b) && Ready(a + b, waits, now) == Ready(a, waits, now) + Ready(b, waits, now)
    decreases |a|
  {
    if a == [] {
      assert a + b == b;
    } else {
      assert (a + b)[0] == a[0] && (a + b)[1..] == a[1..] + b;
      ReadyAppend(a[1..], b, waits, now);
    }
  }

  /** Waits that an event has made active are all ready. */
  lemma {:induction false} RaisedAreReady(ids: seq<int>, waits: map<int, Wait>, now: nat)
    requires AreWaits(waits, ids) && forall i | 0 <= i < |ids| :: !waits[ids[i]].timedOut
    ensures Ready(ids, waits, now) == ids
  {
    if ids == [] {
    } else {
      RaisedAreReady(ids[1..], waits, now);
    }
  }

  /** Of waits that were taken off the wheel, those are ready whose deadline has come. */
  lemma {:induction false} OverdueAreReady(ids: seq<int>, waits: map<int, Wait>, now: nat)
    requires AreWaits(waits, ids) && forall i | 0 <= i < |ids| :: waits[ids[i]].timedOut
    ensures Ready(ids, waits, now) == Overdue(ids, waits, now)
  {
    if ids == [] {
    } else {
      OverdueAreReady(ids[1..], waits, now);
    }
  }

  /** Whoever is overdue is due, so the whole schedule holds no more overdue waits than its expired part. */
  lemma {:induction false} OverdueAreExpired(queue: seq<(int, nat)>, waits: map<int, Wait>, now: nat)
    requires AreWaits(waits, Items(queue))
    requires forall i | 0 <= i < |queue| :: queue[i].0 in waits && queue[i].1 <= waits[queue[i].0].expire
    ensures AreWaits(waits, Items(Expired(queue, now)))
    ensures Overdue(Items(Expired(queue, now)), waits, now) == Overdue(Items(queue), waits, now)
  {
    if queue == [] {
    } else {
      var rest := queue[1..];
      assert Items(queue)[0] == queue[0].0 && Items(queue)[1..] == Items(rest);
      OverdueAreExpired(rest, waits, now);
      if queue[0].1 <= now {
        var e := Expired(queue, now);
        assert e == [queue[0]] + Expired(rest, now);
        assert Items(e)[0] == queue[0].0 && Items(e)[1..] == Items(Expired(rest, now));
      } else {
        assert Expired(queue, now) == Expired(rest, now);
      }
    }
  }

  lemma {:induction false} OverdueAgrees(ids: seq<int>, a: map<int, Wait>, b: map<int, Wait>, now: nat)
    requires AreWaits(a, ids) && AreWaits(b, ids) && forall i | 0 <= i < |ids| :: a[ids[i]].expire == b[ids[i]].expire
    ensures Overdue(ids, a, now) == Overdue(ids, b, now)
  {
    if ids == [] {
    } else {
      assert forall i | 0 <= i < |ids[1..]| :: ids[1..][i] == ids[i + 1];
      OverdueAgrees(ids[1..], a, b, now);
    }
  }

  /** Every entry of the schedule is a parked wait, due no later than its deadline. */
  lemma ScheduleIsDue(s: Loop)
    requires Inv(s) && DueByDeadline(s)
    ensures var queue := s.wheel.Schedule();
            && AreWaits(s.waits, Items(queue))
            && (forall i | 0 <= i < |queue| :: queue[i].0 in s.waits && queue[i].1 <= s.waits[queue[i].0].expire)
  {
    var queue, lanes := s.wheel.Schedule(), s.wheel.Lanes();
    forall i | 0 <= i < |queue|
      ensures queue[i].0 in s.waits && queue[i].1 <= s.waits[queue[i].0].expire
    {
      var j := DueFromOrigin(lanes, s.wheel.start, i);
      var id := queue[i].0;
      assert id in s.wheel.slots[s.wheel.Slot(j)];
      InSlotsMember(s.wheel.slots, id);
      assert InSlots(s.wheel.slots, id) > 0;
      assert id in lanes[j];
    }
  }

  /** Where an entry of the schedule comes from. */
  lemma {:induction false} DueFromOrigin<T>(lanes: seq<seq<T>>, due: nat, i: nat) returns (j: nat)
    requires i < |DueFrom(lanes, due)|
    ensures j < |lanes| && DueFrom(lanes, due)[i].0 in lanes[j] && DueFrom(lanes, due)[i].1 == due + j
    decreases |lanes|
  {
    var head := Tagged(lanes[0], due);
    if i < |head| {
      j := 0;
    } else {
      j := DueFromOrigin(lanes[1..], due + 1, i - |head|);
      j := j + 1;
    }
  }

  /**
    What a turn resumes, in order, at clock `now`: the waits that events have queued, then every wait on the
    wheel whose deadline has come, by due tick and first-in first-out within a tick.
   */
  ghost predicate WorkedOff(s: Loop, t: Loop, now: nat)
    requires Inv(s) && DueByDeadline(s)
  {
    ActiveAreWaits(s);
    ScheduleIsDue(s);
    && t.active == []
    && t.log == s.log + Resumptions(s.active, s.waits, now)
                + Resumptions(Overdue(Items(s.wheel.Schedule()), s.waits, now), s.waits, now)
  }

  lemma TurnResumesInOrder(s: Loop, now: nat, steps: seq<Step>)
    requires Inv(s) && DueByDeadline(s) && CanTake(s, now) && ClockIsSane(s.wheel, now)
    requires EnabledRun(AfterTake(s, now), steps) && RestOfTurn(steps) && Run(AfterTake(s, now), steps).active == []
    ensures WorkedOff(s, Run(AfterTake(s, now), steps), now)
  {
    TakeKeepsInv(s, now);
    RestResumesReady(AfterTake(s, now), steps);
    TakenAreReadyWhenOverdue(s, now);
  }

  /** After a take, what is ready is what was active and, behind it, what is overdue. */
  lemma TakenAreReadyWhenOverdue(s: Loop, now: nat)
    requires Inv(s) && DueByDeadline(s) && CanTake(s, now) && ClockIsSane(s.wheel, now)
    ensures Inv(AfterTake(s, now)) && AreWaits(s.waits, s.active) && AreWaits(s.waits, Items(s.wheel.Schedule()))
    ensures ReadyLog(AfterTake(s, now))
            == s.log + Resumptions(s.active, s.waits, now)
               + Resumptions(Overdue(Items(s.wheel.Schedule()), s.waits, now), s.waits, now)
  {
    var taken, u := TakeAllTimeout(s.wheel, now).1, AfterTake(s, now);
    TakeKeepsInv(s, now);
    TakenAreMarked(s, now);
    TakenAreOverdue(s, now);
    ReadyAppend(s.active, taken, u.waits, now);
    RaisedAreReady(s.active, u.waits, now);
    OverdueAreReady(taken, u.waits, now);
    OverdueAgrees(taken, s.waits, u.waits, now);
    ResumptionsAppend(s.active, Overdue(taken, s.waits, now), s.waits, u.waits, now);
    ConcatLogs(s.log, Resumptions(s.active, s.waits, now), Resumptions(Overdue(taken, s.waits, now), s.waits, now));
  }

  lemma ConcatLogs(a: seq<Resumption>, b: seq<Resumption>, c: seq<Resumption>)
    ensures a + (b + c) == a + b + c
  {
  }

  lemma ResumptionsAppend(a: seq<int>, b: seq<int>, waits: map<int, Wait>, marked: map<int, Wait>, now: nat)
    requires AreWaits(waits, a) && AreWaits(waits, b) && marked.Keys == waits.Keys
    requires forall id <- waits :: marked[id].raised == waits[id].raised
    ensures AreWaits(marked, a + b)
    ensures Resumptions(a + b, marked, now) == Resumptions(a, waits, now) + Resumptions(b, waits, now)
  {
  }

  lemma TakenAreOverdue(s: Loop, now: nat)
    requires Inv(s) && DueByDeadline(s) && CanTake(s, now) && ClockIsSane(s.wheel, now)
    ensures var taken := TakeAllTimeout(s.wheel, now).1;
            && AreWaits(s.waits, taken) && AreWaits(s.waits, Items(s.wheel.Schedule()))
            && Overdue(taken, s.waits, now) == Overdue(Items(s.wheel.Schedule()), s.waits, now)
  {
    ScheduleIsDue(s);
    TakeAllTimeoutRefinesQueue(s.wheel, now);
    OverdueAreExpired(s.wheel.Schedule(), s.waits, now);
  }

  /** A take marks what it takes and nothing that was active before. */
  lemma TakenAreMarked(s: Loop, now: nat)
    requires Inv(s) && CanTake(s, now)
    ensures var taken, u := TakeAllTimeout(s.wheel, now).1, AfterTake(s, now);
            && AreWaits(s.waits, taken) && AreWaits(u.waits, taken) && AreWaits(s.waits, s.active)
            && u.waits.Keys == s.waits.Keys
            && (forall i | 0 <= i < |taken| :: u.waits[taken[i]].timedOut)
            && (forall i | 0 <= i < |s.active| :: s.active[i] in u.waits && !u.waits[s.active[i]].timedOut)
            && (forall id <- s.waits ::
                  u.waits[id].expire == s.waits[id].expire && u.waits[id].raised == s.waits[id].raised)
  {
    var taken := TakeAllTimeout(s.wheel, now).1;
    ActiveAreWaits(s);
    forall i | 0 <= i < |s.active|
      ensures s.active[i] !in taken && !s.waits[s.active[i]].timedOut
    {
      var id := s.active[i];
      TakenCount(s.wheel, now, id);
      assert id in multiset(s.active);
      assert InSlots(s.wheel.slots, id) + multiset(s.active)[id] <= 1;
      assert multiset(taken)[id] == 0;
    }
  }

  // ---------- Whole turns ----------

  lemma {:induction false} RunSnoc(s: Loop, steps: seq<Step>, step: Step)
    requires EnabledRun(s, steps) && Enabled(Run(s, steps), step)
    ensures EnabledRun(s, steps + [step]) && Run(s, steps + [step]) == Next(Run(s, steps), step)
    decreases |steps|
  {
    if steps == [] {
      assert steps + [step] == [step];
    } else {
      assert (steps + [step])[1..] == steps[1..] + [step];
      RunSnoc(Next(s, steps[0]), steps[1..], step);
    }
  }

  /** A call of co_poll_inner made by a resumed coroutine: the tick it reads and its timeout. */
  datatype PollCall = PollCall(tick: nat, timeout: int)

  /** A negative timeout becomes INT_MAX. */
  function Effective(timeout: int): (r: nat)
    ensures timeout >= 0 ==> r == timeout
    ensures timeout < 0 ==> r == 2147483647
  {
    if timeout < 0 then 0x7fff_ffff else timeout
  }

  /** Every wait of `s` whose deadline is not after `now` has been resumed in `t`, once. */
  ghost predicate ResumedAllDue(s: Loop, t: Loop, now: nat) {
    forall id <- s.waits :: s.waits[id].expire <= now ==> Resumed(t.log, id) == 1
  }

  /** At the end of the epoll results a countable clock reading can be taken. */
  lemma StartOfTurn(s: Loop, now: nat)
    requires Reached(s) && s.phase.Collecting? && ClockIsSane(s.wheel, now)
    ensures CanTake(s, now) && Reached(AfterTake(s, now))
  {
    ReachedIsSound(s);
    if s.wheel.start <= now {
      CompleteCount(s.wheel, now);
    }
    LoopIsNeverStuck(s, now);
    ReachedNext(s, Take(now));
  }

  /** From a reachable state, the active list has been worked off as WorkedOff says. */
  ghost predicate Resumes(s: Loop, t: Loop, now: nat) {
    Reached(s) && (ReachedIsSound(s); WorkedOff(s, t, now))
  }

  /** When the active list has been worked off, every due wait has been resumed, in order. */
  lemma EndOfTurn(s: Loop, now: nat, steps: seq<Step>)
    requires Reached(s) && CanTake(s, now) && ClockIsSane(s.wheel, now)
    requires EnabledRun(AfterTake(s, now), steps) && RestOfTurn(steps) && Run(AfterTake(s, now), steps).active == []
    ensures Reached(Run(AfterTake(s, now), steps)) && ResumedAllDue(s, Run(AfterTake(s, now), steps), now)
    ensures Resumes(s, Run(AfterTake(s, now), steps), now)
  {
    var taken := AfterTake(s, now);
    ReachedIsSound(s);
    ReachedNext(s, Take(now));
    RestIsSane(taken, steps);
    ReachedRun(taken, steps);
    TurnResumesInOrder(s, now, steps);
    forall id <- s.waits | s.waits[id].expire <= now
      ensures Resumed(Run(taken, steps).log, id) == 1
    {
      TurnResumesEveryDueWait(s, now, steps, id);
    }
  }

  /** Only a take reads the clock for the wheel. */
  lemma {:induction false} RestIsSane(s: Loop, steps: seq<Step>)
    requires EnabledRun(s, steps) && RestOfTurn(steps)
    ensures SaneRun(s, steps)
    decreases |steps|
  {
    if steps == [] {
    } else {
      assert steps[0].Park? || steps[0].Process?;
      RestIsSane(Next(s, steps[0]), steps[1..]);
    }
  }

  lemma HeadIsEnabled(s: Loop, steps: seq<Step>)
    requires Reached(s) && EnabledRun(s, steps) && Run(s, steps).phase.Processing? && Run(s, steps).active != []
    ensures Enabled(Run(s, steps), Process)
  {
    ReachedIsSound(s);
    RunKeepsInv(s, steps);
    LoopIsNeverStuck(Run(s, steps), Run(s, steps).wheel.start);
  }

  // ---------- Reachable states ----------

  ghost predicate ReachedBy(s: Loop, start: Loop, steps: seq<Step>) {
    Initial(start) && EnabledRun(start, steps) && SaneRun(start, steps) && Run(start, steps) == s
  }

  /** Some run from a new loop, on a clock that TakeAllTimeout can count, leads here. */
  ghost predicate Reached(s: Loop) {
    exists start, steps :: ReachedBy(s, start, steps)
  }

  lemma InitialIsReached(s: Loop)
    requires Initial(s)
    ensures Reached(s)
  {
    assert ReachedBy(s, s, []);
  }

  lemma ReachedIsSound(s: Loop)
    requires Reached(s)
    ensures Inv(s) && DueByDeadline(s)
  {
    var start, steps :| ReachedBy(s, start, steps);
    InitialInv(start);
    assert forall j | 0 <= j < |start.wheel.slots| :: start.wheel.Lanes()[j] == [];
    RunKeepsDue(start, steps);
  }

  lemma {:induction false} SaneSnoc(s: Loop, steps: seq<Step>, step: Step)
    requires EnabledRun(s, steps) && SaneRun(s, steps) && Enabled(Run(s, steps), step)
    requires step.Take? ==> ClockIsSane(Run(s, steps).wheel, step.now)
    ensures EnabledRun(s, steps + [step]) && SaneRun(s, steps + [step])
    ensures Run(s, steps + [step]) == Next(Run(s, steps), step)
    decreases |steps|
  {
    if steps == [] {
      assert steps + [step] == [step];
    } else {
      assert (steps + [step])[1..] == steps[1..] + [step];
      SaneSnoc(Next(s, steps[0]), steps[1..], step);
    }
  }

  lemma ReachedNext(s: Loop, step: Step)
    requires Reached(s) && Enabled(s, step) && (step.Take? ==> ClockIsSane(s.wheel, step.now))
    ensures Reached(Next(s, step))
  {
    var start, steps :| ReachedBy(s, start, steps);
    SaneSnoc(start, steps, step);
    assert ReachedBy(Next(s, step), start, steps + [step]);
  }

  lemma {:induction false} ReachedRun(s: Loop, steps: seq<Step>)
    requires Reached(s) && EnabledRun(s, steps) && SaneRun(s, steps)
    ensures Reached(Run(s, steps))
    decreases |steps|
  {
    if steps == [] {
    } else {
      ReachedNext(s, steps[0]);
      ReachedRun(Next(s, steps[0]), steps[1..]);
    }
  }

  /** A wait is pending until it is resumed. */
  lemma PendingIffNotResumed(s: Loop)
    requires Inv(s)
    ensures forall id :: Pending(s, id) <==> id in s.waits && Resumed(s.log, id) == 0
  {
    forall id
      ensures Pending(s, id) <==> id in s.waits && Resumed(s.log, id) == 0
    {
      InSlotsMember(s.wheel.slots, id);
      assert multiset(s.active)[id] > 0 <==> id in s.active;
    }
  }
}
