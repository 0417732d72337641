/**
  libco's event loop over its pointer structures: the linked timing wheel, the active
  list and the timeout list. Every operation is proved to be a step of CoEventLoop,
  in which a node is represented by the number of the wait it belongs to.
 */
module CoScheduler {
  import opened IntrusiveList
  import opened TimingWheel
  import opened LinkedWheel
  import opened CoEventLoop

  // ---------- Nodes and their numbers ----------

  ghost function Ids(nodes: seq<Node>): (ids: seq<int>)
    ensures |ids| == |nodes|
  {
    seq(|nodes|, i requires 0 <= i < |nodes| => nodes[i].id)
  }

  ghost function IdSlots(slots: seq<seq<Node>>): (r: seq<seq<int>>)
    ensures |r| == |slots|
  {
    seq(|slots|, i requires 0 <= i < |slots| => Ids(slots[i]))
  }

  ghost function IdWheel(w: Wheel<Node>): Wheel<int> {
    Wheel(IdSlots(w.slots), w.start, w.startIdx)
  }

  lemma EmptyIds(n: nat)
    ensures IdSlots(seq(n, _ => [])) == seq(n, _ => [])
  {
  }

  lemma EmptyIsInitial(s: Loop)
    requires s.wheel.Valid() && s.wheel.start != 0 && s.wheel.slots == seq(|s.wheel.slots|, _ => [])
    requires s == Loop(s.wheel, [], map[], Collecting, [])
    ensures Initial(s) && Reached(s)
  {
    InitialIsReached(s);
  }

  lemma IdsConcat(a: seq<Node>, b: seq<Node>)
    ensures Ids(a + b) == Ids(a) + Ids(b)
  {
  }

  lemma IdsUpdate(slots: seq<seq<Node>>, i: nat, slot: seq<Node>)
    requires i < |slots|
    ensures IdSlots(slots[i := slot]) == IdSlots(slots)[i := Ids(slot)]
  {
  }

  lemma IdsAppended(w: Wheel<Node>, offset: nat, node: Node)
    requires w.Valid()
    ensures IdWheel(Appended(w, offset, node)) == Appended(IdWheel(w), offset, node.id)
  {
    var i := w.Slot(offset);
    IdsUpdate(w.slots, i, w.slots[i] + [node]);
    IdsConcat(w.slots[i], [node]);
    assert Ids([node]) == [node.id];
  }

  lemma {:induction false} IdsDrained(w: Wheel<Node>, cnt: nat)
    requires w.Valid()
    ensures IdSlots(Drained(w, cnt)) == Drained(IdWheel(w), cnt)
    ensures Ids(Gather(w, cnt)) == Gather(IdWheel(w), cnt)
  {
    if cnt == 0 {
    } else {
      IdsDrained(w, cnt - 1);
      IdsUpdate(Drained(w, cnt - 1), w.Slot(cnt - 1), []);
      IdsConcat(Gather(w, cnt - 1), w.slots[w.Slot(cnt - 1)]);
    }
  }

  /** Adding to the wheel commutes with naming. */
  lemma IdsAdd(w: Wheel<Node>, node: Node, now: nat)
    requires w.Valid()
    ensures var r, s := AddTimeout(w, node, node.expire, now), AddTimeout(IdWheel(w), node.id, node.expire, now);
            IdWheel(r.wheel) == s.wheel && (r.Added? <==> s.Added?)
  {
    var started := w.Started(now);
    if started.start <= now <= node.expire {
      IdsAppended(started, Offset(started, node.expire), node);
    }
  }

  /** And so does taking from it. */
  lemma IdsTake(w: Wheel<Node>, now: nat)
    requires w.Valid()
    ensures var r, s := TakeAllTimeout(w, now), TakeAllTimeout(IdWheel(w), now);
            IdWheel(r.0) == s.0 && Ids(r.1) == s.1
  {
    var started := w.Started(now);
    if started.start <= now && started.Count(now) >= 0 {
      IdsDrained(started, started.Count(now));
    }
  }

  /** The first occurrence is the only one. */
  lemma {:induction false} WithoutAt(s: seq<int>, k: nat)
    requires k < |s| && multiset(s)[s[k]] == 1
    ensures Without(s, s[k]) == s[..k] + s[k + 1..]
  {
    var rest := s[1..];
    assert s == [s[0]] + rest;
    assert multiset(s) == multiset{s[0]} + multiset(rest);
    if k == 0 {
    } else {
      assert s[k] == rest[k - 1];
      assert rest[k - 1] in multiset(rest);
      WithoutAt(rest, k - 1);
      assert rest[..k - 1] == s[1..k] && rest[k..] == s[k + 1..];
    }
  }

  lemma {:induction false} WithoutInSlotsAt(slots: seq<seq<int>>, i: nat, x: int)
    requires i < |slots| && x in slots[i] && InSlots(slots, x) == 1
    ensures multiset(slots[i])[x] == 1 && WithoutInSlots(slots, x) == slots[i := Without(slots[i], x)]
  {
    assert multiset(slots[i])[x] > 0;
    if i == 0 {
    } else {
      assert slots[i] == slots[1..][i - 1];
      InSlotsMember(slots[1..], x);
      WithoutInSlotsAt(slots[1..], i - 1, x);
    }
  }

  /** Taking the node at position `k` of slot `i` out of the wheel is taking its number out. */
  lemma IdsWithout(slots: seq<seq<Node>>, i: nat, k: nat)
    requires i < |slots| && k < |slots[i]| && InSlots(IdSlots(slots), slots[i][k].id) == 1
    ensures IdSlots(slots[i := slots[i][..k] + slots[i][k + 1..]]) == WithoutInSlots(IdSlots(slots), slots[i][k].id)
  {
    var x, rest := slots[i][k].id, slots[i][..k] + slots[i][k + 1..];
    assert IdSlots(slots)[i][k] == x;
    WithoutInSlotsAt(IdSlots(slots), i, x);
    WithoutAt(IdSlots(slots)[i], k);
    IdsUpdate(slots, i, rest);
    assert Ids(rest) == Ids(slots[i])[..k] + Ids(slots[i])[k + 1..];
  }

  // ---------- OnPollPreparePfn in two parts ----------

  ghost function Counted(s: Loop, id: int, detached: bool): Loop
    requires id in s.waits
  {
    s.(waits := s.waits[id := s.waits[id].(raised := s.waits[id].raised + 1, detached := detached)])
  }

  ghost function Moved(s: Loop, id: int): Loop {
    s.(wheel := s.wheel.(slots := WithoutInSlots(s.wheel.slots, id)), active := s.active + [id])
  }

  ghost function Raised(s: Loop, id: int): Loop
    requires id in s.waits
  {
    if s.waits[id].detached then Counted(s, id, true) else Moved(Counted(s, id, true), id)
  }

  ghost predicate UndetachedIsOnce(s: Loop, id: int)
    requires id in s.waits
  {
    !s.waits[id].detached ==> InSlots(s.wheel.slots, id) == 1
  }

  lemma RaisedIsAfterRaise(s: Loop, id: int)
    requires Inv(s) && CanRaise(s, id)
    ensures UndetachedIsOnce(s, id) && Raised(s, id) == AfterRaise(s, id)
  {
    if !s.waits[id].detached {
      UndetachedIsOnWheel(s, id);
    }
  }

  /** AddTimeout in the loop over the active list, and bTimeout cleared if it succeeds. */
  ghost function Reparked(s: Loop, id: int, now: nat): Loop
    requires s.wheel.Valid() && id in s.waits
  {
    var r := AddTimeout(s.wheel, id, s.waits[id].expire, now);
    s.(wheel := r.wheel,
       waits := if r.Added? then s.waits[id := s.waits[id].(timedOut := false)] else s.waits)
  }

  // ---------- The scheduler ----------

  /** The wheel stays valid while its lists and the nodes on them are left alone. */
  twostate lemma WheelStays(wheel: Timeout)
    requires old(wheel.Valid()) && unchanged(wheel) && forall list <- wheel.slots :: unchanged(list)
    requires forall node <- wheel.nodes :: old(node.link) in wheel.slots ==> unchanged(node)
    ensures wheel.Valid()
  {
    forall list <- wheel.slots
      ensures list.Valid()
    {
      assert old(wheel.Covers(list) && list.Valid());
      assert forall node <- list.contents :: old(node.link) == list;
      StaysValid(list);
    }
    forall i | 0 <= i < |wheel.slots|
      ensures wheel.Covers(wheel.slots[i]) && wheel.slots[i].contents == wheel.contents[i]
    {
      assert wheel.slots[i] in wheel.slots;
      assert old(wheel.Covers(wheel.slots[i]) && wheel.slots[i].contents == wheel.contents[i]);
    }
  }

  /** stCoEpoll_t. A poll is registered under its number; its flags are kept in `waits`. */
  class Scheduler {
    const wheel: Timeout
    const active: List
    const timeouts: List
    var polls: map<int, Node>
    var waits: map<int, Wait>
    var nextId: nat
    ghost var phase: Phase
    ghost var log: seq<Resumption>

    /** The state of CoEventLoop that this scheduler is in between its operations. */
    ghost var model: Loop

    /** Everything that an operation may touch. */
    ghost var Repr: set<object>

    ghost predicate Owned()
      reads this, wheel
    {
      && {this, wheel, active, timeouts} <= Repr && (forall list <- wheel.slots :: list in Repr)
      && forall node <- wheel.nodes :: node in Repr
    }

    /** The wheel and the two lists are sound and share nothing. */
    ghost predicate Sound()
      reads wheel, wheel.slots, wheel.nodes, active, timeouts
    {
      wheel.Valid() && wheel.Bystander(active) && wheel.Bystander(timeouts) && timeouts != active
    }

    /** Outside TakeTimeouts the timeout list is empty. */
    ghost predicate Linked()
      reads this, wheel, wheel.slots, wheel.nodes, active, timeouts
    {
      Sound() && wheel.startIdx >= 0 && timeouts.contents == [] && Registered()
    }

    ghost predicate Valid()
      reads this, Repr
    {
      this in Repr && wheel in Repr && Owned() && Linked() && model == State()
    }

    /** Numbers and nodes belong together. */
    ghost predicate Registered()
      reads this, wheel
    {
      && (forall node <- wheel.nodes :: node.id in polls && polls[node.id] == node)
      && (forall id <- polls :: polls[id].id == id && id < nextId)
      && (forall id <- waits :: id in polls && waits[id].expire == polls[id].expire)
    }

    ghost function State(): Loop
      reads this, wheel, active
    {
      Loop(IdWheel(wheel.Abs()), Ids(active.contents), waits, phase, log)
    }

    /** AllocEpoll at tick `now`. */
    constructor (slots: seq<List>, now: nat)
      requires |slots| > 0 && now > 0 && Timeout.Distinct(slots)
      requires forall i | 0 <= i < |slots| :: slots[i].Valid() && slots[i].contents == []
      ensures Valid() && Initial(model) && Steady(model)
    {
      active := new List();
      timeouts := new List();
      wheel := new Timeout(slots, now);
      polls, waits, nextId, phase, log := map[], map[], 0, Collecting, [];
      new;
      Begin();
    }

    /** A scheduler whose lists are all empty begins in an initial state of the model. */
    ghost method Begin()
      requires Sound() && wheel.startIdx == 0 && wheel.start != 0 && wheel.nodes == {}
      requires wheel.contents == seq(|wheel.contents|, _ => []) && active.contents == [] && timeouts.contents == []
      requires polls == map[] && waits == map[] && phase == Collecting && log == []
      modifies `model, `Repr
      ensures Valid() && Initial(model) && Steady(model)
    {
      Repr := {this, wheel, active, timeouts} + set list <- wheel.slots;
      EmptyIds(|wheel.contents|);
      EmptyIsInitial(State());
      model := State();
    }

    /** The model follows the structures. */
    ghost method Sync()
      requires Owned() && Linked()
      modifies `model
      ensures Valid() && model == State() == old(State())
    {
      model := State();
    }

    /** The registration of a wait under its number. */
    method Register(node: Node)
      requires Sound() && wheel.startIdx >= 0 && timeouts.contents == [] && node.id !in polls && node.id < nextId
      requires forall n <- wheel.nodes :: n == node || (n.id in polls && polls[n.id] == n)
      requires forall id <- polls :: polls[id].id == id && id < nextId
      requires forall id <- waits :: id in polls && waits[id].expire == polls[id].expire
      modifies `polls, `waits
      ensures Linked() && waits == old(waits)[node.id := Wait(node.expire, false, 0, false)]
    {
      polls := polls[node.id := node];
      waits := waits[node.id := Wait(node.expire, false, 0, false)];
    }

    /** AddTimeout and, if it succeeds, the registration of a new wait. */
    method Park(node: Node, tick: nat) returns (parked: bool)
      requires Linked() && node.link == null && node.id !in polls && node.id < nextId && tick <= node.expire
      modifies `polls, `waits, wheel, wheel.slots, wheel.nodes, node
      ensures Linked() && wheel.nodes <= old(wheel.nodes) + {node}
      ensures State() == AfterPark(old(State()), node.id, tick, node.expire - tick)
      ensures parked == (node.id in waits)
    {
      IdsAdd(wheel.Abs(), node, tick);
      parked := wheel.AddTimeout(node, tick, active);
      if parked {
        Register(node);
      }
    }

    /** The stPoll_t of a call, with a number of its own. */
    method Allocate(expire: nat) returns (node: Node)
      requires Linked()
      modifies `nextId
      ensures Linked() && State() == old(State()) && nextId == old(nextId) + 1
      ensures fresh(node) && node.link == null && node.id == old(nextId) && node.expire == expire
      ensures node.id !in polls
    {
      node := new Node(nextId, expire);
      nextId := nextId + 1;
    }

    /** Where the node of a wait on the wheel stands. */
    lemma Locate(id: int) returns (i: nat, k: nat)
      requires Linked() && InSlots(State().wheel.slots, id) > 0
      ensures i < |wheel.contents| && k < |wheel.contents[i]|
      ensures id in polls && wheel.contents[i][k] == polls[id] && polls[id].id == id
    {
      var slots := State().wheel.slots;
      InSlotsMember(slots, id);
      i :| 0 <= i < |slots| && id in slots[i];
      k :| 0 <= k < |slots[i]| && slots[i][k] == id;
      assert wheel.Covers(wheel.slots[i]) && wheel.slots[i].contents == wheel.contents[i];
      assert wheel.contents[i][k] in wheel.slots[i].contents;
    }

    /** RemoveFromLink for a wait on the wheel. */
    method Detach(id: int) returns (node: Node)
      requires Linked() && InSlots(State().wheel.slots, id) == 1
      modifies wheel`contents, wheel.slots, wheel.nodes
      ensures Linked() && node in wheel.nodes && node.link == null && node.id == id
      ensures var s := old(State());
              State() == s.(wheel := s.wheel.(slots := WithoutInSlots(s.wheel.slots, id)))
    {
      ghost var i, k := Locate(id);
      node := polls[id];
      IdsWithout(wheel.contents, i, k);
      assert wheel.Covers(wheel.slots[i]) && wheel.slots[i].contents == wheel.contents[i];
      wheel.Remove(node, i, k, active);
    }

    /** AddTail to the active list of a node that is on no list. */
    method Activate(node: Node)
      requires Linked() && node in wheel.nodes && node.link == null
      modifies active, wheel.nodes
      ensures Linked() && State() == old(State()).(active := old(State()).active + [node.id])
    {
      assert forall n <- active.contents :: n.link == active;
      AddTail(active, node);
      WheelStays(wheel);
      IdsConcat(old(active.contents), [node]);
      assert Ids([node]) == [node.id];
    }

    method MoveToActive(id: int)
      requires Linked() && InSlots(State().wheel.slots, id) == 1
      modifies wheel`contents, wheel.slots, wheel.nodes, active
      ensures Linked() && State() == Moved(old(State()), id)
    {
      var node := Detach(id);
      Activate(node);
    }

    method CountEvent(id: int, detached: bool)
      requires Linked() && id in waits
      modifies `waits
      ensures Linked() && State() == Counted(old(State()), id, detached)
    {
      waits := waits[id := waits[id].(raised := waits[id].raised + 1, detached := detached)];
    }

    method Prepare(id: int)
      requires Linked() && id in waits && UndetachedIsOnce(State(), id)
      modifies `waits, wheel`contents, wheel.slots, wheel.nodes, active
      ensures Linked() && State() == Raised(old(State()), id)
    {
      var detached := waits[id].detached;
      CountEvent(id, true);
      if !detached {
        MoveToActive(id);
      }
    }

    /** The loop that sets bTimeout on the nodes of the timeout list. */
    method MarkTimeouts()
      requires timeouts.Valid() && AreWaits(waits, Ids(timeouts.contents))
      modifies `waits
      ensures waits == MarkTimedOut(old(waits), Ids(timeouts.contents))
    {
      ghost var ids, i := Ids(timeouts.contents), 0;
      var node := timeouts.head;
      while node != null
        invariant 0 <= i <= |ids| && node == if i < |ids| then timeouts.contents[i] else null
        invariant waits.Keys == old(waits).Keys && waits == MarkTimedOut(old(waits), ids[..i])
        decreases |ids| - i
      {
        assert ids[..i + 1] == ids[..i] + [ids[i]];
        waits := waits[node.id := waits[node.id].(timedOut := true)];
        node := node.next;
        i := i + 1;
      }
      assert ids[..|ids|] == ids;
    }

    /** Join of the timeout list to the active list. */
    method JoinTimeouts()
      requires Sound()
      modifies active, timeouts, wheel.nodes
      ensures Sound() && timeouts.contents == [] && active.contents == old(active.contents) + old(timeouts.contents)
    {
      assert active.tail != null ==> active.tail in active.contents;
      assert forall n <- active.contents :: n.link == active;
      assert forall n <- timeouts.contents :: n.link == timeouts;
      Join(active, timeouts);
      WheelStays(wheel);
    }

    /** TakeAllTimeout into the empty timeout list. */
    method FillTimeouts(now: nat)
      requires Linked() && !State().wheel.LosesIndex(now)
      modifies wheel, wheel.slots, wheel.nodes, timeouts
      ensures Sound() && wheel.nodes == old(wheel.nodes) && wheel.startIdx >= 0
      ensures State() == old(State()).(wheel := TakeAllTimeout(old(State()).wheel, now).0)
      ensures Ids(timeouts.contents) == TakeAllTimeout(old(State()).wheel, now).1
    {
      IdsTake(wheel.Abs(), now);
      wheel.TakeAllTimeout(now, timeouts, active);
      assert timeouts.contents == TakeAllTimeout(old(wheel.Abs()), now).1;
    }

    /** What follows TakeAllTimeout: mark the nodes of the timeout list, and join it to the active list. */
    method MarkAndJoin(now: nat)
      requires Sound() && wheel.startIdx >= 0 && Registered() && AreWaits(waits, Ids(timeouts.contents))
      modifies `waits, `phase, wheel.nodes, active, timeouts
      ensures Linked()
      ensures var s, ids := old(State()), old(Ids(timeouts.contents));
              State() == s.(waits := MarkTimedOut(s.waits, ids), active := s.active + ids, phase := Processing(now))
    {
      IdsConcat(active.contents, timeouts.contents);
      MarkTimeouts();
      JoinTimeouts();
      phase := Processing(now);
    }

    method TakeAndJoin(now: nat)
      requires Linked() && CanTake(State(), now)
      modifies `waits, `phase, wheel, wheel.slots, wheel.nodes, active, timeouts
      ensures Linked() && wheel.nodes == old(wheel.nodes)
      ensures State() == AfterTake(old(State()), now)
    {
      FillTimeouts(now);
      MarkAndJoin(now);
    }

    /** PopHead of the active list. */
    method PopActive() returns (node: Node)
      requires Linked() && active.contents != []
      modifies active, wheel.nodes
      ensures Linked() && node == old(active.contents)[0] && node.link == null && node in wheel.nodes
      ensures State() == old(State()).(active := old(State()).active[1..])
    {
      node := active.head;
      assert node in active.contents;
      assert forall n <- active.contents :: n.link == active;
      PopHead(active);
      WheelStays(wheel);
    }

    /** AddTimeout for a wait whose deadline has not come, and the end of its timeout if that succeeds. */
    method Repark(node: Node, now: nat) returns (ok: bool)
      requires Linked() && node in wheel.nodes && node.link == null && node.id in waits
      modifies `waits, wheel, wheel.slots, wheel.nodes
      ensures Linked() && wheel.nodes == old(wheel.nodes)
      ensures State() == Reparked(old(State()), node.id, now)
      ensures ok == AddTimeout(old(State()).wheel, node.id, node.expire, now).Added?
    {
      ok := AddBack(node, now);
      if ok {
        waits := waits[node.id := waits[node.id].(timedOut := false)];
      }
    }

    method AddBack(node: Node, now: nat) returns (ok: bool)
      requires Linked() && node in wheel.nodes && node.link == null
      modifies wheel, wheel.slots, wheel.nodes
      ensures Linked() && wheel.nodes == old(wheel.nodes)
      ensures var r := AddTimeout(old(State()).wheel, node.id, node.expire, now);
              State() == old(State()).(wheel := r.wheel) && ok == r.Added?
    {
      IdsAdd(wheel.Abs(), node, now);
      ok := wheel.AddTimeout(node, now, active);
    }

    /** pfnProcess: the coroutine of the wait is resumed. */
    method Resume(node: Node, now: nat)
      requires Linked() && node.id in waits
      modifies `log
      ensures Linked()
      ensures State() == old(State()).(log := old(log) + [Resumption(node.id, waits[node.id].raised, now)])
    {
      log := log + [Resumption(node.id, waits[node.id].raised, now)];
    }

    method PopAndProcess(now: nat) returns (resumed: bool)
      requires Linked() && CanProcess(State()) && phase == Processing(now)
      modifies `waits, `log, wheel, wheel.slots, wheel.nodes, active
      ensures Linked() && wheel.nodes == old(wheel.nodes)
      ensures State() == AfterProcess(old(State()))
    {
      var node := PopActive();
      resumed := true;
      if waits[node.id].timedOut && now < node.expire {
        var ok := Repark(node, now);
        resumed := !ok;
      }
      if resumed {
        Resume(node, now);
      }
    }

    // ---------- The operations as steps of the model ----------

    ghost method Adopt(node: Node)
      requires Linked() && Owned()
      modifies `Repr
      ensures Linked() && Owned() && Repr == old(Repr) + {node} && State() == old(State())
    {
      Repr := Repr + {node};
    }

    method ParkNew(tick: nat, timeout: nat) returns (parked: bool)
      requires Valid()
      modifies Repr
      ensures Valid() && fresh(Repr - old(Repr)) && nextId == old(nextId) + 1
      ensures model == AfterPark(old(model), old(nextId), tick, timeout)
      ensures parked == (old(nextId) in model.waits)
    {
      var node := Allocate(tick + timeout);
      Adopt(node);
      parked := Park(node, tick);
      Sync();
    }

    /** co_poll_inner up to where it gives up control; with a timeout of zero it only polls. */
    method CoPoll(tick: nat, timeout: int) returns (parked: bool)
      requires Valid()
      modifies Repr
      ensures Valid() && fresh(Repr - old(Repr)) && nextId == old(nextId) + 1
      ensures model == if timeout == 0 then old(model)
                       else AfterPark(old(model), old(nextId), tick, Effective(timeout))
      ensures parked <==> timeout != 0 && old(model).wheel.start <= tick
      ensures parked ==> model.waits.Keys == old(model).waits.Keys + {old(nextId)}
      ensures parked && timeout > 0 ==> model.waits[old(nextId)] == Wait(tick + timeout, false, 0, false)
      ensures parked && timeout < 0 ==> model.waits[old(nextId)] == Wait(tick + 2147483647, false, 0, false)
      ensures !parked ==> model == old(model)
    {
      if timeout == 0 {
        nextId := nextId + 1;
        return false;
      }
      parked := ParkNew(tick, if timeout < 0 then 0x7fff_ffff else timeout);
    }

    /** OnPollPreparePfn. */
    method OnPollPrepare(id: int)
      requires Valid() && id in model.waits && UndetachedIsOnce(model, id)
      modifies Repr
      ensures Valid() && Repr == old(Repr) && model == Raised(old(model), id)
    {
      Prepare(id);
      Sync();
    }

    /** The timeout list is filled and marked, and the active list takes it over. */
    method TakeTimeouts(now: nat)
      requires Valid() && CanTake(model, now)
      modifies Repr
      ensures Valid() && Repr == old(Repr) && model == AfterTake(old(model), now)
    {
      TakeAndJoin(now);
      Sync();
    }

    /** One round of the loop over the active list; the coroutine is resumed unless its wait goes back. */
    method ProcessHead(now: nat) returns (resumed: bool)
      requires Valid() && CanProcess(model) && model.phase == Processing(now)
      modifies Repr
      ensures Valid() && Repr == old(Repr) && model == AfterProcess(old(model))
    {
      resumed := PopAndProcess(now);
      Sync();
    }

    /** The loop begins its next turn. */
    ghost method NextTurn()
      requires Valid() && Enabled(model, Step.NextTurn)
      modifies Repr
      ensures Valid() && Repr == old(Repr) && model == Next(old(model), Step.NextTurn)
    {
      phase := Collecting;
      model := State();
    }

    // ---------- The loops ----------

    /** One call of co_poll_inner that is made while the active list is worked off. */
    method MakeCall(call: PollCall, ghost origin: Loop, ghost before: seq<Step>) returns (ghost steps: seq<Step>)
      requires Valid() && EnabledRun(origin, before) && model == Run(origin, before) && RestOfTurn(before)
      modifies Repr
      ensures Valid() && fresh(Repr - old(Repr))
      ensures model.active == old(model).active && model.phase == old(model).phase
      ensures nextId == old(nextId) + 1
      ensures call.timeout != 0 && old(model).wheel.start <= call.tick ==> old(nextId) in model.waits
      ensures EnabledRun(origin, steps) && model == Run(origin, steps) && RestOfTurn(steps)
    {
      steps := before;
      if call.timeout != 0 {
        ghost var step := Step.Park(nextId, call.tick, Effective(call.timeout));
        RunSnoc(origin, steps, step);
        steps := steps + [step];
      }
      var _ := CoPoll(call.tick, call.timeout);
    }

    /** Any number of calls that a resumed coroutine, or those it resumes, make before it yields. */
    method MakeCalls(calls: seq<PollCall>, ghost origin: Loop, ghost before: seq<Step>) returns (ghost steps: seq<Step>)
      requires Valid() && EnabledRun(origin, before) && model == Run(origin, before) && RestOfTurn(before)
      modifies Repr
      ensures Valid() && fresh(Repr - old(Repr))
      ensures model.active == old(model).active && model.phase == old(model).phase
      ensures EnabledRun(origin, steps) && model == Run(origin, steps) && RestOfTurn(steps)
    {
      steps := before;
      for i := 0 to |calls|
        invariant Valid() && fresh(Repr - old(Repr))
        invariant model.active == old(model).active && model.phase == old(model).phase
        invariant EnabledRun(origin, steps) && model == Run(origin, steps) && RestOfTurn(steps)
      {
        steps := MakeCall(calls[i], origin, steps);
      }
    }

    /** One round of the loop over the active list, with the calls that a resumed coroutine makes. */
    method ProcessOne(now: nat, calls: seq<PollCall>, ghost origin: Loop, ghost before: seq<Step>)
      returns (resumed: bool, ghost steps: seq<Step>)
      requires Valid() && model.active != [] && model.phase == Processing(now)
      requires Reached(origin) && EnabledRun(origin, before) && model == Run(origin, before) && RestOfTurn(before)
      modifies Repr
      ensures Valid() && fresh(Repr - old(Repr))
      ensures model.phase == old(model).phase && |model.active| == |old(model).active| - 1
      ensures EnabledRun(origin, steps) && model == Run(origin, steps) && RestOfTurn(steps)
    {
      HeadIsEnabled(origin, before);
      RunSnoc(origin, before, Process);
      resumed := ProcessHead(now);
      steps := before + [Process];
      if resumed {
        steps := MakeCalls(calls, origin, steps);
      }
    }

    lemma HeadIsFirst()
      requires Valid()
      ensures active.head == null <==> model.active == []
    {
    }

    /** The loop over the active list; the i-th coroutine that is resumed makes the calls `calls[i]`. */
    method ProcessActive(now: nat, calls: seq<seq<PollCall>>) returns (ghost steps: seq<Step>)
      requires Valid() && Reached(model) && model.phase == Processing(now)
      modifies Repr
      ensures Valid() && fresh(Repr - old(Repr)) && model.active == [] && model.phase == old(model).phase
      ensures EnabledRun(old(model), steps) && model == Run(old(model), steps) && RestOfTurn(steps)
    {
      steps := [];
      var k := 0;
      HeadIsFirst();
      while active.head != null
        invariant 0 <= k && Valid() && fresh(Repr - old(Repr)) && model.phase == old(model).phase
        invariant active.head == null <==> model.active == []
        invariant EnabledRun(old(model), steps) && model == Run(old(model), steps) && RestOfTurn(steps)
        decreases |model.active|
      {
        var resumed;
        resumed, steps := ProcessOne(now, if k < |calls| then calls[k] else [], old(model), steps);
        k := if resumed then k + 1 else k;
        HeadIsFirst();
      }
    }

    /** What a turn starts from and comes back to. */
    static ghost predicate Steady(s: Loop) {
      Reached(s) && s.phase.Collecting?
    }

    /** The loop over the epoll results. */
    method Collect(results: seq<int>)
      requires Valid() && Steady(model)
      requires forall id <- results :: Pending(model, id)
      modifies Repr
      ensures Valid() && Repr == old(Repr) && Steady(model) && Collected(old(model), results, model)
    {
      NothingCollected(model);
      for i := 0 to |results|
        invariant Valid() && Repr == old(Repr) && Steady(model) && Collected(old(model), results[..i], model)
        invariant forall id <- results :: Pending(model, id)
      {
        assert results[..i + 1] == results[..i] + [results[i]];
        CollectOne(results[i], results[..i], old(model));
      }
      assert results[..|results|] == results;
    }

    method CollectOne(id: int, ghost done: seq<int>, ghost before: Loop)
      requires Valid() && Steady(model) && Collected(before, done, model) && Pending(model, id)
      modifies Repr
      ensures Valid() && Repr == old(Repr) && Steady(model) && Collected(before, done + [id], model)
      ensures forall x :: old(Pending(model, x)) ==> Pending(model, x)
    {
      RaiseKeepsSteady(before, done, model, id);
      OnPollPrepare(id);
    }

    /** The part of a turn that follows the epoll results. */
    method WorkOff(now: nat, calls: seq<seq<PollCall>>)
      requires Valid() && Steady(model) && ClockIsSane(model.wheel, now)
      modifies Repr
      ensures Valid() && fresh(Repr - old(Repr)) && Steady(model) && model.active == []
      ensures ResumedAllDue(old(model), model, now) && Resumes(old(model), model, now)
    {
      ghost var before := model;
      StartOfTurn(before, now);
      TakeTimeouts(now);
      ghost var steps := ProcessActive(now, calls);
      EndOfTurn(before, now, steps);
      ReachedNext(model, Step.NextTurn);
      NextTurn();
    }

    /**
      One turn of co_eventloop: the epoll results, the expired timeouts, then the active list. First the
      waits with events are resumed, in the order of their first events and with their number of events,
      then every wait whose deadline is not after `now`, by due tick; nothing else is resumed.
     */
    method Turn(results: seq<int>, now: nat, calls: seq<seq<PollCall>>)
      requires Valid() && Steady(model) && ClockIsSane(model.wheel, now)
      requires forall id <- results :: Pending(model, id)
      modifies Repr
      ensures Valid() && fresh(Repr - old(Repr)) && Steady(model) && model.active == []
      ensures ResumedAllDue(old(model), model, now)
      ensures exists ready :: Collected(old(model), results, ready) && Resumes(ready, model, now)
    {
      Collect(results);
      ghost var ready := model;
      WorkOff(now, calls);
      assert Collected(old(model), results, ready) && Resumes(ready, model, now);
    }
  }

  /** An epoll result leaves every wait pending that was. */
  lemma RaiseKeepsSteady(start: Loop, results: seq<int>, s: Loop, id: int)
    requires Scheduler.Steady(s) && Pending(s, id) && Collected(start, results, s)
    ensures CanRaise(s, id) && UndetachedIsOnce(s, id) && Raised(s, id) == AfterRaise(s, id)
    ensures Scheduler.Steady(AfterRaise(s, id)) && Collected(start, results + [id], AfterRaise(s, id))
    ensures forall x :: Pending(s, x) ==> Pending(AfterRaise(s, id), x)
  {
    ReachedIsSound(s);
    PendingIffNotResumed(s);
    RaisedIsAfterRaise(s, id);
    CollectedSnoc(start, results, s, id);
    ReachedNext(s, Raise(id));
    ReachedIsSound(AfterRaise(s, id));
    PendingIffNotResumed(AfterRaise(s, id));
  }
}
