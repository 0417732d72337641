/**
  muduo's TimerQueue: timers indexed twice, a timerfd armed for the earliest, and
  callbacks that add and cancel timers while an expired batch is running.

  Timers live at addresses that the allocator may hand out again, so a timer is
  identified by its address and its creation number together.
 */
module TimerQueue {

  type Addr = a: nat | a < 0xffff_ffff_ffff_ffff

  /** `delta` is the interval in microseconds. */
  datatype Timer = Timer(expiration: int, delta: nat, repeat: bool, sequence: nat)

  datatype Entry = Entry(when: int, addr: Addr)

  datatype TimerId = TimerId(addr: Addr, sequence: nat)

  /** The timerfd: one-shot, armed at some moment for a deadline, or fired and not yet read. */
  datatype TimerFd = Disarmed | Armed(deadline: int, armedAt: int) | Fired

  /** `owner` and `log` record who was created where and which timers ran; the rest is the source's state. */
  datatype Queue = Queue(
    heap: map<Addr, Timer>,
    timers: seq<Entry>,
    active: set<TimerId>,
    canceling: set<TimerId>,
    calling: bool,
    inFlight: set<Addr>,
    batch: seq<Entry>,
    index: nat,
    readAt: int,
    fd: TimerFd,
    created: nat,
    owner: map<nat, Addr>,
    log: seq<nat>)

  // ---------- timers_ as a std::set: a sequence in strictly ascending order ----------

  predicate Less(a: Entry, b: Entry) {
    a.when < b.when || (a.when == b.when && a.addr < b.addr)
  }

  ghost predicate Sorted(s: seq<Entry>) {
    forall i, j | 0 <= i < j < |s| :: Less(s[i], s[j])
  }

  function InsertEntry(s: seq<Entry>, e: Entry): seq<Entry> {
    if s == [] || Less(e, s[0]) then [e] + s else [s[0]] + InsertEntry(s[1..], e)
  }

  function RemoveEntry(s: seq<Entry>, e: Entry): seq<Entry> {
    if s == [] then [] else if s[0] == e then s[1..] else [s[0]] + RemoveEntry(s[1..], e)
  }

  /** The number of entries before the sentry (now, UINTPTR_MAX). */
  function ExpiredCount(s: seq<Entry>, now: int): (n: nat)
    ensures n <= |s|
  {
    if s == [] || s[0].when > now then 0 else 1 + ExpiredCount(s[1..], now)
  }

  lemma {:induction false} InsertEntryIs(s: seq<Entry>, e: Entry)
    requires Sorted(s) && e !in s
    ensures Sorted(InsertEntry(s, e))
    ensures forall x :: x in InsertEntry(s, e) <==> x == e || x in s
    ensures InsertEntry(s, e) != [] && (InsertEntry(s, e)[0] == e || (s != [] && InsertEntry(s, e)[0] == s[0]))
    ensures InsertEntry(s, e)[0] == e <==> s == [] || Less(e, s[0])
  {
    if s == [] || Less(e, s[0]) {
    } else {
      var r := InsertEntry(s[1..], e);
      InsertEntryIs(s[1..], e);
      assert s == [s[0]] + s[1..];
      forall j | 0 <= j < |r|
        ensures Less(s[0], r[j])
      {
        assert r[j] in r;
      }
    }
  }

  lemma {:induction false} RemoveEntryIs(s: seq<Entry>, e: Entry)
    requires Sorted(s)
    ensures Sorted(RemoveEntry(s, e))
    ensures forall x :: x in RemoveEntry(s, e) <==> x in s && x != e
  {
    if s == [] {
    } else {
      assert s == [s[0]] + s[1..];
      if s[0] == e {
      } else {
        var r := RemoveEntry(s[1..], e);
        RemoveEntryIs(s[1..], e);
        forall j | 0 <= j < |r|
          ensures Less(s[0], r[j])
        {
          assert r[j] in r;
        }
      }
    }
  }

  /** The entries before the sentry are exactly the expired ones. */
  lemma {:induction false} ExpiredCountIs(s: seq<Entry>, now: int)
    requires Sorted(s)
    ensures forall i | 0 <= i < |s| :: s[i].when <= now <==> i < ExpiredCount(s, now)
  {
    if s == [] || s[0].when > now {
    } else {
      ExpiredCountIs(s[1..], now);
      assert forall i | 1 <= i < |s| :: s[i] == s[1..][i - 1];
    }
  }

  // ---------- The operations ----------

  /** resetTimerfd with howMuchTimeFromNow: at least 100 microseconds ahead. */
  function Arm(when: int, now: int): TimerFd {
    Armed(if when - now < 100 then now + 100 else when, now)
  }

  function IdOf(q: Queue, addr: Addr): TimerId
    requires addr in q.heap
  {
    TimerId(addr, q.heap[addr].sequence)
  }

  function EntryOf(q: Queue, addr: Addr): Entry
    requires addr in q.heap
  {
    Entry(q.heap[addr].expiration, addr)
  }

  /** insert, on both indexes. */
  function AfterInsert(q: Queue, addr: Addr): Queue
    requires addr in q.heap
  {
    q.(timers := InsertEntry(q.timers, EntryOf(q, addr)), active := q.active + {IdOf(q, addr)})
  }

  predicate EarliestChanged(q: Queue, when: int) {
    q.timers == [] || when < q.timers[0].when
  }

  /** addTimer: a new timer at an address that is free now. */
  function AfterCreate(q: Queue, addr: Addr, when: int, delta: nat, repeat: bool): Queue {
    q.(heap := q.heap[addr := Timer(when, delta, repeat, q.created + 1)],
       inFlight := q.inFlight + {addr}, created := q.created + 1,
       owner := q.owner[q.created + 1 := addr])
  }

  /** addTimerInLoop at clock `now`. */
  function AfterAdd(q: Queue, addr: Addr, now: int): Queue
    requires addr in q.heap
  {
    var r := AfterInsert(q, addr).(inFlight := q.inFlight - {addr});
    var when := q.heap[addr].expiration;
    if EarliestChanged(q, when) then r.(fd := Arm(when, now)) else r
  }

  /** cancelInLoop: a live timer is taken out and deleted; during callbacks any other id is remembered. */
  function AfterCancel(q: Queue, id: TimerId): Queue
    requires id in q.active ==> id.addr in q.heap
  {
    if id in q.active then
      q.(timers := RemoveEntry(q.timers, EntryOf(q, id.addr)), heap := q.heap - {id.addr},
         active := q.active - {id})
    else if q.calling then q.(canceling := q.canceling + {id})
    else q
  }

  function Ids(heap: map<Addr, Timer>, entries: seq<Entry>): set<TimerId>
    requires forall e <- entries :: e.addr in heap
  {
    set e | e in entries :: TimerId(e.addr, heap[e.addr].sequence)
  }

  /** handleRead up to the first callback: read the timerfd, then getExpired. */
  function AfterRead(q: Queue, now: int): Queue
    requires forall e <- q.timers :: e.addr in q.heap
  {
    var n := ExpiredCount(q.timers, now);
    var expired := q.timers[..n];
    q.(fd := if q.fd.Fired? then Disarmed else q.fd, timers := q.timers[n..],
       active := q.active - Ids(q.heap, expired),
       calling := true, canceling := {}, batch := expired, index := 0, readAt := now)
  }

  /** One callback of the batch. */
  function AfterCallback(q: Queue): Queue
    requires q.index < |q.batch| && q.batch[q.index].addr in q.heap
  {
    q.(log := q.log + [q.heap[q.batch[q.index].addr].sequence], index := q.index + 1)
  }

  /** restart from the moment of the read, and insert. */
  function AfterRestart(q: Queue, addr: Addr): Queue
    requires addr in q.heap
  {
    AfterInsert(q.(heap := q.heap[addr := q.heap[addr].(expiration := q.readAt + q.heap[addr].delta)]), addr)
  }

  /** reset, for one entry of the batch: restarted if it repeats and was not cancelled, else deleted. */
  function ResetOne(q: Queue, e: Entry): Queue
    requires e.addr in q.heap
  {
    if q.heap[e.addr].repeat && IdOf(q, e.addr) !in q.canceling then AfterRestart(q, e.addr)
    else q.(heap := q.heap - {e.addr})
  }

  predicate DistinctIn(q: Queue, entries: seq<Entry>) {
    && (forall e <- entries :: e.addr in q.heap)
    && (forall i, j | 0 <= i < j < |entries| :: entries[i].addr != entries[j].addr)
  }

  function ResetAll(q: Queue, entries: seq<Entry>): Queue
    requires DistinctIn(q, entries)
    decreases |entries|
  {
    if entries == [] then q
    else
      assert DistinctIn(ResetOne(q, entries[0]), entries[1..]) by {
        assert forall e <- entries[1..] :: e in entries && e.addr != entries[0].addr;
      }
      ResetAll(ResetOne(q, entries[0]), entries[1..])
  }

  /** The end of reset: the timerfd is armed if the earliest timer is valid. */
  function Rearmed(q: Queue, now: int): Queue {
    var r := q.(batch := [], index := 0);
    if r.timers != [] && r.timers[0].when > 0 then r.(fd := Arm(r.timers[0].when, now)) else r
  }

  /** handleRead after the last callback. */
  function AfterReset(q: Queue, now: int): Queue
    requires DistinctIn(q, q.batch)
  {
    Rearmed(ResetAll(q.(calling := false), q.batch), now)
  }

  // ---------- The two indexes hold the same live timers ----------

  ghost predicate Indexes(q: Queue) {
    && Sorted(q.timers)
    && (forall e <- q.timers :: e.addr in q.heap && EntryOf(q, e.addr) == e && IdOf(q, e.addr) in q.active)
    && (forall id <- q.active :: id.addr in q.heap && IdOf(q, id.addr) == id && EntryOf(q, id.addr) in q.timers)
  }

  /** A creation number is never used again, so no two live timers share one. */
  ghost predicate Numbered(q: Queue) {
    && (forall a <- q.heap :: q.heap[a].sequence in q.owner && q.owner[q.heap[a].sequence] == a)
    && (forall n <- q.owner :: n <= q.created)
  }

  /** A live timer is in the indexes, on its way to them, or in the part of the batch still to be reset. */
  ghost predicate Accounted(q: Queue, rest: seq<Entry>) {
    && DistinctIn(q, rest)
    && q.inFlight <= q.heap.Keys
    && (forall e <- rest :: e.addr !in q.inFlight && forall id <- q.active :: id.addr != e.addr)
    && (forall id <- q.active :: id.addr !in q.inFlight)
    && (forall a <- q.heap :: a in q.inFlight || IdOf(q, a) in q.active || exists e :: e in rest && e.addr == a)
  }

  ghost predicate Inv(q: Queue) {
    && Indexes(q) && Numbered(q) && Accounted(q, q.batch)
    && q.index <= |q.batch| && (!q.calling ==> q.batch == [])
  }

  lemma InsertKeepsIndexes(q: Queue, addr: Addr)
    requires Indexes(q) && addr in q.heap && forall id <- q.active :: id.addr != addr
    ensures Indexes(AfterInsert(q, addr))
  {
    assert EntryOf(q, addr) !in q.timers;
    InsertEntryIs(q.timers, EntryOf(q, addr));
  }

  lemma CreateKeepsInv(q: Queue, addr: Addr, when: int, delta: nat, repeat: bool)
    requires Inv(q) && addr !in q.heap
    ensures Inv(AfterCreate(q, addr, when, delta, repeat))
  {
    var r := AfterCreate(q, addr, when, delta, repeat);
    assert Indexes(r);
    assert Numbered(r);
    assert Accounted(r, r.batch);
  }

  lemma AddKeepsAccounts(q: Queue, r: Queue, addr: Addr)
    requires Accounted(q, q.batch) && addr in q.inFlight
    requires r.heap == q.heap && r.batch == q.batch && r.inFlight == q.inFlight - {addr}
    requires r.active == q.active + {IdOf(q, addr)}
    ensures Accounted(r, r.batch)
  {
  }

  lemma AddKeepsInv(q: Queue, addr: Addr, now: int)
    requires Inv(q) && addr in q.inFlight
    ensures Inv(AfterAdd(q, addr, now))
  {
    var r := AfterAdd(q, addr, now);
    InsertKeepsIndexes(q, addr);
    assert Indexes(r);
    AddKeepsAccounts(q, r, addr);
  }

  lemma CancelKeepsInv(q: Queue, id: TimerId)
    requires Inv(q)
    ensures Inv(AfterCancel(q, id))
  {
    if id in q.active {
      var r := AfterCancel(q, id);
      RemoveEntryIs(q.timers, EntryOf(q, id.addr));
      assert Indexes(r);
      assert Accounted(r, r.batch);
    }
  }

  /** The expired entries are a prefix, and everything behind it is later. */
  lemma ExpiredSplits(s: seq<Entry>, n: nat, now: int)
    requires Sorted(s) && n == ExpiredCount(s, now)
    ensures s[..n] + s[n..] == s && Sorted(s[..n]) && Sorted(s[n..])
    ensures forall e <- s[..n] :: e.when <= now && e in s
    ensures forall e <- s[n..] :: e.when > now && e in s
  {
    ExpiredCountIs(s, now);
  }

  lemma ReadSplits(q: Queue, now: int)
    requires Indexes(q)
    ensures var r := AfterRead(q, now);
            && r.batch + r.timers == q.timers && Sorted(r.batch) && Sorted(r.timers)
            && (forall e <- r.batch :: e.when <= now && e in q.timers)
            && (forall e <- r.timers :: e.when > now && e in q.timers)
  {
    ExpiredSplits(q.timers, ExpiredCount(q.timers, now), now);
  }

  /** An id leaves the index when its timer is in the batch. */
  lemma ReadActive(q: Queue, now: int, id: TimerId)
    requires Indexes(q) && id in q.active
    ensures id in AfterRead(q, now).active <==> EntryOf(q, id.addr) !in AfterRead(q, now).batch
  {
    var r := AfterRead(q, now);
    ReadSplits(q, now);
    if EntryOf(q, id.addr) in r.batch {
      assert IdOf(q, EntryOf(q, id.addr).addr) == id;
    }
  }

  lemma ReadKeepsIndexes(q: Queue, now: int)
    requires Indexes(q)
    ensures Indexes(AfterRead(q, now))
  {
    var r := AfterRead(q, now);
    ReadSplits(q, now);
    forall e | e in r.timers
      ensures IdOf(q, e.addr) in r.active
    {
      ReadActive(q, now, IdOf(q, e.addr));
    }
    forall id | id in r.active
      ensures EntryOf(r, id.addr) in r.timers
    {
      ReadActive(q, now, id);
      assert EntryOf(q, id.addr) in r.batch + r.timers;
    }
  }

  /** Sorted entries that are determined by their addresses have different addresses. */
  lemma SortedIsDistinct(q: Queue, entries: seq<Entry>)
    requires Sorted(entries) && forall e <- entries :: e.addr in q.heap && EntryOf(q, e.addr) == e
    ensures DistinctIn(q, entries)
  {
    forall i, j | 0 <= i < j < |entries|
      ensures entries[i].addr != entries[j].addr
    {
      assert entries[i] in entries && entries[j] in entries;
    }
  }

  lemma ReadKeepsAccounts(q: Queue, now: int)
    requires Inv(q) && !q.calling
    ensures var r := AfterRead(q, now); Accounted(r, r.batch)
  {
    var r := AfterRead(q, now);
    ReadSplits(q, now);
    SortedIsDistinct(q, r.batch);
    forall e | e in r.batch
      ensures e.addr !in r.inFlight && forall id <- r.active :: id.addr != e.addr
    {
      ReadActive(q, now, IdOf(q, e.addr));
      assert forall id <- r.active :: id in q.active;
    }
    forall a | a in r.heap
      ensures a in r.inFlight || IdOf(r, a) in r.active || exists e :: e in r.batch && e.addr == a
    {
      if IdOf(q, a) in q.active {
        ReadActive(q, now, IdOf(q, a));
        assert EntryOf(q, a).addr == a;
      }
    }
  }

  /** getExpired takes out exactly the due timers, in order of expiration, from both indexes. */
  lemma ReadTakesTheDue(q: Queue, now: int)
    requires Inv(q) && !q.calling
    ensures var r := AfterRead(q, now);
            && r.batch + r.timers == q.timers && Sorted(r.batch)
            && (forall e <- r.batch :: e.when <= now) && (forall e <- r.timers :: e.when > now)
    ensures Inv(AfterRead(q, now))
  {
    ReadSplits(q, now);
    ReadKeepsIndexes(q, now);
    ReadKeepsAccounts(q, now);
    assert Numbered(AfterRead(q, now));
  }

  /** The entries behind the first one are other timers. */
  lemma RestIsDistinct(q: Queue, e: Entry, rest: seq<Entry>)
    requires DistinctIn(q, [e] + rest)
    ensures DistinctIn(q, rest) && e.addr in q.heap
    ensures forall x <- rest :: x in [e] + rest && x.addr != e.addr
  {
    var all := [e] + rest;
    assert e in all && all[0] == e;
    forall i | 0 <= i < |rest|
      ensures rest[i] in all && rest[i].addr != e.addr
    {
      assert all[i + 1] == rest[i];
    }
    forall i, j | 0 <= i < j < |rest|
      ensures rest[i].addr != rest[j].addr
    {
      assert all[i + 1] == rest[i] && all[j + 1] == rest[j];
    }
  }

  lemma AccountsOfRest(q: Queue, r: Queue, e: Entry, rest: seq<Entry>)
    requires Accounted(q, [e] + rest) && r.inFlight == q.inFlight
    requires r.heap.Keys == q.heap.Keys || r.heap.Keys == q.heap.Keys - {e.addr}
    requires forall a <- r.heap :: a in q.heap && r.heap[a].sequence == q.heap[a].sequence
    requires e.addr in r.heap ==> IdOf(r, e.addr) in r.active
    requires q.active <= r.active && forall id <- r.active :: id in q.active || id.addr == e.addr
    ensures Accounted(r, rest)
  {
    RestIsDistinct(q, e, rest);
    var all := [e] + rest;
    assert e in all;
    forall a | a in r.heap
      ensures a in r.inFlight || IdOf(r, a) in r.active || exists x :: x in rest && x.addr == a
    {
      if a != e.addr && a !in q.inFlight && IdOf(q, a) !in q.active {
        var x :| x in all && x.addr == a;
        assert x in rest;
      }
    }
  }

  /** Restarting a timer that is in no index changes no index. */
  lemma RestartKeeps(q: Queue, addr: Addr, when: int)
    requires Indexes(q) && Numbered(q) && addr in q.heap && forall id <- q.active :: id.addr != addr
    ensures var p := q.(heap := q.heap[addr := q.heap[addr].(expiration := when)]);
            Indexes(p) && Numbered(p)
  {
  }

  lemma DeleteKeeps(q: Queue, addr: Addr)
    requires Indexes(q) && Numbered(q) && addr in q.heap && forall id <- q.active :: id.addr != addr
    ensures Indexes(q.(heap := q.heap - {addr})) && Numbered(q.(heap := q.heap - {addr}))
  {
  }

  lemma RestartedKeeps(q: Queue, addr: Addr)
    requires Indexes(q) && Numbered(q) && addr in q.heap && forall id <- q.active :: id.addr != addr
    ensures Indexes(AfterRestart(q, addr)) && Numbered(AfterRestart(q, addr))
  {
    var when := q.readAt + q.heap[addr].delta;
    RestartKeeps(q, addr, when);
    InsertKeepsIndexes(q.(heap := q.heap[addr := q.heap[addr].(expiration := when)]), addr);
  }

  lemma ResetOneKeeps(q: Queue, e: Entry, rest: seq<Entry>)
    requires Indexes(q) && Numbered(q) && Accounted(q, [e] + rest)
    ensures e.addr in q.heap
    ensures var r := ResetOne(q, e);
            Indexes(r) && Numbered(r) && Accounted(r, rest)
  {
    RestIsDistinct(q, e, rest);
    assert e in [e] + rest;
    if q.heap[e.addr].repeat && IdOf(q, e.addr) !in q.canceling {
      RestartedKeeps(q, e.addr);
    } else {
      DeleteKeeps(q, e.addr);
    }
    AccountsOfRest(q, ResetOne(q, e), e, rest);
  }

  lemma {:induction false} ResetAllKeeps(q: Queue, entries: seq<Entry>)
    requires Indexes(q) && Numbered(q) && Accounted(q, entries)
    ensures var r := ResetAll(q, entries);
            Indexes(r) && Numbered(r) && Accounted(r, []) && r.created == q.created && r.log == q.log && r.fd == q.fd
            && r.calling == q.calling
    decreases |entries|
  {
    if entries == [] {
    } else {
      assert entries == [entries[0]] + entries[1..];
      ResetOneKeeps(q, entries[0], entries[1..]);
      ResetAllKeeps(ResetOne(q, entries[0]), entries[1..]);
    }
  }

  /** The flag around the callbacks is not part of the indexes. */
  lemma FlagKeeps(q: Queue)
    requires Inv(q)
    ensures var p := q.(calling := false);
            Indexes(p) && Numbered(p) && Accounted(p, p.batch)
  {
  }

  // ---------- What reset does to the batch ----------

  /** The timer will be restarted: it repeats, and no callback has cancelled it. */
  ghost predicate Restarts(q: Queue, e: Entry)
    requires e.addr in q.heap
  {
    q.heap[e.addr].repeat && TimerId(e.addr, q.heap[e.addr].sequence) !in q.canceling
  }

  /** Restarted: the same timer again, one interval after the read, in both indexes. */
  ghost predicate Restarted(q: Queue, e: Entry, r: Queue)
    requires e.addr in q.heap
  {
    var t := q.heap[e.addr];
    && e.addr in r.heap && r.heap[e.addr] == Timer(q.readAt + t.delta, t.delta, true, t.sequence)
    && TimerId(e.addr, t.sequence) in r.active && Entry(q.readAt + t.delta, e.addr) in r.timers
  }

  /** What a reset of `entries` leaves: restarted timers, no others of the batch, and the rest as it was. */
  ghost predicate ResetTo(q: Queue, entries: seq<Entry>, r: Queue)
    requires DistinctIn(q, entries)
  {
    && (forall i | 0 <= i < |entries| ::
          if Restarts(q, entries[i]) then Restarted(q, entries[i], r) else entries[i].addr !in r.heap)
    && (forall a <- q.heap :: (a in r.heap && r.heap[a] == q.heap[a]) || exists e :: e in entries && e.addr == a)
    && (forall a <- r.heap :: a in q.heap)
    && (forall id <- q.active :: id in r.active) && (forall x <- q.timers :: x in r.timers)
    && (forall id <- r.active :: id in q.active
          || exists e :: e in entries && Restarts(q, e) && id == TimerId(e.addr, q.heap[e.addr].sequence))
    && r.inFlight == q.inFlight && r.canceling == q.canceling && r.created == q.created
    && r.owner == q.owner && r.log == q.log && r.readAt == q.readAt
  }

  lemma ResetOneTo(q: Queue, e: Entry)
    requires Indexes(q) && Numbered(q) && e.addr in q.heap && forall id <- q.active :: id.addr != e.addr
    ensures var r := ResetOne(q, e);
            && (if Restarts(q, e) then Restarted(q, e, r) else e.addr !in r.heap)
            && (forall a <- q.heap :: a != e.addr ==> a in r.heap && r.heap[a] == q.heap[a])
            && (forall a <- r.heap :: a in q.heap)
            && (forall id <- q.active :: id in r.active) && (forall x <- q.timers :: x in r.timers)
            && (forall id <- r.active :: id in q.active
                  || (Restarts(q, e) && id == TimerId(e.addr, q.heap[e.addr].sequence)))
            && r.inFlight == q.inFlight && r.canceling == q.canceling && r.created == q.created
            && r.owner == q.owner && r.log == q.log && r.readAt == q.readAt
  {
    var again := Entry(q.readAt + q.heap[e.addr].delta, e.addr);
    assert again !in q.timers;
    InsertEntryIs(q.timers, again);
  }

  /** Once restarted or deleted, a timer is left alone by the rest of the reset. */
  lemma {:induction false} ResetAllTo(q: Queue, entries: seq<Entry>)
    requires Indexes(q) && Numbered(q) && Accounted(q, entries)
    ensures ResetTo(q, entries, ResetAll(q, entries))
    decreases |entries|
  {
    if entries == [] {
    } else {
      var e, rest := entries[0], entries[1..];
      assert entries == [e] + rest;
      RestIsDistinct(q, e, rest);
      ResetOneKeeps(q, e, rest);
      assert e in entries;
      ResetOneTo(q, e);
      ResetAllTo(ResetOne(q, e), rest);
      ResetToCons(q, e, rest, ResetOne(q, e), ResetAll(q, entries));
    }
  }

  lemma ResetToCons(q: Queue, e: Entry, rest: seq<Entry>, p: Queue, r: Queue)
    requires DistinctIn(q, [e] + rest) && DistinctIn(p, rest) && e.addr in q.heap
    requires if Restarts(q, e) then Restarted(q, e, p) else e.addr !in p.heap
    requires forall a <- q.heap :: a != e.addr ==> a in p.heap && p.heap[a] == q.heap[a]
    requires forall a <- p.heap :: a in q.heap
    requires (forall id <- q.active :: id in p.active) && (forall x <- q.timers :: x in p.timers)
    requires forall id <- p.active :: id in q.active
               || (Restarts(q, e) && id == TimerId(e.addr, q.heap[e.addr].sequence))
    requires p.inFlight == q.inFlight && p.canceling == q.canceling && p.created == q.created
    requires p.owner == q.owner && p.log == q.log && p.readAt == q.readAt
    requires ResetTo(p, rest, r)
    ensures ResetTo(q, [e] + rest, r)
  {
    var all := [e] + rest;
    RestIsDistinct(q, e, rest);
    assert e in all && forall x <- rest :: x in all;
    assert forall x <- rest :: Restarts(q, x) == Restarts(p, x) && q.heap[x.addr] == p.heap[x.addr];
    forall i | 0 <= i < |all|
      ensures if Restarts(q, all[i]) then Restarted(q, all[i], r) else all[i].addr !in r.heap
    {
      if i > 0 {
        assert all[i] == rest[i - 1] && rest[i - 1] in rest;
      }
    }
  }

  /**
    After the callbacks every repeating timer of the batch that was not cancelled is in both indexes again,
    one interval after the read; every other timer of the batch is deleted; nothing else changes.
   */
  lemma ResetRestarts(q: Queue, now: int)
    requires Inv(q) && q.calling
    ensures ResetTo(q, q.batch, AfterReset(q, now))
  {
    var p := q.(calling := false);
    FlagKeeps(q);
    ResetAllTo(p, q.batch);
    ResetToAgrees(q, p, q.batch, AfterReset(q, now), ResetAll(p, q.batch));
  }

  /** The flag, the batch and the timerfd have no part in it. */
  lemma ResetToAgrees(q: Queue, p: Queue, entries: seq<Entry>, r: Queue, u: Queue)
    requires DistinctIn(q, entries) && DistinctIn(p, entries) && ResetTo(p, entries, u)
    requires p == q.(calling := p.calling)
    requires r == u.(calling := r.calling, batch := r.batch, index := r.index, fd := r.fd)
    ensures ResetTo(q, entries, r)
  {
    assert forall i | 0 <= i < |entries| ::
        entries[i] in entries && Restarts(q, entries[i]) == Restarts(p, entries[i]);
  }

  lemma ResetKeepsInv(q: Queue, now: int)
    requires Inv(q) && q.calling
    ensures Inv(AfterReset(q, now)) && !AfterReset(q, now).calling
  {
    var p := q.(calling := false);
    FlagKeeps(q);
    ResetAllKeeps(p, p.batch);
    SameIndexes(ResetAll(p, p.batch), AfterReset(q, now));
  }

  /** The timerfd and the batch are not part of the indexes. */
  lemma SameIndexes(q: Queue, r: Queue)
    requires Indexes(q) && Numbered(q) && Accounted(q, [])
    requires r.heap == q.heap && r.timers == q.timers && r.active == q.active && r.inFlight == q.inFlight
    requires r.owner == q.owner && r.created == q.created && r.batch == [] && r.index == 0
    ensures Inv(r)
  {
  }

  // ---------- Runs ----------

  datatype Step =
    | Create(addr: Addr, when: int, delta: nat, repeat: bool)
    | Add(addr: Addr, now: int)
    | Cancel(id: TimerId)
    | Fire
    | Read(now: int)
    | Callback
    | Reset(now: int)

  /** Adding and cancelling may happen at any time, so also between the callbacks of a batch. */
  ghost predicate Enabled(q: Queue, step: Step) {
    match step
    case Create(addr, _, _, _) => addr !in q.heap
    case Add(addr, _) => addr in q.inFlight
    case Cancel(_) => true
    case Fire => q.fd.Armed?
    case Read(_) => !q.calling
    case Callback => q.calling && q.index < |q.batch|
    case Reset(_) => q.calling && q.index == |q.batch|
  }

  ghost function Next(q: Queue, step: Step): Queue
    requires Inv(q) && Enabled(q, step)
  {
    match step
    case Create(addr, when, delta, repeat) => AfterCreate(q, addr, when, delta, repeat)
    case Add(addr, now) => AfterAdd(q, addr, now)
    case Cancel(id) => AfterCancel(q, id)
    case Fire => q.(fd := Fired)
    case Read(now) => AfterRead(q, now)
    case Callback => assert q.batch[q.index] in q.batch; AfterCallback(q)
    case Reset(now) => AfterReset(q, now)
  }

  /** Both indexes hold the same live timers after every step, add and cancel inside callbacks included. */
  lemma StepKeepsInv(q: Queue, step: Step)
    requires Inv(q) && Enabled(q, step)
    ensures Inv(Next(q, step))
  {
    match step
    case Create(addr, when, delta, repeat) => CreateKeepsInv(q, addr, when, delta, repeat);
    case Add(addr, now) => AddKeepsInv(q, addr, now);
    case Cancel(id) => CancelKeepsInv(q, id);
    case Fire => assert Accounted(q.(fd := Fired), q.batch);
    case Read(now) => ReadTakesTheDue(q, now);
    case Callback =>
      assert q.batch[q.index] in q.batch;
      assert Accounted(AfterCallback(q), q.batch);
    case Reset(now) => ResetKeepsInv(q, now);
  }

  ghost predicate LegalRun(q: Queue, steps: seq<Step>)
    requires Inv(q)
    decreases |steps|
  {
    steps == []
    || (Enabled(q, steps[0]) && (StepKeepsInv(q, steps[0]); LegalRun(Next(q, steps[0]), steps[1..])))
  }

  ghost function Run(q: Queue, steps: seq<Step>): (r: Queue)
    requires Inv(q) && LegalRun(q, steps)
    ensures Inv(r)
    decreases |steps|
  {
    if steps == [] then q
    else
      StepKeepsInv(q, steps[0]);
      Run(Next(q, steps[0]), steps[1..])
  }

  // ---------- Cancelled timers ----------

  /** An id that no live timer carries touches no live timer, even when its address is in use again. */
  lemma StaleCancelIsHarmless(q: Queue, id: TimerId)
    requires Inv(q) && (id.addr in q.heap ==> q.heap[id.addr].sequence != id.sequence)
    ensures var r := AfterCancel(q, id);
            && r == q.(canceling := r.canceling)
            && (forall a <- q.heap :: IdOf(q, a) in r.canceling <==> IdOf(q, a) in q.canceling)
  {
  }

  /** Timer number `n` cannot be scheduled any more: at most it is in the batch and marked as cancelled. */
  ghost predicate Gone(q: Queue, n: nat)
    requires Inv(q)
  {
    && n <= q.created
    && (forall id <- q.active :: id.sequence != n)
    && (forall a <- q.inFlight :: q.heap[a].sequence != n)
    && (forall e <- q.batch :: q.heap[e.addr].sequence == n ==> TimerId(e.addr, n) in q.canceling)
  }

  /** Its callback is still ahead in the batch that is running. */
  ghost predicate Ahead(q: Queue, n: nat)
    requires Inv(q)
  {
    exists i | q.index <= i < |q.batch| :: q.batch[i] in q.batch && q.heap[q.batch[i].addr].sequence == n
  }

  ghost function RunsLeft(q: Queue, n: nat): nat
    requires Inv(q)
  {
    if Ahead(q, n) then 1 else 0
  }

  ghost function RunsSoFar(q: Queue, n: nat): nat {
    multiset(q.log)[n]
  }

  /** addTimer has returned this id to somebody. */
  ghost predicate Issued(q: Queue, id: TimerId) {
    id.sequence in q.owner && q.owner[id.sequence] == id.addr
  }

  /** The timer has been created, but its addTimerInLoop is still queued. */
  ghost predicate OnItsWay(q: Queue, id: TimerId)
    requires Inv(q)
  {
    id.addr in q.inFlight && q.heap[id.addr].sequence == id.sequence
  }

  /** Cancelling makes a timer gone if and only if the timer has reached the loop. */
  lemma CancelMakesGone(q: Queue, id: TimerId)
    requires Inv(q) && Issued(q, id)
    ensures Inv(AfterCancel(q, id))
    ensures Gone(AfterCancel(q, id), id.sequence) <==> !OnItsWay(q, id)
  {
    CancelKeepsInv(q, id);
    if OnItsWay(q, id) {
      assert id !in q.active;
    }
  }

  /** A cancel that overtakes its timer is lost: the timer is then added as if nobody had cancelled it. */
  lemma OvertakingCancelIsLost(q: Queue, addr: Addr, now: int)
    requires Inv(q) && addr in q.inFlight
    ensures var id := IdOf(q, addr);
            var r := AfterAdd(AfterCancel(q, id), addr, now);
            && id in r.active && EntryOf(r, addr) in r.timers
            && r == AfterAdd(q, addr, now).(canceling := r.canceling)
  {
    assert IdOf(q, addr) !in q.active;
    AddKeepsInv(q, addr, now);
    assert IdOf(q, addr) in AfterAdd(q, addr, now).active;
  }

  /** Resetting a batch in which number `n` is marked schedules no timer of that number. */
  lemma {:induction false} ResetAllKeepsGone(q: Queue, entries: seq<Entry>, n: nat)
    requires DistinctIn(q, entries) && q.inFlight <= q.heap.Keys
    requires forall e <- entries :: e.addr !in q.inFlight
    requires forall id <- q.active :: id.sequence != n
    requires forall a <- q.inFlight :: q.heap[a].sequence != n
    requires forall e <- entries :: q.heap[e.addr].sequence == n ==> TimerId(e.addr, n) in q.canceling
    ensures var r := ResetAll(q, entries);
            && r.inFlight == q.inFlight && r.inFlight <= r.heap.Keys && r.created == q.created && r.log == q.log
            && (forall id <- r.active :: id.sequence != n)
            && (forall a <- r.inFlight :: r.heap[a].sequence != n)
    decreases |entries|
  {
    if entries == [] {
    } else {
      var e, rest := entries[0], entries[1..];
      assert entries == [e] + rest;
      RestIsDistinct(q, e, rest);
      ResetAllKeepsGone(ResetOne(q, e), rest, n);
    }
  }

  lemma ResetKeepsGone(q: Queue, now: int, n: nat)
    requires Inv(q) && q.calling && q.index == |q.batch| && Gone(q, n)
    ensures Inv(AfterReset(q, now)) && Gone(AfterReset(q, now), n)
    ensures AfterReset(q, now).log == q.log && !Ahead(AfterReset(q, now), n)
  {
    ResetKeepsInv(q, now);
    ResetAllKeepsGone(q.(calling := false), q.batch, n);
  }

  /** A callback of number `n` uses up the one run that was left. */
  lemma CallbackUsesRun(q: Queue, n: nat)
    requires Inv(q) && Enabled(q, Callback)
    ensures var r := Next(q, Callback);
            Inv(r) && RunsSoFar(r, n) + RunsLeft(r, n) == RunsSoFar(q, n) + RunsLeft(q, n)
  {
    StepKeepsInv(q, Callback);
    var r, first := Next(q, Callback), q.batch[q.index];
    assert first in q.batch;
    var m := q.heap[first.addr].sequence;
    assert multiset(r.log) == multiset(q.log) + multiset{m};
    if m == n {
      assert Ahead(q, n);
      forall i | r.index <= i < |r.batch|
        ensures q.heap[q.batch[i].addr].sequence != n
      {
        assert q.batch[i] in q.batch;
        assert q.owner[n] == first.addr != q.batch[i].addr;
      }
    } else if Ahead(q, n) {
      var i :| q.index <= i < |q.batch| && q.batch[i] in q.batch && q.heap[q.batch[i].addr].sequence == n;
      assert i != q.index;
      assert r.batch[i] in r.batch;
    }
  }

  /** The batch and what it refers to stay as they are while the loop adds and cancels timers. */
  lemma SameAhead(q: Queue, r: Queue, n: nat)
    requires Inv(q) && Inv(r) && r.batch == q.batch && r.index == q.index
    requires forall e <- q.batch :: r.heap[e.addr] == q.heap[e.addr]
    ensures Ahead(r, n) == Ahead(q, n)
  {
    if Ahead(q, n) {
      var i :| q.index <= i < |q.batch| && q.batch[i] in q.batch && q.heap[q.batch[i].addr].sequence == n;
      assert r.batch[i] in r.batch;
    }
    if Ahead(r, n) {
      var i :| r.index <= i < |r.batch| && r.batch[i] in r.batch && r.heap[r.batch[i].addr].sequence == n;
      assert q.batch[i] in q.batch;
    }
  }

  lemma ReadKeepsGone(q: Queue, now: int, n: nat)
    requires Inv(q) && !q.calling && Gone(q, n)
    ensures var r := AfterRead(q, now);
            Inv(r) && Gone(r, n) && r.log == q.log && !Ahead(r, n)
  {
    ReadTakesTheDue(q, now);
    ReadSplits(q, now);
    var r := AfterRead(q, now);
    forall e | e in r.batch
      ensures r.heap[e.addr].sequence != n
    {
      assert IdOf(q, e.addr) in q.active;
    }
  }

  /** A step that leaves the batch alone and puts no timer of number `n` on its way to the indexes. */
  lemma OutsideKeepsGone(q: Queue, r: Queue, n: nat)
    requires Inv(q) && Inv(r) && Gone(q, n) && r.batch == q.batch && r.index == q.index && r.log == q.log
    requires q.created <= r.created && q.canceling <= r.canceling
    requires forall e <- q.batch :: r.heap[e.addr] == q.heap[e.addr]
    requires forall id <- r.active :: id in q.active || id.sequence != n
    requires forall a <- r.inFlight :: (a in q.inFlight && r.heap[a] == q.heap[a]) || r.heap[a].sequence != n
    ensures Gone(r, n) && Ahead(r, n) == Ahead(q, n)
  {
    SameAhead(q, r, n);
  }

  lemma CreateKeepsGone(q: Queue, addr: Addr, when: int, delta: nat, repeat: bool, n: nat)
    requires Inv(q) && addr !in q.heap && Gone(q, n)
    ensures var r := AfterCreate(q, addr, when, delta, repeat);
            Inv(r) && Gone(r, n) && r.log == q.log && Ahead(r, n) == Ahead(q, n)
  {
    CreateKeepsInv(q, addr, when, delta, repeat);
    OutsideKeepsGone(q, AfterCreate(q, addr, when, delta, repeat), n);
  }

  lemma AddKeepsGone(q: Queue, addr: Addr, now: int, n: nat)
    requires Inv(q) && addr in q.inFlight && Gone(q, n)
    ensures var r := AfterAdd(q, addr, now);
            Inv(r) && Gone(r, n) && r.log == q.log && Ahead(r, n) == Ahead(q, n)
  {
    AddKeepsInv(q, addr, now);
    OutsideKeepsGone(q, AfterAdd(q, addr, now), n);
  }

  lemma CancelKeepsGone(q: Queue, id: TimerId, n: nat)
    requires Inv(q) && Gone(q, n)
    ensures var r := AfterCancel(q, id);
            Inv(r) && Gone(r, n) && r.log == q.log && Ahead(r, n) == Ahead(q, n)
  {
    CancelKeepsInv(q, id);
    OutsideKeepsGone(q, AfterCancel(q, id), n);
  }

  lemma StepKeepsGone(q: Queue, step: Step, n: nat)
    requires Inv(q) && Enabled(q, step) && Gone(q, n)
    ensures var r := Next(q, step);
            && Inv(r) && Gone(r, n)
            && RunsSoFar(r, n) + RunsLeft(r, n) <= RunsSoFar(q, n) + RunsLeft(q, n)
  {
    match step
    case Read(now) => ReadKeepsGone(q, now, n);
    case Callback => CallbackUsesRun(q, n);
    case Reset(now) => ResetKeepsGone(q, now, n);
    case Create(addr, when, delta, repeat) => CreateKeepsGone(q, addr, when, delta, repeat, n);
    case Add(addr, now) => AddKeepsGone(q, addr, now, n);
    case Cancel(id) => CancelKeepsGone(q, id, n);
    case Fire =>
      StepKeepsInv(q, Fire);
      OutsideKeepsGone(q, q.(fd := Fired), n);
  }

  /**
    Over every run after its cancellation a timer is never scheduled again, and it
    runs at most once more, which takes that it is ahead in the batch now running.
   */
  lemma {:induction false} CancelledRunsAtMostOnceMore(q: Queue, steps: seq<Step>, n: nat)
    requires Inv(q) && LegalRun(q, steps) && Gone(q, n)
    ensures var r := Run(q, steps);
            Gone(r, n) && RunsSoFar(r, n) <= RunsSoFar(q, n) + (if Ahead(q, n) then 1 else 0)
    ensures var r := Run(q, steps);
            RunsSoFar(r, n) + RunsLeft(r, n) <= RunsSoFar(q, n) + RunsLeft(q, n)
    decreases |steps|
  {
    if steps == [] {
    } else {
      StepKeepsGone(q, steps[0], n);
      CancelledRunsAtMostOnceMore(Next(q, steps[0]), steps[1..], n);
    }
  }

  /** The same from the cancel itself: what runs after it is at most the callback ahead in the running batch. */
  lemma CancelEndsTimer(q: Queue, id: TimerId, steps: seq<Step>)
    requires Inv(q) && Issued(q, id) && !OnItsWay(q, id) && LegalRun(q, [Cancel(id)] + steps)
    ensures var r := Run(q, [Cancel(id)] + steps);
            && Gone(r, id.sequence) && id !in r.active
            && RunsSoFar(r, id.sequence) <= RunsSoFar(q, id.sequence) + if Ahead(q, id.sequence) then 1 else 0
  {
    var all, r := [Cancel(id)] + steps, AfterCancel(q, id);
    assert all[1..] == steps;
    CancelMakesGone(q, id);
    SameAhead(q, r, id.sequence);
    CancelledRunsAtMostOnceMore(r, steps, id.sequence);
  }

  lemma OneStepRun(q: Queue, step: Step)
    requires Inv(q) && Enabled(q, step)
    ensures LegalRun(q, [step]) && Run(q, [step]) == Next(q, step)
  {
    StepKeepsInv(q, step);
    var r := Next(q, step);
    assert [step][1..] == [] && LegalRun(r, []);
  }

  lemma OvertakenTimerIsScheduled(q: Queue, id: TimerId)
    requires Inv(q) && Issued(q, id) && OnItsWay(q, id)
    ensures var steps := [Cancel(id)] + [Add(id.addr, 0)];
            LegalRun(q, steps) && id in Run(q, steps).active
  {
    var r, steps := AfterCancel(q, id), [Cancel(id)] + [Add(id.addr, 0)];
    CancelKeepsInv(q, id);
    OvertakingCancelIsLost(q, id.addr, 0);
    OneStepRun(r, Add(id.addr, 0));
    assert steps[1..] == [Add(id.addr, 0)];
  }

  /**
    The exact condition: after a cancel no run ever has the timer scheduled, if and only if its
    addTimerInLoop was not still queued when the cancel came.
   */
  lemma CancelHoldsIffTimerHasArrived(q: Queue, id: TimerId)
    requires Inv(q) && Issued(q, id)
    ensures (forall steps | LegalRun(q, [Cancel(id)] + steps) :: id !in Run(q, [Cancel(id)] + steps).active)
            <==> !OnItsWay(q, id)
  {
    if OnItsWay(q, id) {
      OvertakenTimerIsScheduled(q, id);
    } else {
      forall steps | LegalRun(q, [Cancel(id)] + steps)
        ensures id !in Run(q, [Cancel(id)] + steps).active
      {
        CancelEndsTimer(q, id, steps);
      }
    }
  }

  // ---------- Timers that nobody cancels ----------

  /** A repeating timer that has arrived and is not cancelled: scheduled, or in the batch that is running. */
  ghost predicate Alive(q: Queue, id: TimerId, delta: nat)
    requires Inv(q)
  {
    && id.addr in q.heap && IdOf(q, id.addr) == id && q.heap[id.addr].repeat && q.heap[id.addr].delta == delta
    && (id in q.active || (id !in q.canceling && exists e :: e in q.batch && e.addr == id.addr))
  }

  lemma ReadKeepsAlive(q: Queue, id: TimerId, delta: nat, now: int)
    requires Inv(q) && !q.calling && Alive(q, id, delta)
    ensures Inv(AfterRead(q, now)) && Alive(AfterRead(q, now), id, delta)
  {
    ReadTakesTheDue(q, now);
    ReadActive(q, now, id);
    assert EntryOf(q, id.addr).addr == id.addr;
  }

  lemma ResetKeepsScheduled(q: Queue, id: TimerId, delta: nat, now: int)
    requires Inv(q) && q.calling && Alive(q, id, delta) && id in q.active
    ensures Inv(AfterReset(q, now)) && Alive(AfterReset(q, now), id, delta)
  {
    ResetKeepsInv(q, now);
    ResetRestarts(q, now);
    assert !exists e :: e in q.batch && e.addr == id.addr;
  }

  lemma ResetReschedules(q: Queue, id: TimerId, delta: nat, now: int)
    requires Inv(q) && q.calling && Alive(q, id, delta) && id !in q.active
    ensures var r := AfterReset(q, now);
            Inv(r) && Alive(r, id, delta) && id in r.active && r.heap[id.addr].expiration == q.readAt + delta
  {
    var e :| e in q.batch && e.addr == id.addr;
    ResetKeepsInv(q, now);
    RestartedInReset(q, e, now);
  }

  lemma RestartedInReset(q: Queue, e: Entry, now: int)
    requires Inv(q) && q.calling && e in q.batch && Restarts(q, e)
    ensures Restarted(q, e, AfterReset(q, now))
  {
    ResetRestarts(q, now);
    var i :| 0 <= i < |q.batch| && q.batch[i] == e;
  }

  lemma StepKeepsAlive(q: Queue, step: Step, id: TimerId, delta: nat)
    requires Inv(q) && Enabled(q, step) && Alive(q, id, delta) && step != Cancel(id)
    ensures Inv(Next(q, step)) && Alive(Next(q, step), id, delta)
  {
    StepKeepsInv(q, step);
    match step
    case Read(now) => ReadKeepsAlive(q, id, delta, now);
    case Reset(now) =>
      if id in q.active {
        ResetKeepsScheduled(q, id, delta, now);
      } else {
        ResetReschedules(q, id, delta, now);
      }
    case Cancel(other) => assert other in q.active && other.addr == id.addr ==> other == id;
    case _ =>
  }

  /**
    The other side of CancelEndsTimer: over every run without a cancel of it, a repeating timer that has
    arrived stays scheduled, or is in the running batch and will be scheduled again, with its interval.
   */
  lemma {:induction false} RepeatingTimerStays(q: Queue, id: TimerId, delta: nat, steps: seq<Step>)
    requires Inv(q) && LegalRun(q, steps) && Alive(q, id, delta) && Cancel(id) !in steps
    ensures Alive(Run(q, steps), id, delta)
    decreases |steps|
  {
    if steps == [] {
    } else {
      assert steps[0] in steps && forall step <- steps[1..] :: step in steps;
      StepKeepsAlive(q, steps[0], id, delta);
      RepeatingTimerStays(Next(q, steps[0]), id, delta, steps[1..]);
    }
  }

  /** The creation numbers of a batch in its order. */
  ghost function Numbers(q: Queue, entries: seq<Entry>): (numbers: seq<nat>)
    requires forall i | 0 <= i < |entries| :: entries[i].addr in q.heap
    ensures |numbers| == |entries|
  {
    seq(|entries|, i requires 0 <= i < |entries| => q.heap[entries[i].addr].sequence)
  }

  /** What will have run when the callbacks of the batch are done. */
  ghost function LogOfBatch(q: Queue): seq<nat>
    requires Inv(q)
  {
    assert forall i | q.index <= i < |q.batch| :: q.batch[i] in q.batch;
    q.log + Numbers(q, q.batch[q.index..])
  }

  lemma CallbackKeepsLogOfBatch(q: Queue)
    requires Inv(q) && Enabled(q, Callback)
    ensures var r := Next(q, Callback);
            Inv(r) && LogOfBatch(r) == LogOfBatch(q)
  {
    StepKeepsInv(q, Callback);
    var i := q.index;
    assert forall k | 0 <= k < |q.batch| :: q.batch[k] in q.batch;
    var n := q.heap[q.batch[i].addr].sequence;
    assert q.batch[i..] == [q.batch[i]] + q.batch[i + 1..];
    NumbersCons(q, q.batch[i], q.batch[i + 1..]);
    ConcatNumbers(q.log, n, Numbers(q, q.batch[i + 1..]));
    NumbersAgree(Next(q, Callback), q, q.batch[i + 1..]);
  }

  lemma ConcatNumbers(a: seq<nat>, n: nat, b: seq<nat>)
    ensures a + ([n] + b) == a + [n] + b
  {
  }

  lemma NumbersCons(q: Queue, e: Entry, rest: seq<Entry>)
    requires e.addr in q.heap && forall i | 0 <= i < |rest| :: rest[i].addr in q.heap
    ensures Numbers(q, [e] + rest) == [q.heap[e.addr].sequence] + Numbers(q, rest)
  {
  }

  lemma NumbersAgree(q: Queue, r: Queue, entries: seq<Entry>)
    requires forall i | 0 <= i < |entries| :: entries[i].addr in q.heap && entries[i].addr in r.heap
    requires forall i | 0 <= i < |entries| :: q.heap[entries[i].addr] == r.heap[entries[i].addr]
    ensures Numbers(q, entries) == Numbers(r, entries)
  {
  }

  lemma OutsideKeepsLogOfBatch(q: Queue, r: Queue)
    requires Inv(q) && Inv(r) && r.batch == q.batch && r.index == q.index && r.log == q.log
    requires forall e <- q.batch :: r.heap[e.addr] == q.heap[e.addr]
    ensures LogOfBatch(r) == LogOfBatch(q)
  {
    assert forall k | 0 <= k < |q.batch| :: q.batch[k] in q.batch;
    NumbersAgree(q, r, q.batch[q.index..]);
  }

  lemma StepKeepsLogOfBatch(q: Queue, step: Step)
    requires Inv(q) && q.calling && Enabled(q, step) && !step.Reset?
    ensures var r := Next(q, step);
            Inv(r) && r.calling && r.batch == q.batch && LogOfBatch(r) == LogOfBatch(q)
  {
    if step.Callback? {
      CallbackKeepsLogOfBatch(q);
    } else {
      StepKeepsInv(q, step);
      OutsideKeepsLogOfBatch(q, Next(q, step));
    }
  }

  /**
    Whatever its callbacks add and cancel, a batch runs each of its timers once, in the order of their
    expirations, and nothing else runs in between.
   */
  lemma {:induction false} BatchRunsInOrder(q: Queue, steps: seq<Step>)
    requires Inv(q) && q.calling && LegalRun(q, steps) && forall step <- steps :: !step.Reset?
    ensures var r := Run(q, steps);
            && r.calling && r.batch == q.batch && LogOfBatch(r) == LogOfBatch(q)
            && (r.index == |q.batch| ==> r.log == LogOfBatch(q))
    decreases |steps|
  {
    if steps == [] {
      if q.index == |q.batch| {
        assert q.log + Numbers(q, q.batch[q.index..]) == q.log;
      }
    } else {
      assert steps[0] in steps && forall step <- steps[1..] :: step in steps;
      StepKeepsLogOfBatch(q, steps[0]);
      BatchRunsInOrder(Next(q, steps[0]), steps[1..]);
    }
  }

  // ---------- No lost timer ----------

  /** When the timerfd is armed, it is for the earliest timer, but not for sooner than 100 microseconds. */
  lemma ArmedForTheEarliest(q: Queue, now: int)
    requires Inv(q) && q.calling
    ensures var r := AfterReset(q, now);
            r.timers != [] && r.timers[0].when > 0 ==>
              && r.fd.Armed? && r.fd.armedAt == now && r.fd.deadline >= now + 100
              && r.fd.deadline >= r.timers[0].when
              && (r.fd.deadline == now + 100 || r.fd.deadline == r.timers[0].when)
  {
  }

  /** The same when a timer is added: the timerfd is set if the timer is the earliest, and left alone if not. */
  lemma ArmedForANewEarliest(q: Queue, addr: Addr, now: int)
    requires Inv(q) && addr in q.inFlight
    ensures var r, when := AfterAdd(q, addr, now), q.heap[addr].expiration;
            if q.timers == [] || when < q.timers[0].when
            then && r.timers[0] == Entry(when, addr) && r.fd.Armed? && r.fd.armedAt == now
                 && r.fd.deadline >= now + 100 && r.fd.deadline >= when
                 && (r.fd.deadline == now + 100 || r.fd.deadline == when)
            else r.fd == q.fd
  {
    assert EntryOf(q, addr) !in q.timers;
    InsertEntryIs(q.timers, EntryOf(q, addr));
  }

  /** The timerfd will wake the loop for the earliest timer: by its expiration or 100 microseconds after arming. */
  ghost predicate WillWake(q: Queue) {
    q.timers != [] ==>
      q.fd.Fired?
      || (q.fd.Armed? && (q.fd.deadline <= q.timers[0].when || q.fd.deadline <= q.fd.armedAt + 100))
  }

  /** While callbacks run, only a timer that reset would take for an invalid one must be waited for. */
  ghost predicate FdInv(q: Queue) {
    && (!q.calling ==> WillWake(q))
    && (q.calling ==> q.readAt > 0 && (q.timers != [] && q.timers[0].when <= 0 ==> WillWake(q)))
  }

  /** The first of a sorted sequence is before every other entry. */
  lemma FirstIsLeast(s: seq<Entry>, e: Entry)
    requires Sorted(s) && e in s
    ensures s != [] && s[0].when <= e.when
  {
  }

  lemma CancelKeepsFd(q: Queue, id: TimerId)
    requires Inv(q) && FdInv(q)
    ensures FdInv(AfterCancel(q, id))
  {
    if id in q.active {
      var r := AfterCancel(q, id);
      RemoveEntryIs(q.timers, EntryOf(q, id.addr));
      if r.timers != [] {
        assert r.timers[0] in q.timers;
        FirstIsLeast(q.timers, r.timers[0]);
      }
    }
  }

  lemma AddKeepsFd(q: Queue, addr: Addr, now: int)
    requires Inv(q) && FdInv(q) && addr in q.inFlight
    ensures FdInv(AfterAdd(q, addr, now))
  {
    assert EntryOf(q, addr) !in q.timers;
    InsertEntryIs(q.timers, EntryOf(q, addr));
  }

  /** reset only adds timers, and those expire no earlier than the moment of the read. */
  lemma {:induction false} ResetAllAddsLater(q: Queue, entries: seq<Entry>)
    requires Indexes(q) && Numbered(q) && Accounted(q, entries)
    ensures var r := ResetAll(q, entries);
            && (forall e <- q.timers :: e in r.timers)
            && (forall e <- r.timers :: e in q.timers || e.when >= q.readAt)
    decreases |entries|
  {
    if entries == [] {
    } else {
      var e, rest := entries[0], entries[1..];
      assert entries == [e] + rest;
      ResetOneKeeps(q, e, rest);
      var p := ResetOne(q, e);
      ResetOneAddsLater(q, e);
      ResetAllAddsLater(p, rest);
    }
  }

  lemma ResetOneAddsLater(q: Queue, e: Entry)
    requires Indexes(q) && e.addr in q.heap && forall id <- q.active :: id.addr != e.addr
    ensures var r := ResetOne(q, e);
            && r.readAt == q.readAt && (forall x <- q.timers :: x in r.timers)
            && (forall x <- r.timers :: x in q.timers || x.when >= q.readAt)
  {
    var t := q.heap[e.addr];
    var again := Entry(q.readAt + t.delta, e.addr);
    assert again !in q.timers;
    InsertEntryIs(q.timers, again);
  }

  lemma ResetKeepsFd(q: Queue, now: int)
    requires Inv(q) && FdInv(q) && q.calling
    ensures FdInv(AfterReset(q, now))
  {
    var p, r := q.(calling := false), AfterReset(q, now);
    FlagKeeps(q);
    ResetAllKeeps(p, p.batch);
    ResetAllAddsLater(p, p.batch);
    if r.timers != [] && r.timers[0].when <= 0 {
      assert r.timers[0] in q.timers;
      FirstIsLeast(q.timers, r.timers[0]);
    }
  }

  /** The clock read by handleRead is after the epoch; expirations may be anything. */
  predicate ClockIsSet(step: Step) {
    step.Read? ==> step.now > 0
  }

  lemma StepKeepsFd(q: Queue, step: Step)
    requires Inv(q) && FdInv(q) && Enabled(q, step) && ClockIsSet(step)
    ensures FdInv(Next(q, step))
  {
    match step
    case Create(_, _, _, _) =>
    case Add(addr, now) => AddKeepsFd(q, addr, now);
    case Cancel(id) => CancelKeepsFd(q, id);
    case Fire =>
    case Read(now) =>
      ReadSplits(q, now);
      assert var r := Next(q, step); r.timers != [] ==> r.timers[0] in r.timers;
    case Callback =>
    case Reset(now) => ResetKeepsFd(q, now);
  }

  lemma {:induction false} RunKeepsFd(q: Queue, steps: seq<Step>)
    requires Inv(q) && FdInv(q) && LegalRun(q, steps) && forall step <- steps :: ClockIsSet(step)
    ensures FdInv(Run(q, steps))
    decreases |steps|
  {
    if steps == [] {
    } else {
      assert steps[0] in steps && forall step <- steps[1..] :: step in steps;
      StepKeepsInv(q, steps[0]);
      StepKeepsFd(q, steps[0]);
      RunKeepsFd(Next(q, steps[0]), steps[1..]);
    }
  }

  /** The queue as constructed. */
  function Empty(): (q: Queue)
    ensures Inv(q) && FdInv(q)
  {
    Queue(map[], [], {}, {}, false, {}, [], 0, 0, Disarmed, 0, map[], [])
  }

  /** In every reachable state outside handleRead the earliest timer will wake the loop. */
  lemma NoTimerIsLost(steps: seq<Step>)
    requires LegalRun(Empty(), steps) && forall step <- steps :: ClockIsSet(step)
    ensures var q := Run(Empty(), steps); Indexes(q) && (!q.calling ==> WillWake(q))
  {
    RunKeepsFd(Empty(), steps);
  }

  // ---------- The class ----------

  /** The ids of distinct timers are as many as the timers. */
  lemma {:induction false} IdsOfDistinct(q: Queue, entries: seq<Entry>)
    requires DistinctIn(q, entries)
    ensures |Ids(q.heap, entries)| == |entries|
    decreases |entries|
  {
    if entries == [] {
    } else {
      var e, rest := entries[0], entries[1..];
      assert entries == [e] + rest;
      RestIsDistinct(q, e, rest);
      IdsOfDistinct(q, rest);
      assert Ids(q.heap, entries) == Ids(q.heap, rest) + {IdOf(q, e.addr)};
    }
  }

  /** What every operation asserts: timers_ and activeTimers_ have the same size. */
  lemma SameSize(q: Queue)
    requires Indexes(q)
    ensures |q.timers| == |q.active|
  {
    SortedIsDistinct(q, q.timers);
    IdsOfDistinct(q, q.timers);
    assert q.active == Ids(q.heap, q.timers);
  }

  /** What the end of handleRead needs and promises. */
  lemma ResetIsRight(q: Queue, now: int)
    requires Inv(q) && q.calling
    ensures var p := q.(calling := false);
            Indexes(p) && Numbered(p) && Accounted(p, p.batch)
    ensures Inv(AfterReset(q, now)) && !AfterReset(q, now).calling
    ensures ResetTo(q, q.batch, AfterReset(q, now))
    ensures FdInv(q) ==> WillWake(AfterReset(q, now))
  {
    FlagKeeps(q);
    ResetKeepsInv(q, now);
    ResetRestarts(q, now);
    if FdInv(q) {
      ResetKeepsFd(q, now);
    }
  }

  /** Resetting `rest` is what is left of a reset that ends in `goal`. */
  ghost predicate Resettable(q: Queue, rest: seq<Entry>, goal: Queue) {
    Indexes(q) && Numbered(q) && Accounted(q, rest) && ResetAll(q, rest) == goal
  }

  lemma ResetIsDone(q: Queue, goal: Queue)
    requires Resettable(q, [], goal)
    ensures q == goal && Indexes(q)
  {
  }

  class Timers {
    var heap: map<Addr, Timer>
    var timers: seq<Entry>
    var active: set<TimerId>
    var canceling: set<TimerId>
    var calling: bool
    var batch: seq<Entry>
    var index: nat
    var readAt: int
    var fd: TimerFd
    var created: nat
    ghost var inFlight: set<Addr>
    ghost var owner: map<nat, Addr>
    ghost var log: seq<nat>

    ghost function State(): Queue
      reads this
    {
      Queue(heap, timers, active, canceling, calling, inFlight, batch, index, readAt, fd, created, owner, log)
    }

    constructor ()
      ensures State() == Empty()
    {
      heap, timers, active, canceling, calling := map[], [], {}, {}, false;
      batch, index, readAt, fd, created := [], 0, 0, Disarmed, 0;
      inFlight, owner, log := {}, map[], [];
    }

    /** The new Timer of addTimer, at an address that is free. */
    method Create(addr: Addr, when: int, delta: nat, repeat: bool) returns (id: TimerId)
      requires Inv(State()) && addr !in heap
      modifies this
      ensures State() == AfterCreate(old(State()), addr, when, delta, repeat) && Inv(State())
      ensures id == IdOf(State(), addr) && id.sequence !in old(owner)
      ensures heap == old(heap)[addr := Timer(when, delta, repeat, id.sequence)]
      ensures active == old(active) && timers == old(timers) && inFlight == old(inFlight) + {addr}
    {
      CreateKeepsInv(State(), addr, when, delta, repeat);
      created := created + 1;
      heap := heap[addr := Timer(when, delta, repeat, created)];
      inFlight, owner := inFlight + {addr}, owner[created := addr];
      id := TimerId(addr, created);
    }

    method Insert(addr: Addr) returns (earliestChanged: bool)
      requires Indexes(State()) && addr in heap && forall id <- active :: id.addr != addr
      modifies this`timers, this`active
      ensures State() == AfterInsert(old(State()), addr) && Indexes(State())
      ensures earliestChanged <==> EarliestChanged(old(State()), heap[addr].expiration)
    {
      ghost var q := State();
      InsertKeepsIndexes(q, addr);
      SameSize(q);
      var entry, id := Entry(heap[addr].expiration, addr), TimerId(addr, heap[addr].sequence);
      earliestChanged := |timers| == 0 || entry.when < timers[0].when;
      timers := InsertEntry(timers, entry);
      active := active + {id};
      SameSize(State());
      assert |timers| == |active| == |q.timers| + 1;
    }

    method AddTimerInLoop(addr: Addr, now: int)
      requires Inv(State()) && addr in inFlight
      modifies this
      ensures State() == AfterAdd(old(State()), addr, now) && Inv(State())
      ensures heap == old(heap) && active == old(active) + {TimerId(addr, heap[addr].sequence)}
      ensures forall e :: e in timers <==> e in old(timers) || e == Entry(heap[addr].expiration, addr)
      ensures old(FdInv(State())) ==> FdInv(State())
    {
      AddKeepsInv(State(), addr, now);
      assert EntryOf(State(), addr) !in timers;
      InsertEntryIs(timers, EntryOf(State(), addr));
      if FdInv(State()) {
        AddKeepsFd(State(), addr, now);
      }
      var earliestChanged := Insert(addr);
      inFlight := inFlight - {addr};
      if earliestChanged {
        fd := Arm(heap[addr].expiration, now);
      }
    }

    method CancelInLoop(id: TimerId)
      requires Inv(State())
      modifies this
      ensures State() == AfterCancel(old(State()), id) && Inv(State())
      ensures id !in active && (id in old(active) ==> id.addr !in heap && forall e <- timers :: e.addr != id.addr)
      ensures id !in old(active) ==> heap == old(heap) && timers == old(timers) && active == old(active)
      ensures old(FdInv(State())) ==> FdInv(State())
    {
      CancelKeepsInv(State(), id);
      if FdInv(State()) {
        CancelKeepsFd(State(), id);
      }
      if id in active {
        var entry := Entry(heap[id.addr].expiration, id.addr);
        assert entry in timers;
        timers := RemoveEntry(timers, entry);
        heap := heap - {id.addr};
        active := active - {id};
      } else if calling {
        canceling := canceling + {id};
      }
    }

    /** The end of timers_ before the sentry, found by walking the order. */
    method LowerBound(now: int) returns (n: nat)
      ensures n == ExpiredCount(timers, now)
    {
      n := 0;
      while n < |timers| && timers[n].when <= now
        invariant n <= |timers| && ExpiredCount(timers, now) == n + ExpiredCount(timers[n..], now)
        decreases |timers| - n
      {
        assert timers[n..][1..] == timers[n + 1..];
        n := n + 1;
      }
    }

    method GetExpired(now: int) returns (expired: seq<Entry>)
      requires forall e <- timers :: e.addr in heap
      modifies this`timers, this`active
      ensures var n := ExpiredCount(old(timers), now);
              && expired == old(timers)[..n] && timers == old(timers)[n..]
              && active == old(active) - Ids(heap, expired)
    {
      var n := LowerBound(now);
      expired := timers[..n];
      timers := timers[n..];
      var i := 0;
      while i < |expired|
        invariant i <= |expired| && timers == old(timers[n..])
        invariant active == old(active) - Ids(heap, expired[..i])
      {
        var e := expired[i];
        assert expired[..i + 1] == expired[..i] + [e];
        active := active - {TimerId(e.addr, heap[e.addr].sequence)};
        i := i + 1;
      }
      assert expired[..i] == expired;
    }

    method TakeExpired(now: int)
      requires forall e <- timers :: e.addr in heap
      modifies this
      ensures State() == AfterRead(old(State()), now)
    {
      ghost var r := AfterRead(State(), now);
      fd := if fd.Fired? then Disarmed else fd;
      var expired := GetExpired(now);
      assert timers == r.timers && expired == r.batch && active == r.active;
      batch, index, readAt, calling, canceling := expired, 0, now, true, {};
    }

    /** handleRead up to its first callback. */
    method BeginRead(now: int)
      requires Inv(State()) && !calling
      modifies this
      ensures State() == AfterRead(old(State()), now) && Inv(State())
      ensures calling && canceling == {} && readAt == now && heap == old(heap) && !fd.Fired?
      ensures index == 0 && batch + timers == old(timers)
      ensures forall i, j | 0 <= i < j < |batch| ::
                batch[i].when < batch[j].when || (batch[i].when == batch[j].when && batch[i].addr < batch[j].addr)
      ensures (forall e <- batch :: e.when <= now) && forall e <- timers :: e.when > now
    {
      ReadTakesTheDue(State(), now);
      TakeExpired(now);
    }

    /** it->second->run(): the timer at hand is live, whatever the callbacks before it cancelled. */
    method RunNext() returns (sequence: nat)
      requires Inv(State()) && calling && index < |batch|
      modifies this`index, this`log
      ensures State() == Next(old(State()), Callback) && Inv(State())
      ensures batch[old(index)] in batch && sequence == heap[batch[old(index)].addr].sequence
    {
      StepKeepsInv(State(), Callback);
      assert batch[index] in batch;
      sequence := heap[batch[index].addr].sequence;
      log, index := log + [sequence], index + 1;
    }

    /** restart and insert. */
    method Restart(addr: Addr)
      requires Indexes(State()) && Numbered(State()) && addr in heap && forall id <- active :: id.addr != addr
      modifies this`heap, this`timers, this`active
      ensures State() == AfterRestart(old(State()), addr)
    {
      RestartKeeps(State(), addr, readAt + heap[addr].delta);
      heap := heap[addr := heap[addr].(expiration := readAt + heap[addr].delta)];
      var _ := Insert(addr);
    }

    /** One entry of reset's loop, the first of those that are left. */
    method ResetEntry(e: Entry, ghost todo: seq<Entry>, ghost goal: Queue)
      requires todo != [] && e == todo[0] && Resettable(State(), todo, goal)
      modifies this`heap, this`timers, this`active
      ensures Resettable(State(), todo[1..], goal)
    {
      assert todo == [e] + todo[1..];
      ResetOneKeeps(State(), e, todo[1..]);
      assert e in todo;
      if heap[e.addr].repeat && TimerId(e.addr, heap[e.addr].sequence) !in canceling {
        Restart(e.addr);
      } else {
        heap := heap - {e.addr};
      }
    }

    method ResetEntries()
      requires Indexes(State()) && Numbered(State()) && Accounted(State(), batch)
      modifies this`heap, this`timers, this`active
      ensures DistinctIn(old(State()), batch) && State() == ResetAll(old(State()), batch)
      ensures Indexes(State())
    {
      ghost var todo, goal := batch, ResetAll(State(), batch);
      assert Resettable(State(), todo, goal);
      for i := 0 to |batch|
        invariant todo == batch[i..] && Resettable(State(), todo, goal)
      {
        ResetEntry(batch[i], todo, goal);
        todo := todo[1..];
      }
      ResetIsDone(State(), goal);
    }

    /** The end of reset: arm the timerfd for the earliest timer if that is a valid time. */
    method Rearm(now: int)
      requires timers != [] ==> timers[0].addr in heap && EntryOf(State(), timers[0].addr) == timers[0]
      modifies this`fd
      ensures fd == if timers != [] && timers[0].when > 0 then Arm(timers[0].when, now) else old(fd)
    {
      if |timers| > 0 {
        var nextExpire := heap[timers[0].addr].expiration;
        if nextExpire > 0 {
          fd := Arm(nextExpire, now);
        }
      }
    }

    method ResetTimers(now: int)
      requires Indexes(State()) && Numbered(State()) && Accounted(State(), batch)
      modifies this
      ensures DistinctIn(old(State()), old(batch)) && State() == Rearmed(ResetAll(old(State()), old(batch)), now)
    {
      ResetEntries();
      batch, index := [], 0;
      Rearm(now);
    }

    /** handleRead after its last callback. */
    method EndRead(now: int)
      requires Inv(State()) && calling && index == |batch|
      modifies this
      ensures DistinctIn(old(State()), old(batch)) && State() == AfterReset(old(State()), now)
      ensures Inv(State()) && (old(FdInv(State())) ==> WillWake(State()))
      ensures ResetTo(old(State()), old(batch), State()) && !calling
    {
      ResetIsRight(State(), now);
      calling := false;
      ResetTimers(now);
    }
  }
}
