/**
  The timing wheel of libco (stTimeout_t, AddTimeout, TakeAllTimeout) as values,
  proved to refine a queue of entries ordered by due tick.

  A slot's due tick is ullStart plus the slot's offset from llStartIdx.
 */
module TimingWheel {
  import opened Bytes

  /** Conversion of an unsigned 64-bit count to a 32-bit int. */
  function ToInt32(x: nat): (r: int)
    ensures -2147483648 <= r < 2147483648 && (x - r) % 4294967296 == 0
    ensures x < TWO_31 ==> r == x
  {
    Signed32(x % TWO_32)
  }

  /** stTimeout_t. */
  datatype Wheel<T> = Wheel(slots: seq<seq<T>>, start: nat, startIdx: int) {

    ghost predicate Valid() {
      |slots| > 0 && startIdx >= 0
    }

    /** The slot index at an offset from llStartIdx. */
    function Slot(offset: nat): (idx: nat)
      requires Valid()
      ensures idx < |slots|
    {
      (startIdx + offset) % |slots|
    }

    /** The slots in due order, starting with the one that is due at `start`. */
    ghost function Lanes(): (lanes: seq<seq<T>>)
      requires Valid()
      ensures |lanes| == |slots|
    {
      seq(|slots|, (j: nat) requires 0 <= j < |slots| => slots[Slot(j)])
    }

    /** Every entry with its due tick, in due order and first-in first-out within a tick. */
    ghost function Schedule(): seq<(T, nat)>
      requires Valid()
    {
      DueFrom(Lanes(), start)
    }

    /** Both operations first set the origin of a wheel whose clock is still zero. */
    function Started(now: nat): Wheel<T> {
      if start == 0 then this.(start := now, startIdx := 0) else this
    }

    /** The number of slots that TakeAllTimeout visits, computed in a 32-bit int. */
    function Count(now: nat): (cnt: int)
      requires Valid() && start <= now
      ensures cnt <= |slots|
    {
      var cnt := ToInt32(now - start + 1);
      if cnt > |slots| then |slots| else cnt
    }

    /** A count of zero moves llStartIdx back by one; from index zero that leaves -1. */
    predicate LosesIndex(now: nat)
      requires Valid()
    {
      var w := Started(now);
      w.start <= now && w.Count(now) == 0 && w.startIdx == 0
    }

    /** The array index of co_routine.cpp:436: C's remainder takes the sign of the left operand. */
    function CIndex(offset: nat): int
      requires |slots| > 0
    {
      var x := startIdx + offset;
      if x >= 0 then x % |slots| else -((-x) % |slots|)
    }
  }

  datatype AddOutcome<T> = Added(wheel: Wheel<T>) | Refused(wheel: Wheel<T>)

  /** The slot offset for a deadline: its distance from `start`, at most the last slot. */
  function Offset<T>(w: Wheel<T>, expire: nat): (diff: nat)
    requires w.Valid() && w.start <= expire
    ensures diff < |w.slots|
  {
    if expire - w.start >= |w.slots| then |w.slots| - 1 else expire - w.start
  }

  /** AddTimeout. */
  function AddTimeout<T>(wheel: Wheel<T>, item: T, expire: nat, now: nat): (r: AddOutcome<T>)
    requires wheel.Valid()
    ensures r.wheel.Valid()
  {
    var w := wheel.Started(now);
    if now < w.start || expire < now then Refused(w)
    else Added(Appended(w, Offset(w, expire), item))
  }

  /** The wheel once `item` has been appended to the slot at `offset`. */
  function Appended<T>(w: Wheel<T>, offset: nat, item: T): (r: Wheel<T>)
    requires w.Valid()
    ensures r.Valid()
  {
    var idx := w.Slot(offset);
    w.(slots := w.slots[idx := w.slots[idx] + [item]])
  }

  /** The contents of the first `cnt` slots in due order. */
  function Gather<T>(w: Wheel<T>, cnt: nat): seq<T>
    requires w.Valid()
  {
    if cnt == 0 then [] else Gather(w, cnt - 1) + w.slots[w.Slot(cnt - 1)]
  }

  /** The slots once the first `cnt` in due order have been emptied. */
  function Drained<T>(w: Wheel<T>, cnt: nat): (slots: seq<seq<T>>)
    requires w.Valid()
    ensures |slots| == |w.slots|
  {
    if cnt == 0 then w.slots else Drained(w, cnt - 1)[w.Slot(cnt - 1) := []]
  }

  /** TakeAllTimeout. A negative count makes it return early; a count of zero does not. */
  function TakeAllTimeout<T>(wheel: Wheel<T>, now: nat): (r: (Wheel<T>, seq<T>))
    requires wheel.Valid()
    ensures |r.0.slots| == |wheel.slots|
    ensures r.0.Valid() <==> !wheel.LosesIndex(now)
  {
    var w := wheel.Started(now);
    if now < w.start then (w, [])
    else
      var cnt := w.Count(now);
      if cnt < 0 then (w, [])
      else (Turned(w, cnt, now), Gather(w, cnt))
  }

  /** The wheel once its first `cnt` slots have been taken and its origin moved to `now`. */
  function Turned<T>(w: Wheel<T>, cnt: nat, now: nat): (r: Wheel<T>)
    requires w.Valid()
    ensures |r.slots| == |w.slots|
    ensures r.Valid() <==> w.startIdx + cnt > 0
  {
    Wheel(Drained(w, cnt), now, w.startIdx + cnt - 1)
  }

  // ---------- The queue of due ticks ----------

  ghost function Tagged<T>(items: seq<T>, due: nat): seq<(T, nat)> {
    seq(|items|, i requires 0 <= i < |items| => (items[i], due))
  }

  ghost function DueFrom<T>(lanes: seq<seq<T>>, due: nat): seq<(T, nat)> {
    if lanes == [] then [] else Tagged(lanes[0], due) + DueFrom(lanes[1..], due + 1)
  }

  ghost function Items<T>(queue: seq<(T, nat)>): seq<T> {
    seq(|queue|, i requires 0 <= i < |queue| => queue[i].0)
  }

  /** The entries that are due at `now`, and those that are not; both keep their order. */
  ghost function Expired<T>(queue: seq<(T, nat)>, now: nat): seq<(T, nat)> {
    if queue == [] then []
    else (if queue[0].1 <= now then [queue[0]] else []) + Expired(queue[1..], now)
  }

  ghost function Waiting<T>(queue: seq<(T, nat)>, now: nat): seq<(T, nat)> {
    if queue == [] then []
    else (if queue[0].1 <= now then [] else [queue[0]]) + Waiting(queue[1..], now)
  }

  /** Insert behind every entry that is due at the same tick or earlier. */
  ghost function Insert<T>(queue: seq<(T, nat)>, item: T, due: nat): seq<(T, nat)> {
    if queue == [] || queue[0].1 > due then [(item, due)] + queue
    else [queue[0]] + Insert(queue[1..], item, due)
  }

  /** The two parts of a queue: what is due by `now`, what is not, and nothing else. */
  lemma {:induction false} ExpiredAndWaiting<T>(queue: seq<(T, nat)>, now: nat)
    ensures forall entry <- Expired(queue, now) :: entry.1 <= now
    ensures forall entry <- Waiting(queue, now) :: entry.1 > now
    ensures multiset(queue) == multiset(Expired(queue, now)) + multiset(Waiting(queue, now))
  {
    if queue == [] {
    } else {
      ExpiredAndWaiting(queue[1..], now);
      assert queue == [queue[0]] + queue[1..];
    }
  }

  ghost predicate Within<T>(queue: seq<(T, nat)>, lo: nat, hi: nat) {
    forall i | 0 <= i < |queue| :: lo <= queue[i].1 < hi
  }

  // ---------- Slot arithmetic ----------

  /** A non-zero multiple of `n` is at least `n` away from zero. */
  lemma NonzeroMultiple(n: int, d: int)
    requires n > 0 && d != 0
    ensures n * d >= n || n * d <= -n
  {
    if d > 0 {
      assert n * d == n + n * (d - 1);
    } else {
      assert n * d == -(n + n * (-d - 1));
    }
  }

  lemma ModUnique(x: nat, n: nat, q: nat, r: nat)
    requires n > 0 && x == n * q + r && r < n
    ensures x % n == r
  {
    var p, s := x / n, x % n;
    assert n * (p - q) == n * p - n * q == r - s;
    if p != q {
      NonzeroMultiple(n, p - q);
    }
  }

  /** Offsets below the wheel size name different slots. */
  lemma SlotIsInjective<T>(w: Wheel<T>, j: nat, k: nat)
    requires w.Valid() && j < |w.slots| && k < |w.slots| && w.Slot(j) == w.Slot(k)
    ensures j == k
  {
    var n := |w.slots|;
    var p, q := (w.startIdx + j) / n, (w.startIdx + k) / n;
    assert n * (p - q) == n * p - n * q == j - k;
    if p != q {
      NonzeroMultiple(n, p - q);
    }
  }

  /** Going around the wheel once comes back to the same slot. */
  lemma SlotWraps<T>(w: Wheel<T>, j: nat)
    requires w.Valid()
    ensures w.Slot(j + |w.slots|) == w.Slot(j)
  {
    var x, n := w.startIdx + j, |w.slots|;
    assert x + n == n * (x / n + 1) + x % n;
    ModUnique(x + n, n, x / n + 1, x % n);
  }

  // ---------- The operations on slots in due order ----------

  /** Draining empties the first `cnt` slots in due order and no other. */
  lemma {:induction false} DrainedLane<T>(w: Wheel<T>, cnt: nat, j: nat)
    requires w.Valid() && cnt <= |w.slots| && j < |w.slots|
    ensures Drained(w, cnt)[w.Slot(j)] == if j < cnt then [] else w.slots[w.Slot(j)]
  {
    if cnt == 0 {
    } else {
      DrainedLane(w, cnt - 1, j);
      if w.Slot(j) == w.Slot(cnt - 1) {
        SlotIsInjective(w, j, cnt - 1);
      }
    }
  }

  /** After a take, the wheel has turned: the emptied slots stand behind the ones that were kept. */
  lemma TakenLanes<T>(w: Wheel<T>, cnt: nat, now: nat)
    requires w.Valid() && 0 < cnt <= |w.slots|
    ensures Turned(w, cnt, now).Lanes() == [[]] + w.Lanes()[cnt..] + seq(cnt - 1, _ => [])
  {
    var turned := Turned(w, cnt, now);
    var n := |w.slots|;
    forall k: nat | k < n
      ensures turned.slots[turned.Slot(k)] == ([[]] + w.Lanes()[cnt..] + seq(cnt - 1, _ => []))[k]
    {
      var j := cnt - 1 + k;
      assert turned.Slot(k) == w.Slot(j);
      if j < n {
        DrainedLane(w, cnt, j);
      } else {
        assert w.Slot(j) == w.Slot(j - n) by { SlotWraps(w, j - n); }
        DrainedLane(w, cnt, j - n);
      }
    }
  }

  /** Adding an entry appends to the one slot at the entry's offset. */
  lemma AddedLanes<T>(w: Wheel<T>, item: T, k: nat)
    requires w.Valid() && k < |w.slots|
    ensures Appended(w, k, item).Lanes() == w.Lanes()[k := w.Lanes()[k] + [item]]
  {
    var added := Appended(w, k, item);
    forall j: nat | j < |w.slots|
      ensures added.Lanes()[j] == w.Lanes()[k := w.Lanes()[k] + [item]][j]
    {
      if w.Slot(j) == w.Slot(k) {
        SlotIsInjective(w, j, k);
      }
    }
  }

  ghost function Flat<T>(lanes: seq<seq<T>>): seq<T> {
    if lanes == [] then [] else lanes[0] + Flat(lanes[1..])
  }

  lemma {:induction false} FlatAppend<T>(a: seq<seq<T>>, b: seq<seq<T>>)
    ensures Flat(a + b) == Flat(a) + Flat(b)
  {
    if a == [] {
      assert a + b == b;
    } else {
      assert (a + b)[1..] == a[1..] + b;
      FlatAppend(a[1..], b);
    }
  }

  lemma {:induction false} GatheredLanes<T>(w: Wheel<T>, cnt: nat)
    requires w.Valid() && cnt <= |w.slots|
    ensures Gather(w, cnt) == Flat(w.Lanes()[..cnt])
  {
    if cnt == 0 {
    } else {
      GatheredLanes(w, cnt - 1);
      assert w.Lanes()[..cnt] == w.Lanes()[..cnt - 1] + [w.Lanes()[cnt - 1]];
      FlatAppend(w.Lanes()[..cnt - 1], [w.Lanes()[cnt - 1]]);
      assert Flat([w.Lanes()[cnt - 1]]) == w.Lanes()[cnt - 1] + Flat<T>([]);
    }
  }

  // ---------- The operations on the queue of due ticks ----------

  lemma {:induction false} DueFromAppend<T>(a: seq<seq<T>>, b: seq<seq<T>>, due: nat)
    ensures DueFrom(a + b, due) == DueFrom(a, due) + DueFrom(b, due + |a|)
  {
    if a == [] {
      assert a + b == b;
    } else {
      assert (a + b)[1..] == a[1..] + b;
      DueFromAppend(a[1..], b, due + 1);
    }
  }

  lemma {:induction false} DueFromEmpty<T>(n: nat, due: nat)
    ensures DueFrom(seq(n, _ => []), due) == Tagged<T>([], due)
  {
    if n == 0 {
    } else {
      var lanes: seq<seq<T>> := seq(n, _ => []);
      assert lanes[1..] == seq(n - 1, _ => []);
      DueFromEmpty<T>(n - 1, due + 1);
    }
  }

  lemma {:induction false} DueFromWithin<T>(lanes: seq<seq<T>>, due: nat)
    ensures Within(DueFrom(lanes, due), due, due + |lanes|)
    ensures Items(DueFrom(lanes, due)) == Flat(lanes)
  {
    if lanes == [] {
    } else {
      DueFromWithin(lanes[1..], due + 1);
      var a, b := Tagged(lanes[0], due), DueFrom(lanes[1..], due + 1);
      assert Items(a) == lanes[0];
      assert Items(a + b) == Items(a) + Items(b);
    }
  }

  /** A queue that splits at `now` is split there by Expired and Waiting. */
  lemma {:induction false} SplitAt<T>(early: seq<(T, nat)>, late: seq<(T, nat)>, now: nat)
    requires forall i | 0 <= i < |early| :: early[i].1 <= now
    requires forall i | 0 <= i < |late| :: late[i].1 > now
    ensures Expired(early + late, now) == early && Waiting(early + late, now) == late
  {
    var queue := early + late;
    if early != [] {
      assert queue[1..] == early[1..] + late;
      SplitAt(early[1..], late, now);
    } else if late != [] {
      assert queue == late && queue[1..] == [] + late[1..];
      SplitAt([], late[1..], now);
    }
  }

  lemma {:induction false} InsertAfter<T>(early: seq<(T, nat)>, late: seq<(T, nat)>, item: T, due: nat)
    requires forall i | 0 <= i < |early| :: early[i].1 <= due
    requires forall i | 0 <= i < |late| :: late[i].1 > due
    ensures Insert(early + late, item, due) == early + [(item, due)] + late
  {
    var queue := early + late;
    if early != [] {
      assert queue[1..] == early[1..] + late;
      InsertAfter(early[1..], late, item, due);
    } else {
      assert queue == late;
    }
  }

  /** Appending to one slot inserts at that slot's due tick. */
  lemma InsertLane<T>(lanes: seq<seq<T>>, k: nat, item: T, start: nat)
    requires k < |lanes|
    ensures DueFrom(lanes[k := lanes[k] + [item]], start) == Insert(DueFrom(lanes, start), item, start + k)
  {
    var due := start + k;
    var early, late := DueFrom(lanes[..k], start) + Tagged(lanes[k], due), DueFrom(lanes[k + 1..], due + 1);
    assert DueFrom(lanes, start) == early + late by { DueFromSplit(lanes, k, start); }
    assert DueFrom(lanes[k := lanes[k] + [item]], start) == early + [(item, due)] + late by {
      var added := lanes[k := lanes[k] + [item]];
      DueFromSplit(added, k, start);
      assert added[..k] == lanes[..k] && added[k + 1..] == lanes[k + 1..];
      assert Tagged(lanes[k] + [item], due) == Tagged(lanes[k], due) + [(item, due)];
    }
    DueFromWithin(lanes[..k], start);
    DueFromWithin(lanes[k + 1..], due + 1);
    InsertAfter(early, late, item, due);
  }

  lemma DueFromSplit<T>(lanes: seq<seq<T>>, k: nat, start: nat)
    requires k < |lanes|
    ensures DueFrom(lanes, start)
            == DueFrom(lanes[..k], start) + Tagged(lanes[k], start + k) + DueFrom(lanes[k + 1..], start + k + 1)
  {
    assert lanes == lanes[..k] + lanes[k..];
    DueFromAppend(lanes[..k], lanes[k..], start);
    assert lanes[k..][1..] == lanes[k + 1..];
  }

  /** When the first `cnt` slots are those due at `now`, they are the expired part of the schedule. */
  lemma ExpiredLanes<T>(lanes: seq<seq<T>>, cnt: nat, start: nat, now: nat)
    requires cnt <= |lanes| && start + cnt <= now + 1 && (cnt == |lanes| || start + cnt == now + 1)
    ensures Items(Expired(DueFrom(lanes, start), now)) == Flat(lanes[..cnt])
    ensures Waiting(DueFrom(lanes, start), now) == DueFrom(lanes[cnt..], start + cnt)
  {
    assert lanes == lanes[..cnt] + lanes[cnt..];
    DueFromAppend(lanes[..cnt], lanes[cnt..], start);
    DueFromWithin(lanes[..cnt], start);
    DueFromWithin(lanes[cnt..], start + cnt);
    SplitAt(DueFrom(lanes[..cnt], start), DueFrom(lanes[cnt..], start + cnt), now);
  }

  // ---------- Main results ----------

  /**
    AddTimeout refuses exactly the deadlines that are past and the clocks that are before the origin, which a
    wheel at zero takes from the clock. Otherwise the entry is due at its deadline or, if the wheel does not
    reach that far, at the last tick that it does reach, behind all entries due by then.
   */
  lemma AddTimeoutRefinesQueue<T>(w: Wheel<T>, item: T, expire: nat, now: nat)
    requires w.Valid()
    ensures var v := w.Started(now);
            && v == (if w.start == 0 then w.(start := now, startIdx := 0) else w)
            && (AddTimeout(w, item, expire, now).Added? <==> v.start <= now <= expire)
            && (AddTimeout(w, item, expire, now).Refused? ==> AddTimeout(w, item, expire, now).wheel == v)
    ensures var v := w.Started(now);
            var last := v.start + |v.slots| - 1;
            v.start <= now <= expire ==>
              AddTimeout(w, item, expire, now).wheel.Schedule()
              == Insert(v.Schedule(), item, if expire <= last then expire else last)
  {
    var v := w.Started(now);
    if v.start <= now <= expire {
      var offset := Offset(v, expire);
      assert AddTimeout(w, item, expire, now) == Added(Appended(v, offset, item));
      AddedLanes(v, item, offset);
      InsertLane(v.Lanes(), offset, item, v.start);
    }
  }

  /** A take is complete when the 32-bit count covers the gap or the whole wheel. */
  predicate CountIsComplete(gap: nat, size: nat) {
    ToInt32(gap + 1) >= if gap + 1 <= size then gap + 1 else size
  }

  /** Exactly the entries due at `now` come out, in due order, and every other entry keeps its due tick. */
  ghost predicate TakeIsExact<T>(w: Wheel<T>, now: nat)
    requires w.Valid()
  {
    var (taken, out) := TakeAllTimeout(w, now);
    && out == Items(Expired(w.Schedule(), now))
    && taken.Valid() && taken.Schedule() == Waiting(w.Schedule(), now)
  }

  /**
    TakeAllTimeout moves out exactly the entries due at `now`, in due order, and every other entry
    keeps its due tick: through wraparound of the index, steps back of the clock, and gaps longer
    than the wheel.
   */
  lemma TakeAllTimeoutRefinesQueue<T>(w: Wheel<T>, now: nat)
    requires w.Valid() && w.start != 0
    requires w.start <= now ==> CountIsComplete(now - w.start, |w.slots|)
    ensures TakeIsExact(w, now)
    ensures w.start <= now ==> TakeAllTimeout(w, now).0.start == now
  {
    if now < w.start {
      DueFromWithin(w.Lanes(), w.start);
      SplitAt([], w.Schedule(), now);
      assert [] + w.Schedule() == w.Schedule();
    } else {
      CompleteCount(w, now);
      TakenSchedule(w, w.Count(now), now);
    }
  }

  /** A complete count covers every slot that is due, and no slot that is not. */
  lemma CompleteCount<T>(w: Wheel<T>, now: nat)
    requires w.Valid() && w.start <= now && CountIsComplete(now - w.start, |w.slots|)
    ensures 0 < w.Count(now) && w.start + w.Count(now) <= now + 1
    ensures w.Count(now) == |w.slots| || w.start + w.Count(now) == now + 1
  {
  }

  /** Visiting exactly the slots that are due splits the schedule at `now`. */
  lemma TakenSchedule<T>(w: Wheel<T>, cnt: nat, now: nat)
    requires w.Valid() && 0 < cnt <= |w.slots| && w.start + cnt <= now + 1
    requires cnt == |w.slots| || w.start + cnt == now + 1
    ensures Gather(w, cnt) == Items(Expired(w.Schedule(), now))
    ensures Turned(w, cnt, now).Schedule() == Waiting(w.Schedule(), now)
  {
    var kept := w.Lanes()[cnt..];
    ExpiredLanes(w.Lanes(), cnt, w.start, now);
    GatheredLanes(w, cnt);
    TakenLanes(w, cnt, now);
    TurnedSchedule(kept, cnt - 1, now);
    assert kept == [] || w.start + cnt == now + 1;
  }

  /** The schedule of a wheel that has been turned to `now`. */
  lemma TurnedSchedule<T>(kept: seq<seq<T>>, emptied: nat, now: nat)
    ensures DueFrom([[]] + kept + seq(emptied, _ => []), now) == DueFrom(kept, now + 1)
  {
    var tail: seq<seq<T>> := seq(emptied, _ => []);
    var lanes := [[]] + kept + tail;
    assert lanes[1..] == kept + tail;
    DueFromAppend(kept, tail, now + 1);
    DueFromEmpty<T>(emptied, now + 1 + |kept|);
    assert DueFrom(lanes, now) == Tagged(lanes[0], now) + DueFrom(lanes[1..], now + 1);
  }

  /** A wheel with a single entry, in the slot that is due last, whose index has gone around once. */
  ghost function LastSlotOnly(start: nat, size: nat, item: int): (w: Wheel<int>)
    requires size > 0
    ensures w.Valid() && w.start == start && |w.slots| == size
  {
    Wheel(seq(size - 1, _ => []) + [[item]], start, size)
  }

  lemma LastSlotOnlySchedule(start: nat, size: nat, item: int)
    requires size > 0
    ensures var w := LastSlotOnly(start, size, item);
            w.Lanes() == w.slots && w.Schedule() == [(item, start + size - 1)]
  {
    var w := LastSlotOnly(start, size, item);
    forall j: nat | j < size
      ensures w.Slot(j) == j
    {
      ModUnique(size + j, size, 1, j);
    }
    assert w.Lanes() == w.slots;
    DueFromAppend(seq(size - 1, _ => []), [[item]], start);
    DueFromEmpty<int>(size - 1, start);
    assert DueFrom([[item]], start + size - 1) == Tagged([item], start + size - 1) + DueFrom<int>([], start + size);
  }

  /**
    The condition is needed: whenever the count is incomplete, be it negative, zero or too small, the
    wheel of that size whose only entry is due last misses it although it is due.
   */
  lemma IncompleteCountMissesEntry(start: nat, gap: nat, size: nat, item: int)
    requires start != 0 && 0 < size < TWO_31 && !CountIsComplete(gap, size)
    ensures var w := LastSlotOnly(start, size, item);
            && w.Schedule() == [(item, start + size - 1)] && start + size - 1 <= start + gap
            && TakeAllTimeout(w, start + gap).1 == []
  {
    var w := LastSlotOnly(start, size, item);
    LastSlotOnlySchedule(start, size, item);
    var cnt := w.Count(start + gap);
    if cnt > 0 {
      GatheredLanes(w, cnt);
      assert w.slots[..cnt] == seq(cnt, _ => []);
      DueFromWithin(w.slots[..cnt], start);
      DueFromEmpty<int>(cnt, start);
    }
  }

  /** The exact condition: a take is exact on every wheel of a size if and only if its count is complete. */
  lemma TakeIsExactIffCountIsComplete(start: nat, gap: nat, size: nat)
    requires start != 0 && 0 < size < TWO_31
    ensures (forall w: Wheel<int> | w.Valid() && w.start == start && |w.slots| == size :: TakeIsExact(w, start + gap))
            <==> CountIsComplete(gap, size)
  {
    if CountIsComplete(gap, size) {
      forall w: Wheel<int> | w.Valid() && w.start == start && |w.slots| == size
        ensures TakeIsExact(w, start + gap)
      {
        TakeAllTimeoutRefinesQueue(w, start + gap);
      }
    } else {
      var w := LastSlotOnly(start, size, 0);
      IncompleteCountMissesEntry(start, gap, size, 0);
      assert Expired(w.Schedule(), start + gap) == [w.Schedule()[0]] + Expired(w.Schedule()[1..], start + gap);
      assert |Items(Expired(w.Schedule(), start + gap))| > 0;
      assert !TakeIsExact(w, start + gap);
    }
  }

  /**
    A count of zero takes nothing and shifts everything: the entry that was due last is now due at `now`,
    and every other one tick later than its old distance from the origin puts it.
   */
  lemma ZeroCountShiftsEverything<T>(w: Wheel<T>, now: nat)
    requires w.Valid() && w.start != 0 && w.start <= now && w.Count(now) == 0 && w.startIdx > 0
    ensures var (taken, out) := TakeAllTimeout(w, now);
            var n := |w.slots| - 1;
            && out == [] && taken.Valid() && taken.start == now
            && taken.Lanes() == [w.Lanes()[n]] + w.Lanes()[..n]
            && taken.Schedule() == Tagged(w.Lanes()[n], now) + DueFrom(w.Lanes()[..n], now + 1)
  {
    var taken, n := TakeAllTimeout(w, now).0, |w.slots| - 1;
    var lanes := [w.Lanes()[n]] + w.Lanes()[..n];
    forall k: nat | k < |w.slots|
      ensures taken.Lanes()[k] == lanes[k]
    {
      if k == 0 {
        SlotWraps(taken, 0);
        assert taken.Slot(0 + |w.slots|) == w.Slot(n);
      } else {
        assert taken.Slot(k) == w.Slot(k - 1);
      }
    }
    assert taken.Lanes() == lanes && lanes[1..] == w.Lanes()[..n];
  }

  /** From index zero, a count of zero leaves no usable index: co_routine.cpp:436 would then read slot -1. */
  lemma LostIndexIsOutside<T>(w: Wheel<T>, now: nat)
    requires w.Valid() && w.LosesIndex(now)
    ensures var taken := TakeAllTimeout(w, now).0;
            taken.startIdx == -1 && (|w.slots| > 1 ==> taken.CIndex(0) == -1)
  {
  }

  /** In every other state the index of co_routine.cpp:436 is the slot of the model. */
  lemma CIndexIsSlot<T>(w: Wheel<T>, offset: nat)
    requires w.Valid()
    ensures w.CIndex(offset) == w.Slot(offset)
  {
  }
}
