/**
  The timing wheel of libco as it is stored: an array of intrusive lists. Both
  operations are proved to compute the value-level operations of TimingWheel.
 */
module LinkedWheel {
  import opened IntrusiveList
  import opened TimingWheel

  /** stTimeout_t over linked slots. */
  class Timeout {
    const slots: seq<List>
    var start: nat
    var startIdx: int

    /** The nodes of every slot, and a set that covers them all. */
    ghost var contents: seq<seq<Node>>
    ghost var nodes: set<Node>

    ghost predicate Valid()
      reads this, slots, nodes
    {
      && |slots| > 0
      && |contents| == |slots| && Distinct(slots)
      && (forall i | 0 <= i < |slots| :: Covers(slots[i]) && slots[i].Valid() && slots[i].contents == contents[i])
    }

    static ghost predicate Distinct(slots: seq<List>) {
      forall i, j | 0 <= i < j < |slots| :: slots[i] != slots[j]
    }

    ghost predicate Covers(list: List)
      reads this, list
    {
      forall node <- list.contents :: node in nodes
    }

    /** A list outside the wheel, which the operations leave alone. */
    ghost predicate Bystander(other: List)
      reads this, nodes, other
    {
      other !in slots && Covers(other) && other.Valid()
    }

    ghost function Abs(): (w: Wheel<Node>)
      reads this
    {
      Wheel(contents, start, startIdx)
    }

    /** AllocTimeout. */
    constructor (slots: seq<List>, now: nat)
      requires |slots| > 0
      requires Distinct(slots)
      requires forall i | 0 <= i < |slots| :: slots[i].Valid() && slots[i].contents == []
      ensures Valid() && this.slots == slots && start == now && startIdx == 0
      ensures contents == seq(|slots|, _ => []) && nodes == {}
    {
      this.slots := slots;
      start, startIdx, nodes := now, 0, {};
      contents := seq(|slots|, _ => []);
    }

    /** AddTail to one slot leaves the other lists alone. */
    method Append(idx: nat, item: Node, ghost other: List)
      requires Valid() && idx < |slots| && Bystander(other)
      modifies slots, nodes, item, `nodes, `contents
      ensures Valid() && Bystander(other) && nodes == old(nodes) + {item} && item.link != null
      ensures contents == if old(item.link) == null
                            then old(contents)[idx := old(contents)[idx] + [item]] else old(contents)
    {
      forall j | 0 <= j < |slots| && j != idx
        ensures item.link == null ==> item !in slots[j].contents
        ensures slots[idx].tail != null ==> slots[idx].tail !in slots[j].contents
      {
        ListsAreDisjoint(slots[idx], slots[j]);
        assert forall node <- slots[j].contents :: node.link == slots[j];
      }
      ListsAreDisjoint(slots[idx], other);
      assert forall node <- other.contents :: node.link == other;
      AddTail(slots[idx], item);
      nodes := nodes + {item};
      contents := contents[idx := slots[idx].contents];
      forall j | 0 <= j < |slots|
        ensures Covers(slots[j]) && slots[j].Valid() && slots[j].contents == contents[j]
      {
        assert old(Covers(slots[j]) && slots[j].Valid());
        if j != idx && old(item.link) == null {
          StaysValid(slots[j]);
        }
      }
      if old(item.link) == null {
        StaysValid(other);
      }
    }

    /** Join of one slot to a list outside the wheel leaves the other lists alone. */
    method MoveSlot(idx: nat, result: List, ghost other: List)
      requires Valid() && idx < |slots| && Bystander(result) && Bystander(other) && result != other
      modifies slots, nodes, result, `contents
      ensures Valid() && Bystander(result) && Bystander(other)
      ensures contents == old(contents)[idx := []]
      ensures result.contents == old(result.contents) + old(slots[idx].contents)
    {
      ghost var s, t := result.contents, slots[idx].contents;
      assert Covers(slots[idx]);
      assert result.tail != null ==> result.tail in s;
      Join(result, slots[idx]);
      contents := contents[idx := []];
      forall list | (list == other || list in slots) && list != slots[idx]
        ensures list.Valid()
      {
        assert old(list.Valid());
        assert forall node <- list.contents :: node !in s && node !in t by {
          assert forall node <- list.contents :: old(node.link) == list;
          assert forall node <- s :: old(node.link) == result;
          assert forall node <- t :: old(node.link) == slots[idx];
        }
        StaysValid(list);
      }
      forall j | 0 <= j < |slots|
        ensures Covers(slots[j]) && slots[j].Valid() && slots[j].contents == contents[j]
      {
        assert old(Covers(slots[j]) && slots[j].contents == contents[j]);
      }
    }

    method AppendAt(diff: nat, item: Node, ghost other: List)
      requires Valid() && startIdx >= 0 && Bystander(other)
      modifies slots, nodes, item, `nodes, `contents
      ensures Valid() && Bystander(other) && nodes == old(nodes) + {item} && item.link != null
      ensures Abs() == if old(item.link) == null then Appended(old(Abs()), diff, item) else old(Abs())
    {
      var idx := (startIdx + diff) % |slots|;
      Append(idx, item, other);
    }

    /** AddTimeout: a node that is on a list stays there, but the guards and the result are the same. */
    method AddTimeout(item: Node, now: nat, ghost other: List) returns (ok: bool)
      requires Valid() && startIdx >= 0 && Bystander(other)
      modifies this, slots, nodes, item
      ensures Valid() && Bystander(other)
      ensures nodes == if ok then old(nodes) + {item} else old(nodes)
      ensures ok == TimingWheel.AddTimeout(old(Abs()), item, item.expire, now).Added?
      ensures Abs() == if old(item.link) == null
                         then TimingWheel.AddTimeout(old(Abs()), item, item.expire, now).wheel
                         else old(Abs()).Started(now)
      ensures !ok ==> unchanged(item)
    {
      EnsureStarted(now, other);
      if now < start || item.expire < now {
        return false;
      }
      var diff := item.expire - start;
      if diff >= |slots| {
        diff := |slots| - 1;
      }
      assert diff == Offset(Abs(), item.expire);
      AppendAt(diff, item, other);
      return true;
    }

    /** RemoveFromLink, for a node at position `k` of slot `i`. */
    method Remove(node: Node, ghost i: nat, ghost k: nat, ghost other: List)
      requires Valid() && i < |slots| && k < |contents[i]| && contents[i][k] == node && Bystander(other)
      modifies slots, nodes, `contents
      ensures Valid() && Bystander(other) && node.link == null
      ensures contents == old(contents)[i := old(contents)[i][..k] + old(contents)[i][k + 1..]]
    {
      ghost var list := slots[i];
      assert Covers(list) && list.Valid() && list.contents == contents[i] && node.link == list;
      ghost var s := list.contents;
      OnlyAt(list, k);
      RemoveFromLink(node);
      contents := contents[i := list.contents];
      forall apart | (apart == other || apart in slots) && apart != list
        ensures apart.Valid()
      {
        assert old(apart.Valid());
        assert forall n <- apart.contents :: n !in s by {
          assert forall n <- apart.contents :: old(n.link) == apart;
          assert forall n <- s :: old(n.link) == list;
        }
        StaysValid(apart);
      }
      forall j | 0 <= j < |slots|
        ensures Covers(slots[j]) && slots[j].Valid() && slots[j].contents == contents[j]
      {
        assert old(Covers(slots[j]) && slots[j].contents == contents[j]);
      }
    }

    /** The first `i` slots of `w` have been moved behind `prefix`. */
    ghost predicate Moved(result: List, w: Wheel<Node>, prefix: seq<Node>, i: nat, other: List)
      reads this, slots, nodes, result, other
      requires w.Valid()
    {
      && (forall list <- slots + [result, other] :: Covers(list) && list.Valid())
      && |contents| == |slots| && (forall k | 0 <= k < |slots| :: slots[k].contents == contents[k])
      && contents == Drained(w, i) && result.contents == prefix + Gather(w, i)
    }

    /** What no step of the loop touches. */
    ghost predicate Steady(result: List, w: Wheel<Node>, other: List)
      reads this
    {
      && result !in slots && other !in slots && result != other && |slots| > 0 && Distinct(slots)
      && w.Valid() && |w.slots| == |slots| && w.startIdx == startIdx
    }

    /** One turn of the loop of TakeAllTimeout. */
    method DrainSlot(i: nat, result: List, ghost w: Wheel<Node>, ghost prefix: seq<Node>, ghost other: List)
      requires Steady(result, w, other) && Moved(result, w, prefix, i, other) && i < |slots|
      modifies slots, nodes, result, `contents
      ensures Moved(result, w, prefix, i + 1, other)
    {
      var idx := (startIdx + i) % |slots|;
      assert contents[idx] == w.slots[w.Slot(i)] by { DrainedLane(w, i, i); }
      assert slots[idx].contents == contents[idx];
      MoveSlot(idx, result, other);
      assert prefix + Gather(w, i) + w.slots[w.Slot(i)] == prefix + Gather(w, i + 1);
    }

    /** The loop of TakeAllTimeout. */
    method DrainSlots(cnt: nat, result: List, ghost w: Wheel<Node>, ghost prefix: seq<Node>, ghost other: List)
      requires cnt <= |slots| && Steady(result, w, other) && Moved(result, w, prefix, 0, other)
      modifies slots, nodes, result, `contents
      ensures Moved(result, w, prefix, cnt, other)
    {
      for i := 0 to cnt
        invariant Moved(result, w, prefix, i, other)
      {
        DrainSlot(i, result, w, prefix, other);
      }
    }

    /** Both operations begin by setting the origin of a wheel whose clock is still zero. */
    method EnsureStarted(now: nat, ghost other: List)
      requires Valid() && startIdx >= 0 && Bystander(other)
      modifies `start, `startIdx
      ensures Valid() && startIdx >= 0 && Bystander(other) && Abs() == old(Abs()).Started(now)
    {
      if start == 0 {
        start := now;
        startIdx := 0;
      }
    }

    /** The slot count of TakeAllTimeout, computed in a 32-bit int. */
    method CountSlots(now: nat) returns (cnt: int)
      requires Valid() && startIdx >= 0 && start <= now
      ensures cnt == Abs().Count(now)
    {
      cnt := ToInt32(now - start + 1);
      if cnt > |slots| {
        cnt := |slots|;
      }
    }

    lemma NothingMoved(result: List, other: List)
      requires Valid() && startIdx >= 0 && Bystander(result) && Bystander(other) && result != other
      ensures Moved(result, Abs(), result.contents, 0, other)
    {
      assert contents == Drained(Abs(), 0) && result.contents + Gather(Abs(), 0) == result.contents;
    }

    lemma MovedIsValid(result: List, w: Wheel<Node>, prefix: seq<Node>, i: nat, other: List)
      requires Steady(result, w, other) && Moved(result, w, prefix, i, other)
      ensures Valid() && Bystander(result) && Bystander(other)
    {
      var all := slots + [result, other];
      assert all[|slots|] == result && all[|slots| + 1] == other;
      assert forall k | 0 <= k < |slots| :: all[k] == slots[k];
    }

    method Turn(cnt: nat, now: nat, result: List, ghost other: List)
      requires Valid() && startIdx >= 0 && Bystander(result) && Bystander(other) && result != other && cnt <= |slots|
      modifies `start, `startIdx, `contents, slots, nodes, result
      ensures Valid() && Bystander(result) && Bystander(other)
      ensures Abs() == Turned(old(Abs()), cnt, now)
      ensures result.contents == old(result.contents) + Gather(old(Abs()), cnt)
    {
      NothingMoved(result, other);
      ghost var w, prefix := Abs(), result.contents;
      DrainSlots(cnt, result, w, prefix, other);
      MovedIsValid(result, w, prefix, cnt, other);
      start := now;
      startIdx := startIdx + cnt - 1;
    }

    /** TakeAllTimeout: the expired nodes go to the end of `result`. */
    method TakeAllTimeout(now: nat, result: List, ghost other: List)
      requires Valid() && startIdx >= 0 && Bystander(result) && Bystander(other) && result != other
      modifies `start, `startIdx, `contents, slots, nodes, result
      ensures Valid() && Bystander(result) && Bystander(other)
      ensures var (taken, out) := TimingWheel.TakeAllTimeout(old(Abs()), now);
              Abs() == taken && result.contents == old(result.contents) + out
    {
      EnsureStarted(now, other);
      if now < start {
        return;
      }
      var cnt := CountSlots(now);
      if cnt < 0 {
        return;
      }
      Turn(cnt, now, result, other);
    }
  }
}
