/**
  muduo's EPollPoller and Channel against a model of the kernel's interest set: the
  three-valued index of a channel always tells what epoll_ctl will accept for its fd.
 */
module EPollPoller {

  const NEW := -1
  const ADDED := 1
  const DELETED := 2

  const NONE_EVENT: bv8 := 0
  /** POLLIN | POLLPRI */
  const READ_EVENT: bv8 := 1 | 2
  /** POLLOUT */
  const WRITE_EVENT: bv8 := 4

  class Channel {
    const fd: int
    var events: bv8
    var index: int

    constructor (fd: int)
      ensures this.fd == fd && events == NONE_EVENT && index == NEW
    {
      this.fd := fd;
      events, index := NONE_EVENT, NEW;
    }
  }

  datatype Ctl = CtlAdd | CtlMod | CtlDel

  /** What the kernel keeps for an fd: the mask, and the pointer that it hands back with an event. */
  datatype Interest = Interest(mask: bv8, channel: Channel)

  // ---------- What the callers of a channel ask for ----------

  datatype Op =
    | EnableReading(channel: Channel)
    | DisableReading(channel: Channel)
    | EnableWriting(channel: Channel)
    | DisableWriting(channel: Channel)
    | DisableAll(channel: Channel)
    | Remove(channel: Channel)

  function Masked(events: bv8, op: Op): bv8 {
    match op
    case EnableReading(_) => events | READ_EVENT
    case DisableReading(_) => events & !READ_EVENT
    case EnableWriting(_) => events | WRITE_EVENT
    case DisableWriting(_) => events & !WRITE_EVENT
    case DisableAll(_) => NONE_EVENT
    case Remove(_) => events
  }

  /** The events a channel's callers want after a run, from the channel's own calls alone. */
  ghost function Wanted(events: bv8, channel: Channel, ops: seq<Op>): bv8 {
    if ops == [] then events
    else
      var before := Wanted(events, channel, ops[..|ops| - 1]);
      var last := ops[|ops| - 1];
      if last.channel == channel then Masked(before, last) else before
  }

  datatype Option<T> = None | Some(value: T)

  /** The last call that says whether the channel reads. */
  ghost function LastAboutReading(channel: Channel, ops: seq<Op>): Option<Op> {
    if ops == [] then None
    else
      var last := ops[|ops| - 1];
      if last.channel == channel && (last.EnableReading? || last.DisableReading? || last.DisableAll?) then Some(last)
      else LastAboutReading(channel, ops[..|ops| - 1])
  }

  ghost function LastAboutWriting(channel: Channel, ops: seq<Op>): Option<Op> {
    if ops == [] then None
    else
      var last := ops[|ops| - 1];
      if last.channel == channel && (last.EnableWriting? || last.DisableWriting? || last.DisableAll?) then Some(last)
      else LastAboutWriting(channel, ops[..|ops| - 1])
  }

  lemma MaskedBits(events: bv8, op: Op)
    ensures Masked(events, op) & 3
            == if op.EnableReading? then 3 else if op.DisableReading? || op.DisableAll? then 0 else events & 3
    ensures Masked(events, op) & 4
            == if op.EnableWriting? then 4 else if op.DisableWriting? || op.DisableAll? then 0 else events & 4
    ensures events & 7 == events ==> Masked(events, op) & 7 == Masked(events, op)
  {
  }

  /**
    The mask after a run, bit by bit: POLLIN and POLLPRI (3) are set if the channel's last call about reading
    enabled it, POLLOUT (4) if its last call about writing did, and no other bit is ever set.
   */
  lemma {:induction false} MaskFollowsLastCalls(events: bv8, channel: Channel, ops: seq<Op>)
    requires events & 7 == events
    ensures var mask, reading := Wanted(events, channel, ops), LastAboutReading(channel, ops);
            mask & 3 == if reading.None? then events & 3 else if reading.value.EnableReading? then 3 else 0
    ensures var mask, writing := Wanted(events, channel, ops), LastAboutWriting(channel, ops);
            mask & 4 == if writing.None? then events & 4 else if writing.value.EnableWriting? then 4 else 0
    ensures Wanted(events, channel, ops) & 7 == Wanted(events, channel, ops)
  {
    if ops == [] {
    } else {
      var n := |ops| - 1;
      MaskFollowsLastCalls(events, channel, ops[..n]);
      MaskedBits(Wanted(events, channel, ops[..n]), ops[n]);
    }
  }

  class EPollPoller {
    var channels: map<int, Channel>
    /** The kernel's interest set, and the number of epoll_ctl calls that it refused. */
    var kernel: map<int, Interest>
    var refused: nat
    ghost var live: set<Channel>

    constructor ()
      ensures Valid() && live == {}
    {
      channels, kernel, refused, live := map[], map[], 0, {};
    }

    predicate Registered(c: Channel)
      reads this
    {
      c.fd in channels && channels[c.fd] == c
    }

    /** The index of `c` tells where it is, and the kernel knows it by `mask`. */
    ghost predicate Known(c: Channel, mask: bv8)
      reads this, c
    {
      if !Registered(c) then c.index == NEW && mask == NONE_EVENT
      else if c.index == ADDED then c.fd in kernel && kernel[c.fd] == Interest(mask, c)
      else c.index == DELETED && mask == NONE_EVENT && c.fd !in kernel
    }

    ghost predicate Table()
      reads this
    {
      && (forall fd <- channels :: channels[fd] in live && channels[fd].fd == fd)
      && (forall fd <- kernel :: fd in channels)
      && refused == 0
    }

    ghost predicate ValidBut(c: Channel)
      reads this, live
    {
      Table() && forall d <- live :: d != c ==> Known(d, d.events)
    }

    ghost predicate Valid()
      reads this, live
    {
      Table() && forall d <- live :: Known(d, d.events)
    }

    /** epoll_ctl as Linux defines it: ADD wants an absent fd, MOD and DEL a present one. */
    method EpollCtl(op: Ctl, fd: int, event: Interest) returns (ok: bool)
      modifies `kernel
      ensures ok <==> (op.CtlAdd? <==> fd !in old(kernel))
      ensures kernel == if !ok then old(kernel) else if op.CtlDel? then old(kernel) - {fd}
                        else old(kernel)[fd := event]
    {
      ok := op.CtlAdd? <==> fd !in kernel;
      if ok {
        kernel := if op.CtlDel? then kernel - {fd} else kernel[fd := event];
      }
    }

    method Update(op: Ctl, c: Channel)
      modifies `kernel, `refused
      ensures (op.CtlAdd? <==> c.fd !in old(kernel)) ==>
                && refused == old(refused)
                && kernel == if op.CtlDel? then old(kernel) - {c.fd} else old(kernel)[c.fd := Interest(c.events, c)]
    {
      var ok := EpollCtl(op, c.fd, Interest(c.events, c));
      if !ok {
        refused := refused + 1;
      }
    }

    /**
      updateChannel, after the mask of `c` has changed from `was`. The source asserts that an
      unregistered channel brings an fd of its own.
     */
    method UpdateChannel(c: Channel, ghost was: bv8)
      requires c in live && ValidBut(c) && Known(c, was) && (c.fd in channels ==> Registered(c))
      modifies this`channels, this`kernel, this`refused, c`index
      ensures Valid() && Registered(c) && channels == old(channels)[c.fd := c]
      ensures c.index == if old(c.index) == ADDED && c.events == NONE_EVENT then DELETED else ADDED
    {
      if c.index == NEW || c.index == DELETED {
        if c.index == NEW {
          channels := channels[c.fd := c];
        }
        c.index := ADDED;
        Update(CtlAdd, c);
      } else if c.events == NONE_EVENT {
        Update(CtlDel, c);
        c.index := DELETED;
      } else {
        Update(CtlMod, c);
      }
    }

    /** removeChannel, under the conditions that it asserts. */
    method RemoveChannel(c: Channel)
      requires c in live && Valid() && Registered(c) && c.events == NONE_EVENT
      modifies this`channels, this`kernel, this`refused, c`index
      ensures Valid() && channels == old(channels) - {c.fd} && c.index == NEW && c.fd !in kernel
    {
      channels := channels - {c.fd};
      if c.index == ADDED {
        Update(CtlDel, c);
      }
      c.index := NEW;
    }

    /** A channel object of this loop begins its life. */
    method Create(fd: int) returns (c: Channel)
      requires Valid()
      modifies `live
      ensures Valid() && fresh(c) && c.fd == fd && c.events == NONE_EVENT && live == old(live) + {c}
    {
      c := new Channel(fd);
      live := live + {c};
    }

    /** What the source asserts of its callers. */
    predicate Allowed(op: Op)
      reads this, op.channel
    {
      if op.Remove? then Registered(op.channel) && op.channel.events == NONE_EVENT
      else op.channel.fd in channels ==> Registered(op.channel)
    }

    method Apply(op: Op)
      requires Valid() && op.channel in live && Allowed(op)
      modifies this`channels, this`kernel, this`refused, op.channel
      ensures Valid() && op.channel.events == Masked(old(op.channel.events), op)
    {
      var c := op.channel;
      ghost var was := c.events;
      match op {
        case EnableReading(_) => c.events := c.events | READ_EVENT;
        case DisableReading(_) => c.events := c.events & !READ_EVENT;
        case EnableWriting(_) => c.events := c.events | WRITE_EVENT;
        case DisableWriting(_) => c.events := c.events & !WRITE_EVENT;
        case DisableAll(_) => c.events := NONE_EVENT;
        case Remove(_) =>
          RemoveChannel(c);
          return;
      }
      UpdateChannel(c, was);
    }

    /**
      Every run of calls, up to the first that the source's assertions forbid: no epoll_ctl is refused,
      and the kernel watches each channel for exactly the events that its callers want.
     */
    method Perform(ops: seq<Op>) returns (done: nat)
      requires Valid() && forall op <- ops :: op.channel in live
      modifies this`channels, this`kernel, this`refused, live
      ensures Valid() && refused == 0 && done <= |ops| && (done < |ops| ==> !Allowed(ops[done]))
      ensures forall c <- live :: c.events == Wanted(old(c.events), c, ops[..done])
      ensures forall c <- live :: c.index == ADDED <==> c.fd in kernel && kernel[c.fd] == Interest(c.events, c)
      ensures forall c <- live :: c.events != NONE_EVENT ==> c.index == ADDED
      ensures forall fd <- kernel :: kernel[fd].channel in live && kernel[fd].channel.fd == fd
                                     && kernel[fd].mask == kernel[fd].channel.events
    {
      done := 0;
      while done < |ops|
        invariant Valid() && done <= |ops|
        invariant forall c <- live :: c.events == Wanted(old(c.events), c, ops[..done])
      {
        if !Allowed(ops[done]) {
          break;
        }
        Apply(ops[done]);
        assert ops[..done + 1][..done] == ops[..done];
        done := done + 1;
      }
    }

    /** fillActiveChannels: every pointer that the kernel hands back is a registered channel. */
    method FillActiveChannels(ready: seq<int>) returns (active: seq<Channel>)
      requires Valid() && forall fd <- ready :: fd in kernel
      ensures |active| == |ready|
      ensures forall i | 0 <= i < |ready| :: active[i].fd == ready[i] && Registered(active[i])
    {
      active := [];
      for i := 0 to |ready|
        invariant |active| == i
        invariant forall j | 0 <= j < i :: active[j].fd == ready[j] && Registered(active[j])
      {
        assert ready[i] in ready && ready[i] in channels;
        assert Known(channels[ready[i]], channels[ready[i]].events);
        var channel := kernel[ready[i]].channel;
        active := active + [channel];
      }
    }
  }
}
