/**
  The output path of muduo's TcpConnection, used from its loop thread: a message is
  written at once where possible, the rest waits in the output buffer for the channel
  to become writable, and the write side is shut only when nothing is left to write.
 */
module TcpConnection {
  import opened Bytes
  import Buffer

  datatype State = Disconnected | Connecting | Connected | Disconnecting

  datatype Errno = EWOULDBLOCK | EPIPE | ECONNRESET | OtherErrno

  /** The result of a write: bytes taken, or an error. */
  datatype Kernel = Wrote(n: nat) | Failed(errno: Errno)

  /**
    `sent` is what the kernel took, `shuts` the number of SHUT_WR calls and `closing` the queued
    forced closes. The history: `accepted` is what send() took from its callers, `lost` what a
    fault of the peer made it drop, and `kept` the messages that were not dropped.
   */
  datatype Conn = Conn(
    state: State,
    writing: bool,
    output: bytes,
    sent: bytes,
    shuts: nat,
    closing: nat,
    accepted: bytes,
    kept: bytes,
    lost: nat)

  const FRESH := Conn(Connecting, false, [], [], 0, 0, [], [], 0)

  predicate IsFault(k: Kernel) {
    k.Failed? && (k.errno.EPIPE? || k.errno.ECONNRESET?)
  }

  /** A kernel takes at most what it is given. */
  predicate Possible(k: Kernel, len: nat) {
    k.Wrote? ==> k.n <= len
  }

  // ---------- The operations ----------

  predicate TriesDirectly(c: Conn) {
    !c.writing && c.output == []
  }

  /** sendInLoop, where the kernel answers `k` if it is asked. */
  function AfterSendInLoop(c: Conn, data: bytes, k: Kernel): Conn
    requires Possible(k, |data|)
  {
    if c.state.Disconnected? then c
    else
      var direct := TriesDirectly(c);
      var n := if direct && k.Wrote? then k.n else 0;
      if (direct && IsFault(k)) || n == |data| then c.(sent := c.sent + data[..n])
      else c.(sent := c.sent + data[..n], output := c.output + data[n..], writing := true)
  }

  /** The history of a message that send() accepts. */
  function Recorded(c: Conn, data: bytes, k: Kernel): Conn {
    if TriesDirectly(c) && IsFault(k) then c.(accepted := c.accepted + data, lost := c.lost + |data|)
    else c.(accepted := c.accepted + data, kept := c.kept + data)
  }

  function AfterSend(c: Conn, data: bytes, k: Kernel): Conn
    requires Possible(k, |data|)
  {
    if c.state.Connected? then AfterSendInLoop(Recorded(c, data, k), data, k) else c
  }

  function AfterShutdownInLoop(c: Conn): Conn {
    if c.writing then c else c.(shuts := c.shuts + 1)
  }

  function AfterShutdown(c: Conn): Conn {
    if c.state.Connected? then AfterShutdownInLoop(c.(state := Disconnecting)) else c
  }

  function AfterHandleWrite(c: Conn, k: Kernel): Conn
    requires Possible(k, |c.output|)
  {
    if !c.writing || k.Failed? || k.n == 0 then c
    else
      var d := c.(sent := c.sent + c.output[..k.n], output := c.output[k.n..]);
      if d.output != [] then d
      else if d.state.Disconnecting? then AfterShutdownInLoop(d.(writing := false))
      else d.(writing := false)
  }

  function AfterHandleClose(c: Conn): Conn {
    c.(state := Disconnected, writing := false)
  }

  function AfterForceClose(c: Conn): Conn {
    if c.state.Connected? || c.state.Disconnecting? then c.(state := Disconnecting, closing := c.closing + 1) else c
  }

  function AfterForceCloseInLoop(c: Conn): Conn
    requires c.closing > 0
  {
    var d := c.(closing := c.closing - 1);
    if c.state.Connected? || c.state.Disconnecting? then AfterHandleClose(d) else d
  }

  function AfterDestroyed(c: Conn): Conn {
    if c.state.Connected? then AfterHandleClose(c) else c
  }

  // ---------- Runs ----------

  datatype Step =
    | Established
    | Send(data: bytes, k: Kernel)
    | Shutdown
    | HandleWrite(k: Kernel)
    | HandleClose
    | ForceClose
    | ForceCloseInLoop
    | Destroyed

  predicate Enabled(c: Conn, step: Step) {
    match step
    case Established => c.state.Connecting?
    case Send(data, k) => Possible(k, |data|)
    case HandleWrite(k) => Possible(k, |c.output|)
    case HandleClose => c.state.Connected? || c.state.Disconnecting?
    case ForceCloseInLoop => c.closing > 0
    case _ => true
  }

  function Next(c: Conn, step: Step): Conn
    requires Enabled(c, step)
  {
    match step
    case Established => c.(state := Connected)
    case Send(data, k) => AfterSend(c, data, k)
    case Shutdown => AfterShutdown(c)
    case HandleWrite(k) => AfterHandleWrite(c, k)
    case HandleClose => AfterHandleClose(c)
    case ForceClose => AfterForceClose(c)
    case ForceCloseInLoop => AfterForceCloseInLoop(c)
    case Destroyed => AfterDestroyed(c)
  }

  predicate LegalRun(c: Conn, steps: seq<Step>)
    decreases |steps|
  {
    steps == [] || (Enabled(c, steps[0]) && LegalRun(Next(c, steps[0]), steps[1..]))
  }

  function Run(c: Conn, steps: seq<Step>): Conn
    requires LegalRun(c, steps)
    decreases |steps|
  {
    if steps == [] then c else Run(Next(c, steps[0]), steps[1..])
  }

  /** The part of the log that can be read off the steps alone: what was given to send() while connected. */
  function Given(c: Conn, steps: seq<Step>): bytes
    requires LegalRun(c, steps)
    decreases |steps|
  {
    if steps == [] then []
    else
      (if steps[0].Send? && c.state.Connected? then steps[0].data else []) + Given(Next(c, steps[0]), steps[1..])
  }

  // ---------- Conservation ----------

  ghost predicate Inv(c: Conn) {
    && c.sent + c.output == c.kept
    && |c.kept| + c.lost == |c.accepted| && (c.lost == 0 ==> c.kept == c.accepted)
    && (!c.state.Disconnected? ==> (c.writing <==> c.output != []))
    && (c.state.Disconnected? ==> !c.writing)
    && c.shuts <= 1
    && (c.shuts == 1 ==> c.output == [] && (c.state.Disconnecting? || c.state.Disconnected?))
    && (c.state.Connecting? ==> c.accepted == [])
    && (c.state.Disconnecting? ==> c.shuts == 1 || c.writing || c.closing > 0)
  }

  /** A message that meets an empty buffer: the kernel's part and the rest make it up. */
  lemma DirectSendKeepsInv(c: Conn, data: bytes, k: Kernel)
    requires Inv(c) && c.state.Connected? && TriesDirectly(c) && Possible(k, |data|)
    ensures Inv(AfterSend(c, data, k))
  {
    var n := if k.Wrote? then k.n else 0;
    var r := AfterSend(c, data, k);
    if IsFault(k) {
      assert r.sent + r.output == c.sent + c.output;
    } else {
      assert r.sent + r.output == c.sent + c.output + data;
    }
  }

  /** A message that meets a waiting buffer goes behind it. */
  lemma BufferedSendKeepsInv(c: Conn, data: bytes, k: Kernel)
    requires Inv(c) && c.state.Connected? && !TriesDirectly(c) && Possible(k, |data|)
    ensures Inv(AfterSend(c, data, k))
  {
    var r := AfterSend(c, data, k);
    assert r.output == c.output + data;
    assert r.sent + r.output == c.sent + c.output + data;
  }

  lemma SendKeepsInv(c: Conn, data: bytes, k: Kernel)
    requires Inv(c) && Possible(k, |data|)
    ensures Inv(AfterSend(c, data, k))
  {
    if c.state.Connected? {
      if TriesDirectly(c) {
        DirectSendKeepsInv(c, data, k);
      } else {
        BufferedSendKeepsInv(c, data, k);
      }
    }
  }

  lemma HandleWriteKeepsInv(c: Conn, k: Kernel)
    requires Inv(c) && Possible(k, |c.output|)
    ensures Inv(AfterHandleWrite(c, k))
  {
    if c.writing && k.Wrote? && k.n > 0 {
      assert c.output == c.output[..k.n] + c.output[k.n..];
      assert (c.sent + c.output[..k.n]) + c.output[k.n..] == c.sent + c.output;
    }
  }

  /** What every step keeps, whatever part of a write the kernel takes and whatever error it reports. */
  lemma StepKeepsInv(c: Conn, step: Step)
    requires Inv(c) && Enabled(c, step)
    ensures Inv(Next(c, step))
    ensures c.shuts == 1 ==> Next(c, step).sent == c.sent && Next(c, step).accepted == c.accepted
  {
    match step
    case Send(data, k) => SendKeepsInv(c, data, k);
    case HandleWrite(k) => HandleWriteKeepsInv(c, k);
    case _ =>
  }

  lemma {:induction false} RunKeepsInv(c: Conn, steps: seq<Step>)
    requires Inv(c) && LegalRun(c, steps)
    ensures Inv(Run(c, steps))
    ensures c.shuts == 1 ==> Run(c, steps).sent == c.sent && Run(c, steps).accepted == c.accepted
    decreases |steps|
  {
    if steps == [] {
    } else {
      StepKeepsInv(c, steps[0]);
      RunKeepsInv(Next(c, steps[0]), steps[1..]);
    }
  }

  lemma StepAccepts(c: Conn, step: Step)
    requires Enabled(c, step)
    ensures Next(c, step).accepted == c.accepted + if step.Send? && c.state.Connected? then step.data else []
  {
  }

  /** What counts as accepted is what the callers gave to send() while the connection was up. */
  lemma {:induction false} AcceptedIsGiven(c: Conn, steps: seq<Step>)
    requires LegalRun(c, steps)
    ensures Run(c, steps).accepted == c.accepted + Given(c, steps)
    decreases |steps|
  {
    if steps == [] {
    } else {
      StepAccepts(c, steps[0]);
      AcceptedIsGiven(Next(c, steps[0]), steps[1..]);
    }
  }

  /** A non-empty message is written at once, and the kernel answers EPIPE or ECONNRESET. */
  predicate LosesMessage(c: Conn, step: Step) {
    && step.Send? && c.state.Connected? && !c.writing && c.output == [] && step.data != []
    && (step.k == Failed(EPIPE) || step.k == Failed(ECONNRESET))
  }

  /** No non-empty message met a broken peer. */
  predicate NoFault(c: Conn, steps: seq<Step>)
    requires LegalRun(c, steps)
    decreases |steps|
  {
    steps == [] || (!LosesMessage(c, steps[0]) && NoFault(Next(c, steps[0]), steps[1..]))
  }

  lemma {:induction false} LossNeedsFault(c: Conn, steps: seq<Step>)
    requires Inv(c) && LegalRun(c, steps)
    ensures Run(c, steps).lost >= c.lost
    ensures Run(c, steps).lost == c.lost <==> NoFault(c, steps)
    decreases |steps|
  {
    if steps == [] {
    } else {
      StepKeepsInv(c, steps[0]);
      LossNeedsFault(Next(c, steps[0]), steps[1..]);
    }
  }

  /**
    Output conservation: what the kernel took followed by the output buffer is everything
    that send() accepted, exactly when no message met EPIPE or ECONNRESET.
   */
  lemma OutputIsConserved(steps: seq<Step>)
    requires LegalRun(FRESH, steps)
    ensures var c := Run(FRESH, steps);
            c.sent + c.output == Given(FRESH, steps) <==> NoFault(FRESH, steps)
    ensures var c := Run(FRESH, steps);
            !c.state.Disconnected? ==> (c.writing <==> c.output != [])
  {
    RunKeepsInv(FRESH, steps);
    AcceptedIsGiven(FRESH, steps);
    LossNeedsFault(FRESH, steps);
  }

  /** SHUT_WR comes at most once, after every accepted byte, and no byte follows it. */
  lemma ShutdownIsLast(before: seq<Step>, after: seq<Step>)
    requires LegalRun(FRESH, before) && NoFault(FRESH, before) && LegalRun(Run(FRESH, before), after)
    ensures var c := Run(FRESH, before); var d := Run(c, after);
            && c.shuts <= 1 && d.shuts <= 1
            && (c.shuts == 1 ==> c.sent == Given(FRESH, before) && d.sent == c.sent && Given(c, after) == [])
  {
    RunKeepsInv(FRESH, before);
    AcceptedIsGiven(FRESH, before);
    LossNeedsFault(FRESH, before);
    var c := Run(FRESH, before);
    RunKeepsInv(c, after);
    AcceptedIsGiven(c, after);
    if c.shuts == 1 {
      assert c.sent + c.output == c.sent;
      assert |Given(c, after)| == 0;
    }
  }

  // ---------- When the kernel is asked, and for what ----------

  /** The bytes that the kernel takes in a step: of a message that nothing is in front of, or of the output. */
  function TakenIn(c: Conn, step: Step): nat {
    match step
    case Send(_, Wrote(n)) => if c.state.Connected? && !c.writing && c.output == [] then n else 0
    case HandleWrite(Wrote(n)) => if c.writing then n else 0
    case _ => 0
  }

  function TakenInAll(c: Conn, steps: seq<Step>): nat
    requires LegalRun(c, steps)
    decreases |steps|
  {
    if steps == [] then 0 else TakenIn(c, steps[0]) + TakenInAll(Next(c, steps[0]), steps[1..])
  }

  /** A message is tried at once when nothing waits, and a writable event tries what waits. */
  lemma {:induction false} SentIsWhatTheKernelTook(c: Conn, steps: seq<Step>)
    requires Inv(c) && LegalRun(c, steps)
    ensures |Run(c, steps).sent| == |c.sent| + TakenInAll(c, steps)
    decreases |steps|
  {
    if steps == [] {
    } else {
      StepKeepsInv(c, steps[0]);
      SentIsWhatTheKernelTook(Next(c, steps[0]), steps[1..]);
    }
  }

  // ---------- Shutting down and closing ----------

  /** Shutting down a connection that is up stops further sends, and is done at once if nothing waits. */
  lemma ShutdownTakesEffect(c: Conn)
    requires Inv(c) && c.state.Connected?
    ensures var d := Next(c, Step.Shutdown);
            && d == c.(state := Disconnecting, shuts := if c.output == [] then 1 else 0)
            && (forall data, k | Possible(k, |data|) :: Next(d, Step.Send(data, k)) == d)
  {
  }

  /** Messages are taken from the moment the connection is established, and only while it is up. */
  lemma EstablishedTakesMessages(c: Conn, data: bytes, k: Kernel)
    requires Possible(k, |data|)
    ensures c.state.Connecting? ==> Given(c, [Established, Step.Send(data, k)]) == data
    ensures !c.state.Connected? ==> Next(c, Step.Send(data, k)) == c
  {
    var steps := [Established, Step.Send(data, k)];
    if c.state.Connecting? {
      assert steps[1..] == [Step.Send(data, k)] && steps[1..][1..] == [];
      var d := Next(c, Established);
      assert LegalRun(Next(d, steps[1]), []) && LegalRun(d, steps[1..]);
      assert Given(d, steps[1..]) == data + Given(Next(d, steps[1]), []);
    }
  }

  /** In any other state it does nothing. */
  lemma ShutdownIsOnlyForConnected(c: Conn)
    requires !c.state.Connected?
    ensures Next(c, Step.Shutdown) == c
  {
  }

  /** The bytes that the kernel takes in a run of writable events. */
  function Taken(steps: seq<Step>): nat
    requires forall step <- steps :: step.HandleWrite?
  {
    if steps == [] then 0 else (if steps[0].k.Wrote? then steps[0].k.n else 0) + Taken(steps[1..])
  }

  /** A pending shutdown is not forgotten: SHUT_WR happens as soon as the kernel has taken the last byte. */
  lemma {:induction false} DrainEndsInShutdown(c: Conn, steps: seq<Step>)
    requires Inv(c) && c.state.Disconnecting? && c.writing
    requires LegalRun(c, steps) && forall step <- steps :: step.HandleWrite?
    ensures var d := Run(c, steps);
            && |d.output| == |c.output| - Taken(steps)
            && (d.shuts == 1 <==> Taken(steps) == |c.output|)
            && (d.shuts == 1 ==> d.sent == c.kept)
    decreases |steps|
  {
    if steps == [] {
    } else {
      assert steps[0] in steps;
      var d, k := Next(c, steps[0]), steps[0].k;
      StepKeepsInv(c, steps[0]);
      assert |d.output| == |c.output| - if k.Wrote? then k.n else 0;
      if d.writing {
        DrainEndsInShutdown(d, steps[1..]);
      } else {
        assert d.sent + d.output == d.sent;
        NothingToDrain(d, steps[1..]);
      }
    }
  }

  lemma {:induction false} NothingToDrain(c: Conn, steps: seq<Step>)
    requires Inv(c) && !c.writing && c.output == []
    requires LegalRun(c, steps) && forall step <- steps :: step.HandleWrite?
    ensures Run(c, steps) == c && Taken(steps) == 0
    decreases |steps|
  {
    if steps == [] {
    } else {
      NothingToDrain(c, steps[1..]);
    }
  }

  /** From the call itself: SHUT_WR has happened exactly when the kernel has taken all that was waiting. */
  lemma ShutdownFollowsLastByte(c: Conn, steps: seq<Step>)
    requires Inv(c) && c.state.Connected? && LegalRun(c, [Shutdown] + steps)
    requires forall step <- steps :: step.HandleWrite?
    ensures var d := Run(c, [Shutdown] + steps);
            && d.state.Disconnecting? && d.shuts <= 1
            && (d.shuts == 1 <==> Taken(steps) == |c.output|)
            && (d.shuts == 1 ==> d.sent == c.kept)
  {
    var d, all := Next(c, Shutdown), [Shutdown] + steps;
    assert all[1..] == steps;
    StepKeepsInv(c, Shutdown);
    ShutdownTakesEffect(c);
    RunKeepsInv(d, steps);
    WritesKeepState(d, steps);
    if d.writing {
      DrainEndsInShutdown(d, steps);
    } else {
      NothingToDrain(d, steps);
      assert d.sent + d.output == d.sent;
    }
  }

  lemma {:induction false} WritesKeepState(c: Conn, steps: seq<Step>)
    requires LegalRun(c, steps) && forall step <- steps :: step.HandleWrite?
    ensures Run(c, steps).state == c.state
    decreases |steps|
  {
    if steps == [] {
    } else {
      assert steps[0] in steps && forall step <- steps[1..] :: step in steps;
      WritesKeepState(Next(c, steps[0]), steps[1..]);
    }
  }

  /** Steps that close a connection, or ask for it. */
  predicate Closes(step: Step) {
    step.HandleClose? || step.ForceClose? || step.ForceCloseInLoop? || step.Destroyed?
  }

  /** Once it has begun and nobody closes, the shutdown is pending or done. */
  ghost predicate ShuttingDown(c: Conn) {
    c.state.Disconnecting? && (c.shuts == 1 <==> c.output == [])
  }

  lemma {:induction false} ShutdownStays(c: Conn, steps: seq<Step>)
    requires Inv(c) && ShuttingDown(c) && LegalRun(c, steps) && forall step <- steps :: !Closes(step)
    ensures ShuttingDown(Run(c, steps))
    decreases |steps|
  {
    if steps == [] {
    } else {
      assert steps[0] in steps && forall step <- steps[1..] :: step in steps;
      StepKeepsInv(c, steps[0]);
      ShutdownStays(Next(c, steps[0]), steps[1..]);
    }
  }

  /** In every run in which a connection that is up is shut down and not closed, SHUT_WR comes with the last byte. */
  lemma {:induction false} ShutdownHappens(c: Conn, steps: seq<Step>, i: nat)
    requires Inv(c) && LegalRun(c, steps) && forall step <- steps :: !Closes(step)
    requires i < |steps| && steps[i] == Shutdown && StateAt(c, steps, i).state.Connected?
    ensures ShuttingDown(Run(c, steps))
    decreases |steps|
  {
    assert steps[0] in steps && forall step <- steps[1..] :: step in steps;
    StepKeepsInv(c, steps[0]);
    if i == 0 {
      ShutdownTakesEffect(c);
      ShutdownStays(Next(c, steps[0]), steps[1..]);
    } else {
      ShutdownHappens(Next(c, steps[0]), steps[1..], i - 1);
    }
  }

  /** The connection in front of step `i` of a run. */
  function StateAt(c: Conn, steps: seq<Step>, i: nat): Conn
    requires LegalRun(c, steps) && i <= |steps|
    decreases |steps|
  {
    if i == 0 then c else StateAt(Next(c, steps[0]), steps[1..], i - 1)
  }

  /** A forced close takes sends away at once and closes the connection when the loop comes to it. */
  lemma ForceCloseCloses(c: Conn)
    requires Inv(c) && (c.state.Connected? || c.state.Disconnecting?)
    ensures var d := Next(c, ForceClose);
            && d == c.(state := Disconnecting, closing := c.closing + 1)
            && Enabled(d, ForceCloseInLoop)
            && Next(d, ForceCloseInLoop) == c.(state := Disconnected, writing := false)
  {
  }

  /** Whoever closes a connection, it takes no more messages and asks the kernel for nothing. */
  lemma ClosedIsFinal(c: Conn, step: Step)
    requires Inv(c) && Enabled(c, step)
    ensures (step.HandleClose? || (step.Destroyed? && c.state.Connected?)) ==> Next(c, step).state.Disconnected?
    ensures c.state.Disconnected? ==>
              var d := Next(c, step);
              d == c.(closing := d.closing) && d.state.Disconnected? && !d.writing
  {
  }

  // ---------- The class ----------

  class Connection {
    var state: State
    var writing: bool
    const outputBuffer: Buffer.Buffer
    ghost var sent: bytes
    ghost var shuts: nat
    ghost var closing: nat
    ghost var accepted: bytes
    ghost var kept: bytes
    ghost var lost: nat

    ghost predicate Valid()
      reads this, outputBuffer
    {
      outputBuffer.Valid()
    }

    ghost function Abs(): Conn
      reads this, outputBuffer
      requires Valid()
    {
      Conn(state, writing, outputBuffer.Contents(), sent, shuts, closing, accepted, kept, lost)
    }

    constructor ()
      ensures Valid() && Abs() == FRESH && fresh(outputBuffer)
    {
      state, writing := Connecting, false;
      sent, shuts, closing, accepted, kept, lost := [], 0, 0, [], [], 0;
      outputBuffer := new Buffer.Buffer();
    }

    method ConnectEstablished()
      requires Valid() && state.Connecting?
      modifies `state
      ensures Valid() && Abs() == Next(old(Abs()), Established)
    {
      state := Connected;
    }

    method SendInLoop(data: bytes, k: Kernel)
      requires Valid() && Possible(k, |data|)
      modifies this, outputBuffer
      ensures Valid() && Abs() == AfterSendInLoop(old(Abs()), data, k)
    {
      if state.Disconnected? {
        return;
      }
      var nwrote, remaining, faultError := 0, |data|, false;
      if !writing && outputBuffer.ReadableBytes() == 0 {
        match k {
          case Wrote(n) =>
            nwrote := n;
            remaining := |data| - nwrote;
            sent := sent + data[..n];
          case Failed(errno) =>
            faultError := !errno.EWOULDBLOCK? && (errno.EPIPE? || errno.ECONNRESET?);
        }
      }
      if !faultError && remaining > 0 {
        outputBuffer.Append(data[nwrote..]);
        if !writing {
          writing := true;
        }
      }
    }

    method Send(data: bytes, k: Kernel)
      requires Valid() && Possible(k, |data|)
      modifies this, outputBuffer
      ensures Valid() && Abs() == AfterSend(old(Abs()), data, k)
    {
      if state.Connected? {
        ghost var r := Recorded(Abs(), data, k);
        accepted, kept, lost := r.accepted, r.kept, r.lost;
        SendInLoop(data, k);
      }
    }

    /** send(Buffer*): the argument is emptied if and only if its bytes were accepted. */
    method SendBuffer(buf: Buffer.Buffer, k: Kernel)
      requires Valid() && buf != outputBuffer && buf.Valid() && Possible(k, |buf.Contents()|)
      modifies this, outputBuffer, buf
      ensures Valid() && Abs() == AfterSend(old(Abs()), old(buf.Contents()), k)
      ensures buf.Valid() && buf.Contents() == if old(state).Connected? then [] else old(buf.Contents())
    {
      if state.Connected? {
        Send(buf.Contents(), k);
        buf.RetrieveAll();
      }
    }

    method ShutdownInLoop()
      requires Valid()
      modifies `shuts
      ensures Abs() == AfterShutdownInLoop(old(Abs()))
    {
      if !writing {
        shuts := shuts + 1;
      }
    }

    method Shutdown()
      requires Valid()
      modifies `state, `shuts
      ensures Abs() == AfterShutdown(old(Abs()))
    {
      if state.Connected? {
        state := Disconnecting;
        ShutdownInLoop();
      }
    }

    method HandleWrite(k: Kernel)
      requires Valid() && Possible(k, outputBuffer.ReadableBytes())
      modifies this, outputBuffer
      ensures Valid() && Abs() == AfterHandleWrite(old(Abs()), k)
    {
      if writing && k.Wrote? && k.n > 0 {
        sent := sent + outputBuffer.Contents()[..k.n];
        outputBuffer.Retrieve(k.n);
        if outputBuffer.ReadableBytes() == 0 {
          writing := false;
          if state.Disconnecting? {
            ShutdownInLoop();
          }
        }
      }
    }

    method HandleClose()
      requires Valid() && (state.Connected? || state.Disconnecting?)
      modifies `state, `writing
      ensures Abs() == AfterHandleClose(old(Abs()))
    {
      state := Disconnected;
      writing := false;
    }

    method ForceClose()
      requires Valid()
      modifies `state, `closing
      ensures Abs() == AfterForceClose(old(Abs()))
    {
      if state.Connected? || state.Disconnecting? {
        state := Disconnecting;
        closing := closing + 1;
      }
    }

    method ForceCloseInLoop()
      requires Valid() && closing > 0
      modifies `state, `writing, `closing
      ensures Abs() == AfterForceCloseInLoop(old(Abs()))
    {
      closing := closing - 1;
      if state.Connected? || state.Disconnecting? {
        HandleClose();
      }
    }

    method ConnectDestroyed()
      requires Valid()
      modifies `state, `writing
      ensures Abs() == AfterDestroyed(old(Abs()))
    {
      if state.Connected? {
        state := Disconnected;
        writing := false;
      }
    }

    /** One event of the loop thread. */
    method Perform(step: Step)
      requires Valid() && Enabled(Abs(), step)
      modifies this, outputBuffer
      ensures Valid() && Abs() == Next(old(Abs()), step)
    {
      match step
      case Established => ConnectEstablished();
      case Send(data, k) => Send(data, k);
      case Shutdown => Shutdown();
      case HandleWrite(k) => HandleWrite(k);
      case HandleClose => HandleClose();
      case ForceClose => ForceClose();
      case ForceCloseInLoop => ForceCloseInLoop();
      case Destroyed => ConnectDestroyed();
    }

    /** Every run of the loop thread's events on a real buffer conserves the output. */
    method PerformAll(steps: seq<Step>)
      requires Valid() && Abs() == FRESH && LegalRun(FRESH, steps)
      modifies this, outputBuffer
      ensures Valid() && Abs() == Run(FRESH, steps)
      ensures sent + outputBuffer.Contents() == Given(FRESH, steps) <==> NoFault(FRESH, steps)
      ensures shuts <= 1 && (shuts == 1 && NoFault(FRESH, steps) ==> sent == Given(FRESH, steps))
      ensures forall i | 0 <= i < |steps| && steps[i] == Step.Shutdown && StateAt(FRESH, steps, i).state.Connected? ::
                (forall step <- steps :: !Closes(step)) ==> (shuts == 1 <==> outputBuffer.Contents() == [])
    {
      for i := 0 to |steps|
        invariant Valid() && LegalRun(Abs(), steps[i..]) && Run(Abs(), steps[i..]) == Run(FRESH, steps)
      {
        assert steps[i..][1..] == steps[i + 1..];
        Perform(steps[i]);
      }
      OutputIsConserved(steps);
      RunKeepsInv(FRESH, steps);
      if shuts == 1 {
        assert sent + outputBuffer.Contents() == sent;
      }
      forall i | 0 <= i < |steps| && steps[i] == Step.Shutdown && StateAt(FRESH, steps, i).state.Connected?
        ensures (forall step <- steps :: !Closes(step)) ==> (shuts == 1 <==> outputBuffer.Contents() == [])
      {
        if forall step <- steps :: !Closes(step) {
          ShutdownHappens(FRESH, steps, i);
        }
      }
    }
  }
}
