# Verified model of the FastCGI servers and their runtimes

Two FastCGI servers share this repository: `cocgi` runs requests in coroutines
on libco, `mucgi` runs them on the reactor of muduo. This project models the
parts of both on which everything else rests, in Dafny, and proves what they
promise over every input and every run:

| file | what it models |
|---|---|
| `SharedStack.dfy` | context switches between coroutines that share stack memory |
| `IntrusiveList.dfy` | the doubly linked lists that hold waits |
| `TimingWheel.dfy`, `LinkedWheel.dfy` | the timing wheel, as values and over the linked lists |
| `CoEventLoop.dfy` | `co_poll_inner` and `co_eventloop` as a state machine |
| `CoScheduler.dfy` | the same loop over the linked wheel and lists, step by step a run of that machine |
| `Bytes.dfy`, `Buffer.dfy` | network byte order and muduo's `Buffer` |
| `FastCgiWire.dfy`, `FastCgiCodec.dfy`, `FastCgiResponse.dfy` | records as sections 3.3, 3.4, 5.1, 5.2, 5.3 and 5.5 of the FastCGI Specification 1.0 define them, the incremental parser, the response writer |
| `EventLoop.dfy` | the functor queue and the eventfd, with any number of threads |
| `TimerQueue.dfy` | timers with two indexes, re-entrant cancel and the timerfd |
| `TcpConnection.dfy` | the output path of a connection |
| `EPollPoller.dfy` | channel registration against the kernel's interest set |
| `UrlForm.dfy`, `StringSearch.dfy`, `MultipartHeader.dfy`, `Multipart.dfy` | the two form parsers of cgicc |
| `Calendar.dfy` | Julian day numbers and UTC time |

`dafny verify dfyconfig.toml` checks the whole project.

## How it is built

Code that updates state in place is a class whose methods are proved against a
function on values (`State()`, `Abs()` or `Contents()` gives the value); the
laws are lemmas about those functions and about runs of them. Protocols that
several threads or callbacks drive are state machines: `Step` lists the moves,
`Enabled` what the code asserts of its callers, `Next` the effect, and the
invariants are proved for every run. Kernel results, clock readings, addresses
from the allocator and the behaviour of callbacks are arbitrary inputs.

## What the proofs turned up

* `TakeAllTimeout` counts slots in a 32-bit `int`. For a given gap and size it
  is exact on every wheel if and only if that count is complete
  (`TakeIsExactIffCountIsComplete`); for every other gap, a negative or a zero
  count included, `IncompleteCountMissesEntry` gives a wheel whose due entry is
  missed. A count of zero also files every entry one slot later, counted from
  the new origin (`ZeroCountShiftsEverything`), and with llStartIdx at zero it leaves the index
  -1, with which the next call reads outside the array (`LostIndexIsOutside`).
* The calendar conversions invert each other on a date if and only if it is not
  before 1 March -4800 (`RoundTripIffInRange`). `tm_wday` is in range if and only
  if the truncating remainder is not negative (`WeekDayInRange`).
* The timer queue loses no timer even if expirations are zero or negative: that
  the clock which `handleRead` reads is after the epoch is enough.
* A cancel is lost if and only if it overtakes its timer: when `cancelInLoop` runs
  while the timer's `addTimerInLoop` is still queued, the timer is then added as
  if nobody had cancelled it (`OvertakingCancelIsLost`). In every other case no
  later run has the timer scheduled again (`CancelHoldsIffTimerHasArrived`).
* `TcpConnection` conserves its output if and only if no non-empty message meets
  `EPIPE` or `ECONNRESET` (`OutputIsConserved`).
* A rendered multipart body comes back as it was sent if and only if some
  character of the boundary is not a dash. With a boundary of dashes only, the
  parser returns the same form with a line end appended to its last value
  (`RoundTripIffGoodBoundary`).
* `disableAll` on a channel whose index is `kDeleted` or `kNew` registers it
  with an empty mask; the invariant of `EPollPoller` covers that.

## Model

| member | source | states |
|---|---|---|
| `SharedStack.Env.SaveStackBuffer` | cocgi/libco/co_routine.cpp:582-597 | the copy loop puts the occupant's bytes from stack_sp to the stack's end into its save buffer, and changes nothing else |
| `SharedStack.RestoreInvertsSave` | cocgi/libco/co_routine.cpp:582-642 | whatever becomes of the memory after a save, the copy back restores the bytes from stack_sp on and leaves those below alone |
| `SharedStack.Env.RestoreStackBuffer` | cocgi/libco/co_routine.cpp:635-642 | the copy back changes exactly the bytes from stack_sp on |
| `SharedStack.Env.Occupy` | cocgi/libco/co_routine.cpp:607-625 | the pending coroutine takes over its memory, and a displaced occupant still has its frames, now in its save buffer |
| `SharedStack.Env.EndSwap` | cocgi/libco/co_routine.cpp:630-643 | after the restore the running coroutine finds its own frames in place and every other coroutine keeps its own |
| `SharedStack.Env.CoSwap` | cocgi/libco/co_routine.cpp:599-643 | a whole switch keeps every suspended coroutine's frames and leaves the target with exactly the frames it was suspended with |
| `SharedStack.Env.CoResume` | cocgi/libco/co_routine.cpp:547-560 | a resume is one step of the machine with private stacks |
| `SharedStack.Env.CoYield` | cocgi/libco/co_routine.cpp:561-570 | a yield is one step of the machine with private stacks |
| `SharedStack.Env.FinishAndYield` | cocgi/libco/co_routine.cpp:444-457 | a coroutine whose function returns is marked ended and yields, as in the private machine |
| `SharedStack.Env.Run` | cocgi/libco/co_routine.cpp:547-643 | in every legal run over any sharing of memories, each switch finds on the target's stack exactly what it would find on a private one |
| `SharedStack.FindsWhatItLeft` | cocgi/libco/co_routine.cpp:547-643 | what a coroutine finds at a switch to it is the bytes from its stack pointer to its stack's end at the switch at which it last ran |
| `SharedStack.FirstRunFindsNothing` | cocgi/libco/co_routine.cpp:547-560 | a coroutine that has never run finds nothing |
| `SharedStack.FinishedNeverRunsAgain` | cocgi/libco/co_routine.cpp:444-457 | in a run that resumes no ended coroutine, one whose function has returned never gets control again, by a yield of another either |
| `IntrusiveList.ListsAreDisjoint` | cocgi/libco/co_routine.cpp:151-211 | two different well-formed lists have no node in common, because pLink names one owner |
| `IntrusiveList.AddTail` | cocgi/libco/co_routine.cpp:191-211 | appends a free node and leaves an owned one where it is; links, ends and owner stay consistent |
| `IntrusiveList.PopHead` | cocgi/libco/co_routine.cpp:212-236 | drops the first node, which becomes free; an empty list stays empty |
| `IntrusiveList.RemoveFromLink` | cocgi/libco/co_routine.cpp:151-189 | deletes one node from the list that owns it, wherever it stands; a free node is left alone |
| `IntrusiveList.Join` | cocgi/libco/co_routine.cpp:238-266 | concatenates the other list and empties it, with every moved node owned by the first |
| `TimingWheel.AddTimeoutRefinesQueue` | cocgi/libco/co_routine.cpp:378-412 | refuses exactly past deadlines and clocks before the origin; otherwise the entry is due at its deadline or at the last tick that the wheel reaches, behind all entries due by then |
| `TimingWheel.TakeAllTimeoutRefinesQueue` | cocgi/libco/co_routine.cpp:413-443 | exactly the due entries come out, in due order and FIFO within a tick, and all others keep their due ticks; wraparound, clock steps back and long gaps included |
| `TimingWheel.ExpiredAndWaiting` | cocgi/libco/co_routine.cpp:413-443 | the two parts are what is due by now and what is not, and together the whole queue |
| `TimingWheel.IncompleteCountMissesEntry` | cocgi/libco/co_routine.cpp:425-438 | for every gap whose 32-bit count is negative, zero or too small there is a wheel whose due entry is missed |
| `TimingWheel.TakeIsExactIffCountIsComplete` | cocgi/libco/co_routine.cpp:413-443 | a take is exact on every wheel of a size if and only if its count is complete |
| `TimingWheel.ZeroCountShiftsEverything` | cocgi/libco/co_routine.cpp:430-440 | a count of zero takes nothing and moves every entry one slot on, counted from the new origin |
| `TimingWheel.LostIndexIsOutside` | cocgi/libco/co_routine.cpp:434-440 | a count of zero at index zero leaves llStartIdx at -1, and the next call computes slot -1 |
| `TimingWheel.SlotIsInjective` | cocgi/libco/co_routine.cpp:409-437 | different offsets below the size reach different slots, wherever llStartIdx stands |
| `TimingWheel.CIndexIsSlot` | cocgi/libco/co_routine.cpp:436 | while llStartIdx is not negative, C's remainder computes the slot that the model uses |
| `LinkedWheel.Timeout.AddTimeout` | cocgi/libco/co_routine.cpp:378-412 | on the linked lists, computes the value-level operation, refusals included; a node that is on a list stays there, with the same result |
| `LinkedWheel.Timeout.Remove` | cocgi/libco/co_routine.cpp:151-189 | takes one node off the middle of a slot and leaves every other list alone |
| `LinkedWheel.Timeout.TakeAllTimeout` | cocgi/libco/co_routine.cpp:413-443 | on the linked lists, computes the value-level operation for every clock reading; the taken nodes follow what the result list held |
| `LinkedWheel.Timeout.DrainSlots` | cocgi/libco/co_routine.cpp:434-438 | the loop of Joins moves the first slots in due order and empties them |
| `CoEventLoop.StepKeepsInv` | cocgi/libco/co_routine.cpp:736-833 | every move keeps each wait in exactly one place, and its flags true to why it is there |
| `CoEventLoop.RunKeepsInv` | cocgi/libco/co_routine.cpp:736-833 | in every run a wait is on one list until resumed, is resumed exactly once, and a resumption without an event is not before its deadline |
| `CoEventLoop.InitialInv` | cocgi/libco/co_routine.cpp:841-853 | a new loop satisfies the invariant |
| `CoEventLoop.EarlyWaitIsReparked` | cocgi/libco/co_routine.cpp:807-816 | a wait longer than the wheel is always parked again successfully |
| `CoEventLoop.LoopIsNeverStuck` | cocgi/libco/co_routine.cpp:789-823 | in every reachable state the loop can take its next step, for every clock reading except one that makes a wheel at index zero count zero slots |
| `CoEventLoop.ReachedIsSound` | cocgi/libco/co_routine.cpp:757-833 | every state that a run from a new loop reaches on a countable clock satisfies both invariants |
| `CoEventLoop.RunKeepsDue` | cocgi/libco/co_routine.cpp:757-833 | in every run a slot is due no later than the deadlines of the waits in it |
| `CoEventLoop.TurnResumesEveryDueWait` | cocgi/libco/co_routine.cpp:789-823 | a turn that reads clock now resumes every wait whose deadline is up to now, the clock stepping back included |
| `CoEventLoop.TurnResumesInOrder` | cocgi/libco/co_routine.cpp:789-823 | a turn resumes the waits with events in the order of their first events and then the due waits by due tick, FIFO within a tick, and nothing else |
| `CoEventLoop.CollectedSnoc` | cocgi/libco/co_routine.cpp:736-754 | each epoll result counts one event, queues the wait behind the others if it is its first, and takes it off the wheel |
| `CoEventLoop.PollWaitsForItsTimeout` | cocgi/libco/co_routine.cpp:949-965 | over every run a poll parked at a tick with a timeout is not resumed without an event before the two together |
| `CoEventLoop.PendingIffNotResumed` | cocgi/libco/co_routine.cpp:736-833 | a wait is on some list if and only if it was parked and not resumed |
| `CoScheduler.Scheduler.CoPoll` | cocgi/libco/co_routine.cpp:881-965 | parks a new wait exactly when the timeout is not zero and the clock not before the wheel's origin, with the deadline at the tick plus the timeout, or plus INT_MAX for a negative one; otherwise nothing changes |
| `CoScheduler.Scheduler.OnPollPrepare` | cocgi/libco/co_routine.cpp:736-754 | counts the event and, the first time only, moves the node from the middle of its slot to the active list |
| `CoScheduler.Scheduler.Collect` | cocgi/libco/co_routine.cpp:775-786 | the loop over the epoll results queues exactly the waits they name, in the order of their first events, and counts the events of each |
| `CoScheduler.Scheduler.Detach` | cocgi/libco/co_routine.cpp:749 | RemoveFromLink on the linked wheel is the removal of the wait from the slots of the state machine |
| `CoScheduler.Scheduler.TakeTimeouts` | cocgi/libco/co_routine.cpp:789-800 | TakeAllTimeout, the marking loop and the Join over linked lists are one step of the state machine |
| `CoScheduler.RaisedIsAfterRaise` | cocgi/libco/co_routine.cpp:736-754 | the two parts of the handler make up the step of the state machine |
| `CoScheduler.Scheduler.MarkTimeouts` | cocgi/libco/co_routine.cpp:792-798 | sets bTimeout on exactly the taken waits |
| `CoScheduler.Scheduler.ProcessHead` | cocgi/libco/co_routine.cpp:802-823 | PopHead, then AddTimeout for an early wait or the resumption, over linked lists, is one step of the state machine |
| `CoScheduler.Scheduler.ProcessActive` | cocgi/libco/co_routine.cpp:802-823 | the loop over the active list is a run of the state machine, with arbitrary polls by resumed coroutines |
| `CoScheduler.Scheduler.WorkOff` | cocgi/libco/co_routine.cpp:789-823 | what follows the epoll results resumes the queued waits and then every due one, in order, each with its number of events |
| `CoScheduler.Scheduler.Turn` | cocgi/libco/co_routine.cpp:757-833 | one turn over the pointer structures resumes the waits with events, then every wait due by the clock, in order, each once and with its number of events, and ends in a reachable state |
| `Buffer.Buffer.constructor` | mucgi/muduo_net/Buffer.h:48-56 | an empty buffer with the stated spare room |
| `Buffer.Buffer.Retrieve` | mucgi/muduo_net/Buffer.h:113-124 | drops exactly a prefix of the readable bytes |
| `Buffer.Buffer.RetrieveAsString` | mucgi/muduo_net/Buffer.h:164-170 | returns the prefix that it drops |
| `Buffer.Buffer.MoveToFront` | mucgi/muduo_net/Buffer.h:398-407 | the overlapping forward copy keeps the readable bytes |
| `Buffer.Buffer.MakeSpace` | mucgi/muduo_net/Buffer.h:390-409 | either branch keeps the contents and makes the room; the in-place branch always meets its assertion |
| `Buffer.Buffer.Append` | mucgi/muduo_net/Buffer.h:182-187 | extends the contents by the data |
| `Buffer.Buffer.Prepend` | mucgi/muduo_net/Buffer.h:354-360 | extends the contents at the front |
| `Buffer.Buffer.Shrink` | mucgi/muduo_net/Buffer.h:362-369 | keeps the contents |
| `Buffer.Buffer.ReadFd` | mucgi/muduo_net/Buffer.cc:25-57 | appends exactly what the kernel delivered, through the overflow buffer too |
| `Buffer.Buffer.ReadInt32` | mucgi/muduo_net/Buffer.h:265-270 | gives back any integer that was appended in front |
| `Buffer.Perform` | mucgi/muduo_net/Buffer.h:113-220 | any run of operations acts on the contents as on a plain sequence, until the first that an assertion forbids |
| `Bytes.NetworkOrder16` | mucgi/muduo_net/Endian.h:41-59 | two bytes in network order: place values, and the order of numbers is that of the bytes |
| `Bytes.NetworkOrder32` | mucgi/muduo_net/Endian.h:36-54 | the same for four bytes |
| `FastCgiWire.DecodeInvertsEncode` | mucgi/fastcgi.cpp:9-19 | the record layout: every list of well-formed records decodes back from its bytes |
| `FastCgiWire.EncodeInvertsDecode` | mucgi/fastcgi.cpp:9-19 | whatever bytes decode are the encoding of the records they decode to |
| `FastCgiCodec.ParseFollowsDecode` | mucgi/fastcgi.cpp:227-264 | on every byte string parseRequest leaves nothing iff it decodes into records, and then has applied exactly these |
| `FastCgiWire.HeaderReadsBack` | mucgi/fastcgi.cpp:231-235 | the header fields of an encoded record read back, whatever follows |
| `FastCgiCodec.LengthsDoNotWrap` | mucgi/fastcgi.cpp:80-86 | the uint32 sum of two lengths never wraps and no length equals the error value |
| `FastCgiCodec.ReadLenInvertsEncodeLength` | mucgi/fastcgi.cpp:99-124 | both encodings of a length below 2^31 read back |
| `FastCgiCodec.PairsReadBack` | mucgi/fastcgi.cpp:76-97 | every list of encoded pairs parses to the last-wins map with nothing left over |
| `FastCgiCodec.PairsThenRest` | mucgi/fastcgi.cpp:76-97 | complete pairs in front of anything are stored first |
| `FastCgiCodec.TruncatedPairFails` | mucgi/fastcgi.cpp:86-94 | a pair that is not complete fails with its lengths used up |
| `FastCgiCodec.TruncatedLengthFails` | mucgi/fastcgi.cpp:99-124 | a missing or cut-off length fails and stays in the stream |
| `FastCgiCodec.RecordsThatCount` | mucgi/fastcgi.cpp:238-289 | in numbers, what each record type does, and which begin-request records and types change nothing |
| `FastCgiCodec.ParseInTwoSteps` | mucgi/fastcgi.cpp:227-264 | parsing what has arrived and then the rest is parsing it all, malformed bytes included |
| `FastCgiCodec.ChunkingIndependence` | mucgi/fastcgi.cpp:227-264 | every split of every byte stream gives the same codec state and leftover bytes |
| `FastCgiCodec.ParseRecords` | mucgi/fastcgi.cpp:227-264 | encoded records are applied one by one and nothing is left |
| `FastCgiCodec.RequestIsApplied` | mucgi/fastcgi.cpp:50-97 | any split into records with any padding yields the decoded request |
| `FastCgiCodec.PrefixIsIncomplete` | mucgi/fastcgi.cpp:64-74 | no strict prefix of a request completes it |
| `FastCgiCodec.RequestIsServedOnce` | mucgi/fastcgi.h:27-44 | for every encoding and every chunking one callback with the exact parameters and body, a shutdown iff flags is not 1, and ready again |
| `FastCgiCodec.RequestForX` | mucgi/fastcgi.h:27-44 | a small request, byte by byte, is served with its parameter, its body and its flags |
| `FastCgiCodec.RequestsAreServedInOrder` | mucgi/fastcgi.h:27-44 | any number of requests on one connection, each split over arrivals of its own, get one callback each, in order, with one shutdown for every request whose flags are not 1 |
| `FastCgiCodec.Codec.TakeLength` | mucgi/fastcgi.cpp:99-124 | readLen on the buffer, truncated input included |
| `FastCgiCodec.Codec.TakeAllParams` | mucgi/fastcgi.cpp:76-97 | the loop computes the value-level parser, failures included |
| `FastCgiCodec.Codec.HandleRecord` | mucgi/fastcgi.cpp:238-255 | the effect of one record of any kind |
| `FastCgiCodec.Codec.ParseRequest` | mucgi/fastcgi.cpp:227-264 | the loop over the buffer computes the value-level parser |
| `FastCgiCodec.Codec.HandleMessage` | mucgi/fastcgi.h:27-44 | parse, callback, reset and shutdown on the real buffers are the value-level step |
| `FastCgiResponse.StdoutCarriesOutput` | mucgi/fastcgi.cpp:170-221 | stdout records carry 1 to 65535 bytes each, take multiples of eight bytes and spell out the output |
| `FastCgiResponse.ResponseRoundTrip` | mucgi/fastcgi.cpp:128-225 | a record decoder recovers the output stream, one empty stdout record and one end-request record with 8 bytes |
| `FastCgiResponse.ResponseIsWrittenOut` | mucgi/fastcgi.cpp:128-225 | record by record in numbers: version 1, id 1, zero padding to eight bytes, type 6 with pieces of 65535 bytes, an empty one, and type 3 with eight zero bytes |
| `FastCgiResponse.ResponseToX` | mucgi/fastcgi.cpp:170-224 | the response to a one-byte output, byte by byte |
| `FastCgiResponse.EmptyResultHasItsLength` | mucgi/fastcgi.cpp:160-168 | the fixed page announces the length of what follows its blank line |
| `FastCgiResponse.AppendOutput` | mucgi/fastcgi.cpp:170-221 | the loop with its three record writers appends exactly the stdout records |
| `FastCgiResponse.EndRequest` | mucgi/fastcgi.cpp:142-156 | appends exactly an end-request record |
| `FastCgiResponse.Respond` | mucgi/fastcgi.cpp:158-225 | appends the encoding of the response; an empty output is replaced by the fixed page |
| `EventLoop.StepKeepsInv` | mucgi/muduo_net/EventLoop.cc:102-171 | every interleaved step keeps: run, batch and pending functors are the queued order, and pending functors at poll have a wakeup there or coming |
| `EventLoop.RunKeepsInv` | mucgi/muduo_net/EventLoop.cc:102-171 | the same in every run of any number of threads; what was queued or has run stays so, in its order |
| `EventLoop.BlockedMeansIdle` | mucgi/muduo_net/EventLoop.cc:160-171 | a loop that would block with no wakeup owed has run every queued functor |
| `EventLoop.OneTurnRunsEverything` | mucgi/muduo_net/EventLoop.cc:110-130 | in every run of any threads, once the loop has left poll and finished its functors, everything queued while it was at poll has run |
| `EventLoop.TurnIsPossible` | mucgi/muduo_net/EventLoop.cc:110-130 | with functors waiting and no thread inside queueInLoop such a turn exists |
| `EventLoop.BlockedIsNotQuitting` | mucgi/muduo_net/EventLoop.cc:136-146 | a loop that blocks with no wakeup owed has not been told to quit |
| `EventLoop.TurnEndsInStopIffQuit` | mucgi/muduo_net/EventLoop.cc:110-134 | the end of a turn stops the loop iff it was told to quit, and returns to poll otherwise |
| `EventLoop.QuitIffCalled` | mucgi/muduo_net/EventLoop.cc:136-146 | the loop counts as told to quit iff somebody called quit |
| `EventLoop.ReadsAreWritten` | mucgi/muduo_net/EventLoop.cc:279-297 | the loop reads its eventfd no more often than somebody wrote it |
| `EventLoop.FunctorQueue.QueueInLoop` | mucgi/muduo_net/EventLoop.cc:160-171 | from any thread, a run of the state machine: appends, and wakes the loop unless the loop thread calls it outside its functors |
| `EventLoop.FunctorQueue.DoPendingFunctors` | mucgi/muduo_net/EventLoop.cc:299-314 | a run of the state machine that runs exactly the functors pending at the start, in order; what any thread queues meanwhile waits for the next turn, with the eventfd readable |
| `TimerQueue.InsertEntryIs` | mucgi/muduo_net/TimerQueue.cc:256-267 | the ordered index gains exactly the entry, and it comes first iff it is earliest |
| `TimerQueue.ReadTakesTheDue` | mucgi/muduo_net/TimerQueue.cc:198-218 | getExpired takes exactly the due timers, in order, out of both indexes |
| `TimerQueue.SameSize` | mucgi/muduo_net/TimerQueue.cc:255-274 | the two indexes always have the same size, as every operation asserts |
| `TimerQueue.StepKeepsInv` | mucgi/muduo_net/TimerQueue.cc:146-276 | both indexes hold the same live timers and every live timer is accounted for, with add and cancel between callbacks |
| `TimerQueue.StaleCancelIsHarmless` | mucgi/muduo_net/TimerQueue.cc:157-175 | an id of a deleted timer touches no live timer, even when its address is in use again |
| `TimerQueue.CancelMakesGone` | mucgi/muduo_net/TimerQueue.cc:157-175 | a cancel takes the timer out of every index, or leaves it marked in the running batch, if and only if the timer's addTimerInLoop is not still queued |
| `TimerQueue.OvertakingCancelIsLost` | mucgi/muduo_net/TimerQueue.cc:146-175 | a cancel that comes before its timer has no effect on it: the timer is added as if there had been no cancel |
| `TimerQueue.CancelEndsTimer` | mucgi/muduo_net/TimerQueue.cc:157-250 | in every run that starts with the cancel of a timer that has arrived, it is never scheduled again and runs at most once more, only if it is ahead in the running batch |
| `TimerQueue.CancelHoldsIffTimerHasArrived` | mucgi/muduo_net/TimerQueue.cc:157-250 | no run after the cancel ever has the timer scheduled if and only if its addTimerInLoop was not still queued |
| `TimerQueue.CancelledRunsAtMostOnceMore` | mucgi/muduo_net/TimerQueue.cc:177-250 | over every later run it is never scheduled again and runs at most once more, only if it is ahead in the running batch |
| `TimerQueue.ResetRestarts` | mucgi/muduo_net/TimerQueue.cc:220-239 | every repeating, not cancelled timer of the batch is in both indexes again, one interval after the read; every other timer of the batch is deleted; nothing else changes |
| `TimerQueue.RepeatingTimerStays` | mucgi/muduo_net/TimerQueue.cc:177-250 | over every run without a cancel of it, a repeating timer that has arrived stays scheduled, or is in the running batch, with its interval |
| `TimerQueue.BatchRunsInOrder` | mucgi/muduo_net/TimerQueue.cc:188-192 | whatever callbacks add and cancel, a batch runs each of its timers once, in order of expiration, and nothing in between |
| `TimerQueue.ArmedForTheEarliest` | mucgi/muduo_net/TimerQueue.cc:241-249 | reset arms the timerfd for the earliest expiration, or for 100 microseconds ahead if that is sooner |
| `TimerQueue.ArmedForANewEarliest` | mucgi/muduo_net/TimerQueue.cc:146-155 | adding arms it in the same way if the timer is the earliest, and leaves it alone if not |
| `TimerQueue.NoTimerIsLost` | mucgi/muduo_net/TimerQueue.cc:42-82 | in every reachable state outside handleRead with a timer waiting, the timerfd has fired or is armed by the earliest expiration or 100 microseconds after arming |
| `TimerQueue.StepKeepsFd` | mucgi/muduo_net/TimerQueue.cc:146-250 | each step keeps the timerfd invariant, inside handleRead too |
| `TimerQueue.Timers.Create` | mucgi/muduo_net/Timer.h:30-36 | a new timer with the given time, interval and repetition and a creation number that was never used |
| `TimerQueue.Timers.Insert` | mucgi/muduo_net/TimerQueue.cc:252-276 | inserts into both indexes and reports whether the earliest changed; the size assertions hold |
| `TimerQueue.Timers.AddTimerInLoop` | mucgi/muduo_net/TimerQueue.cc:146-155 | inserts and re-arms if earliest; both invariants are kept |
| `TimerQueue.Timers.CancelInLoop` | mucgi/muduo_net/TimerQueue.cc:157-175 | removes a live timer from both indexes or remembers the id; both invariants are kept |
| `TimerQueue.Timers.GetExpired` | mucgi/muduo_net/TimerQueue.cc:198-218 | the loop takes the expired entries' ids out of the active index |
| `TimerQueue.Timers.BeginRead` | mucgi/muduo_net/TimerQueue.cc:177-186 | handleRead up to its first callback |
| `TimerQueue.Timers.RunNext` | mucgi/muduo_net/TimerQueue.cc:188-192 | the timer at hand is live, whatever earlier callbacks cancelled |
| `TimerQueue.Timers.EndRead` | mucgi/muduo_net/TimerQueue.cc:193-250 | the end of handleRead restarts exactly the repeating, not cancelled timers of the batch, deletes its others, changes nothing else, and leaves the timerfd set for the earliest |
| `TcpConnection.StepKeepsInv` | mucgi/muduo_net/TcpConnection.cc:114-213 | under every partial write and error: conservation, write interest iff output waits, at most one SHUT_WR, and nothing sent after it |
| `TcpConnection.OutputIsConserved` | mucgi/muduo_net/TcpConnection.cc:139-192 | in every run, taken bytes and buffer are everything given to send, iff no non-empty message met EPIPE or ECONNRESET |
| `TcpConnection.SentIsWhatTheKernelTook` | mucgi/muduo_net/TcpConnection.cc:150-174 | over every run, what is sent is what the kernel took of messages that nothing waited in front of and of the output on writable events |
| `TcpConnection.EstablishedTakesMessages` | mucgi/muduo_net/TcpConnection.cc:94-111 | messages are taken from the moment the connection is established, and only while it is up |
| `TcpConnection.ShutdownTakesEffect` | mucgi/muduo_net/TcpConnection.cc:194-213 | shutting down a connection that is up stops further sends and changes only its state; SHUT_WR is immediate exactly when nothing waits |
| `TcpConnection.ShutdownFollowsLastByte` | mucgi/muduo_net/TcpConnection.cc:194-213 | from the call on, SHUT_WR has happened exactly when the kernel has taken all that was waiting |
| `TcpConnection.ShutdownHappens` | mucgi/muduo_net/TcpConnection.cc:194-213 | in every run in which a connection that is up is shut down and not closed, SHUT_WR has happened at the end iff the output is empty |
| `TcpConnection.ForceCloseCloses` | mucgi/muduo_net/TcpConnection.cc:239-269 | a forced close stops sends at once and closes the connection when the loop comes to it |
| `TcpConnection.ClosedIsFinal` | mucgi/muduo_net/TcpConnection.cc:408-421 | closing ends in the disconnected state, after which no step takes a message or writes |
| `TcpConnection.ShutdownIsLast` | mucgi/muduo_net/TcpConnection.cc:194-213 | SHUT_WR at most once, after every accepted byte, and nothing is accepted or sent after it |
| `TcpConnection.DrainEndsInShutdown` | mucgi/muduo_net/TcpConnection.cc:368-406 | with a shutdown pending, SHUT_WR happens exactly when the kernel has taken the last byte |
| `TcpConnection.Connection.SendInLoop` | mucgi/muduo_net/TcpConnection.cc:139-192 | the direct write and the append to the real buffer compute the value-level step |
| `TcpConnection.Connection.SendBuffer` | mucgi/muduo_net/TcpConnection.cc:114-132 | the argument is emptied iff its bytes were accepted |
| `TcpConnection.Connection.HandleWrite` | mucgi/muduo_net/TcpConnection.cc:368-406 | retrieves what was written and shuts down after the last byte |
| `TcpConnection.Connection.PerformAll` | mucgi/muduo_net/TcpConnection.cc:114-213 | every run of events on the connection object conserves the output; a shutdown of a connection that is up, and not closed, is done exactly when the output is empty, and at most once |
| `EPollPoller.EPollPoller.Update` | mucgi/muduo_net/EPollPoller.cc:173-193 | when the operation fits the kernel set it is not refused, and the set changes at this fd only |
| `EPollPoller.EPollPoller.UpdateChannel` | mucgi/muduo_net/EPollPoller.cc:108-150 | restores the invariant after the mask of one channel changed; the new index is stated |
| `EPollPoller.EPollPoller.RemoveChannel` | mucgi/muduo_net/EPollPoller.cc:152-171 | the fd leaves the table and the kernel set and the channel is new again |
| `EPollPoller.EPollPoller.Apply` | mucgi/muduo_net/Channel.h:73-77 | each call changes the mask of its channel as asked and keeps the invariant |
| `EPollPoller.MaskFollowsLastCalls` | mucgi/muduo_net/Channel.h:73-77 | over every run, bits 3 are set iff the channel's last call about reading enabled it, bit 4 iff its last call about writing did, and no others |
| `EPollPoller.EPollPoller.Perform` | mucgi/muduo_net/EPollPoller.cc:108-193 | over every run no epoll_ctl is refused, the kernel set is the kAdded channels with their masks, and the masks are what the callers asked for |
| `EPollPoller.EPollPoller.FillActiveChannels` | mucgi/muduo_net/EPollPoller.cc:90-106 | every pointer handed back by the kernel is a registered channel |
| `UrlForm.HexRoundTrip` | mucgi/cgicc_lib/CgiUtils.cpp:76-103 | hexToChar inverts charToHex on every byte |
| `UrlForm.DecodeInvertsEncode` | mucgi/cgicc_lib/CgiUtils.cpp:138-208 | decoding inverts encoding on every byte string |
| `UrlForm.EncodedCharacter` | mucgi/cgicc_lib/CgiUtils.cpp:144-171 | which characters stand for themselves, '+' for a space, and '%' with two upper-case digits for the others |
| `UrlForm.EncodeConcat` | mucgi/cgicc_lib/CgiUtils.cpp:138-174 | text is encoded character by character |
| `UrlForm.EncodedAlphabet` | mucgi/cgicc_lib/CgiUtils.cpp:138-174 | the alphabet of encoded text |
| `UrlForm.UnreservedIsUnchanged` | mucgi/cgicc_lib/CgiUtils.cpp:149-164 | text of unreserved characters is its own encoding |
| `UrlForm.EscapeHasNoCase` | mucgi/cgicc_lib/CgiUtils.cpp:93-103 | an escape's value does not depend on the case of its digits |
| `UrlForm.DecodedCharacter` | mucgi/cgicc_lib/CgiUtils.cpp:183-205 | '+' is a space, and any other character but '%' stands for itself |
| `UrlForm.LonePercent` | mucgi/cgicc_lib/CgiUtils.cpp:188-199 | so does a '%' that two hexadecimal digits do not follow |
| `UrlForm.FormUrlEncode` | mucgi/cgicc_lib/CgiUtils.cpp:138-174 | the loop computes the encoding |
| `UrlForm.FormUrlDecode` | mucgi/cgicc_lib/CgiUtils.cpp:176-208 | the loop computes the decoding, ill-formed escapes included |
| `UrlForm.SplitIsUnique` | mucgi/cgicc_lib/Cgicc.cpp:330-356 | a text splits into pairs in one way only |
| `UrlForm.ParseInvertsRender` | mucgi/cgicc_lib/Cgicc.cpp:323-357 | the joined text of encoded pairs parses to those pairs in order and to nothing else, empty names and values included |
| `UrlForm.ParsedText` | mucgi/cgicc_lib/Cgicc.cpp:330-356 | a text with two pairs, character by character |
| `UrlForm.ParsedRemainder` | mucgi/cgicc_lib/Cgicc.cpp:330-336 | a value may contain '=', and a remainder without '=' is ignored |
| `UrlForm.ParseFormInput` | mucgi/cgicc_lib/Cgicc.cpp:323-357 | the loop stores exactly the decoded pairs of the split, on any text |
| `StringSearch.FindFirst` | mucgi/cgicc_lib/CgiUtils.cpp:219-222 | the first occurrence from a position, or npos |
| `MultipartHeader.ExtractBetweenOf` | mucgi/cgicc_lib/CgiUtils.cpp:211-228 | the text between the first opening and the next closing separator, empty if either is missing |
| `MultipartHeader.FieldHeaderIsParsed` | mucgi/cgicc_lib/Cgicc.cpp:403-423 | the header of a field yields its name and no file name, for every name without a quote |
| `MultipartHeader.FileHeaderIsParsed` | mucgi/cgicc_lib/Cgicc.cpp:403-423 | the header of a file yields its name, file name and type, for names without quotes, blank lines or the words that introduce what follows them, a non-empty file name without '%' and '+', and a type on one line |
| `MultipartHeader.EncodedFilenameIsParsed` | mucgi/cgicc_lib/Cgicc.cpp:412-420 | every file name comes back if the header carries its encoding |
| `Multipart.PartIsParsed` | mucgi/cgicc_lib/Cgicc.cpp:425-450 | parseMIME stores exactly the field or file that was rendered, blank lines in its value included |
| `Multipart.NoDelimiterInside` | mucgi/cgicc_lib/Cgicc.cpp:380-392 | no delimiter starts inside a part, not even one that reaches past its end |
| `Multipart.NoDelimiterInTerminator` | mucgi/cgicc_lib/Cgicc.cpp:367-373 | the closing delimiter contains no short delimiter at any offset |
| `Multipart.PiecesInvertTail` | mucgi/cgicc_lib/Cgicc.cpp:376-399 | cutting at the delimiters inverts joining with them |
| `Multipart.ParseInvertsRender` | mucgi/cgicc_lib/Cgicc.cpp:359-450 | for every non-empty list of fields and files the parser returns the same fields and files in order |
| `Multipart.ParsedMessage` | mucgi/cgicc_lib/Cgicc.cpp:359-450 | a message with a field and a file, character by character |
| `Multipart.MalformedIffNoBlankLine` | mucgi/cgicc_lib/Cgicc.cpp:429-434 | a part is rejected exactly when it has no blank line, with nothing stored for it |
| `Multipart.ValueBehindBlankLine` | mucgi/cgicc_lib/Cgicc.cpp:436-438 | two characters are taken off a value, and none if there are fewer |
| `Multipart.MissingBoundary` | mucgi/cgicc_lib/Cgicc.cpp:363-373 | without "boundary=" the separators come from what stands behind the first eight characters |
| `Multipart.DashesAreNoBoundary` | mucgi/cgicc_lib/Cgicc.cpp:367-373 | the closing delimiter contains the short one exactly for boundaries of dashes only |
| `Multipart.DashedRenderIsParsed` | mucgi/cgicc_lib/Cgicc.cpp:359-450 | for such a boundary every form is parsed with a line end appended to its last value |
| `Multipart.RoundTripIffGoodBoundary` | mucgi/cgicc_lib/Cgicc.cpp:359-450 | renderable parts come back as they were sent if and only if some character of the boundary is not a dash |
| `Multipart.ParseMimeInto` | mucgi/cgicc_lib/Cgicc.cpp:425-450 | stores a field or a file, or reports malformed input, for any text; a value shorter than its line end wraps the count |
| `Multipart.ParseMultipart` | mucgi/cgicc_lib/Cgicc.cpp:359-400 | the loop over the separators computes the value-level parser on any text, missing boundary included |
| `Calendar.NextDayIsNextNumber` | mucgi/muduo_base/Date.cc:20-27 | the calendar's next day has the next day number |
| `Calendar.YearMonthDayInvertsJulianDay` | mucgi/muduo_base/Date.cc:29-42 | decoding inverts encoding from 1 March -4800 on |
| `Calendar.JulianDayInvertsYearMonthDay` | mucgi/muduo_base/Date.cc:20-42 | encoding inverts decoding from that day's number on, and the decoded date is a real one |
| `Calendar.RoundTripIffInRange` | mucgi/muduo_base/Date.cc:20-42 | a date survives the round trip if and only if it is not before 1 March -4800 |
| `Calendar.WeekDayInRange` | mucgi/muduo_base/Date.h:96-99 | exactly when weekDay is in 0..6, with the truncating remainder |
| `Calendar.FillHMS` | mucgi/muduo_base/TimeZone.cc:71-77 | seconds, minutes and hours of any unsigned count of seconds |
| `Calendar.FloorDays` | mucgi/muduo_base/TimeZone.cc:322-328 | the corrected truncating division rounds down, for negative seconds too |
| `Calendar.ToUtcTime` | mucgi/muduo_base/TimeZone.cc:317-343 | all fields of the broken-down time |
| `Calendar.EpochIsMidnight` | mucgi/muduo_base/Date.cc:44 | second 0 is midnight of 1 January 1970, whose day number is 2440588 |
| `Calendar.DateCountsFromEpoch` | mucgi/muduo_base/TimeZone.cc:322-334 | the date of a second is as many calendar days from 1 January 1970 as the second is whole days from 0, in both directions |
| `Calendar.WeekDayOfSecond` | mucgi/muduo_base/TimeZone.cc:335 | tm_wday counts from Thursday by whole days, negative seconds included |
| `Calendar.NextDaySameTime` | mucgi/muduo_base/TimeZone.cc:317-343 | a day later it is the same time of the calendar's next date, on the next weekday |
| `Calendar.FromUtcInvertsToUtc` | mucgi/muduo_base/TimeZone.cc:317-358 | from 1 March -4800 on, reading a broken-down time back gives its second, negative ones included, and its time and date are in range |
| `Calendar.ToUtcInvertsFromUtc` | mucgi/muduo_base/TimeZone.cc:317-358 | every date and time of day in range comes back from its second |
| `Calendar.YearDayCounts` | mucgi/muduo_base/TimeZone.cc:337-341 | for every second of a year after -4800, tm_yday is the number of calendar days from 1 January to the date |
| `Calendar.DaysLaterIffDifference` | mucgi/muduo_base/Date.cc:20-42 | one date is n calendar days after another if and only if their day numbers differ by n |
| `Calendar.WeekDayCounts` | mucgi/muduo_base/Date.h:96-99 | counted from 1 January 1970, a Thursday, the weekday goes on by one every day |
| `Calendar.WeekDayFollows` | mucgi/muduo_base/Date.h:96-99 | from day number -1 on, the weekday of the calendar's next day is the next weekday |

## Left out

- The copies in `cocgi` of cgicc, the buffer, the record parser and the responder repeat the `mucgi` logic; it is modelled once.
- `readData` and `doRequest` of `cocgi`: socket reads and writes around the parser.
- Several complete requests in one arrival: `parseRequest` merges them before `onMessage` looks, so the end-to-end result is about arrivals whose last one ends with the request.
- Condition-variable waiters of libco (`co_cond_*`) on the active list; the event-loop results are about `co_poll_inner`.
- Functors that the loop thread queues before `loop()` starts: they get no wakeup.
- `PollPoller`, whose re-enable does not restore the descriptor.
- `FormEntry::makeString` and the other accessors of form data.
- Register switching (`coctx_swap.S`, `coctx.cpp`), the system-call hooks, malloc failure, `co_release`, and more than 128 nested resumes, which the source does not check.
- Sockets, accept, threads, logging, process information, time zone files and the backends: thin wrappers or I/O.
- `EventLoop.StepKeepsInv`: the loop and its threads are a state machine on values, because threads interleave; `FunctorQueue` ties queueInLoop and doPendingFunctors to it, with other threads' calls between the functors, while poll and the handlers stay steps.
- `TimingWheel.TakeAllTimeoutRefinesQueue`: ticks are unbounded, so 64-bit overflow of ullExpireTime is not modelled.
- `CoScheduler.Scheduler.Turn`: the links and lists are the pointer structures; the flags of a poll (bTimeout, iRaiseCnt, iAllEventDetach) are kept in a map under its number, and the poll that an epoll result points to is looked up there.
- `SharedStack.Env.Run`: a suspended coroutine's frames are bytes; what they mean to the processor is not modelled, and no coroutine is released.
- `TimerQueue.StepKeepsInv`: the ordered sets are sequences and sets of values; callbacks are arbitrary adds and cancels between two runs of the batch. Intervals are whole microseconds.
- `TcpConnection.OutputIsConserved`: sends come from the loop thread; a message queued from another thread may reach the loop after SHUT_WR.
- `TcpConnection.StepKeepsInv`: the write-complete and high-water-mark callbacks, delayed forced closes and read interest are not modelled.
- `Multipart.ParseMultipart`: the comparison of content types that selects the branch and the disposition that parseHeader also extracts are not modelled.
- `Calendar.ToUtcTime`: integers are mathematical, so the truncation of the day count to 32 bits far from the present is not modelled.
