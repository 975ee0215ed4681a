# IoT proxy: verified models

Dafny models of the load-bearing parts of the proxy and its libraries, with the
properties those parts exist for. `dafny verify dfyconfig.toml` checks everything.

- **KCP** (`Machine`, `KcpProtocol`, `KcpReliability`, `KcpDatagrams`, `KcpSystem`,
  `KcpProgress`, `KcpWindow`, `KcpRetransmit`, `KcpSerial`, `KcpWire`, `KcpClock`,
  `KcpBlock`): the reliable-delivery engine with its 256-bit connection identifier and 52-byte header. `KcpProtocol` says what each call means on
  values, `KcpBlock` is the control block with the loops of the C code, proved equal to
  it. `KcpSystem` is two endpoints over a network that loses, duplicates and reorders;
  its theorems hold in every state of every run. `KcpProgress` shows that one exchange
  that gets through moves the window on, `KcpWindow` and `KcpRetransmit` how much is sent
  and when it is sent again, `KcpSerial` for how long 32-bit numbers decide
  as the ideal ones do. `KcpWire` carries the system down to bytes.
- **Bounded queue** (`MpmcQueue`, `MpmcCalls`): the lock-free queue as a machine with one step per
  atomic access and a program counter per thread; all results are about every
  interleaving.
- **Allocator** (`PageHeap*`, `SizeClass`, `FreeList`, `Tier*`, `ThreadCache`): spans
  that tile system allocations, intrusive free lists at the level of their next words,
  and the central, transfer and thread tiers as critical sections that any number of
  threads interleave above the page heap.
- **KCP sessions and timers** (`KcpSession`, `KcpTimer`): lazily invalidated heap nodes
  and a single armed tick, over the real session blocks.
- **Gossip** (`BigEndian`, `GossipEnvelope`, `Gossip`): envelopes, the seen cache, and a
  network of any number of nodes.
- **Firewall** (`Sipfw`, `SipfwMatch`, `SipfwChain`, `SipfwFile`): rule lists edited through a pointer
  to a pointer beside the snapshot packets are matched against, and the rule file.
- **Frames and admission** (`TcpFrames`, `Admission`): reassembly of edge frames from a
  byte stream, and the token bucket.

`Arithmetic` keeps facts about products and quotients away from everything else;
`Common` holds what several models share.

Conventions. A lock-protected section is one atomic step; a thread-local part joins the
section before it. Clock readings, random identities, allocation outcomes and what a
call into another component answers are parameters. A span structure is a record in a
store under its identity, so that sharing and update in place are explicit. In the
allocator addresses and lengths are natural numbers, pages are 8192 bytes.

Where the code and its comments disagree the code is modelled: the firewall's function
comments describe defects of earlier versions (an insert that skips a node, a count
that is not updated) that the code no longer has.

## Model

| member | source | states |
|---|---|---|
| `KcpSystem.EndToEnd` | myring/thirdparty/ikcp/ikcp.c:398-475 | Over a network that drops, duplicates and reorders datagrams, in every state of every run of two endpoints the messages `ikcp_recv` has returned at one end are a prefix, message by message, of those `ikcp_send` accepted at the other |
| `KcpSystem.AcknowledgedImpliesReceived` | myring/thirdparty/ikcp/ikcp.c:607-654 | In every reachable state each segment number below `snd_nxt` is still in the sender's `snd_buf`, or in the peer's `rcv_buf`, or below the peer's `rcv_nxt` |
| `KcpSystem.WindowStructure` | myring/thirdparty/ikcp/ikcp.c:730-790 | In every reachable state `rcv_buf` is strictly ascending inside the receive window, `rcv_queue` is contiguous and ends at `rcv_nxt`, `snd_buf` is ascending between `snd_una` and `snd_nxt`, and `snd_nxt - snd_una <= snd_wnd` |
| `KcpSystem.NeverGoesBack` | myring/thirdparty/ikcp/ikcp.c:607-654 | `snd_una` never decreases over a run, and what was accepted or delivered is never lost or altered |
| `KcpSystem.NoReassemblyDeadlock` | myring/thirdparty/ikcp/ikcp.c:481-503 | When `rcv_queue` is full, `ikcp_recv` with a buffer as large as `ikcp_peeksize` says returns exactly the next undelivered message of the peer |
| `KcpSystem.QuietMeansDelivered` | myring/thirdparty/ikcp/ikcp.c:1333-1336 | When `ikcp_waitsnd` is zero at the sender and the receiver has drained its queue, everything accepted has been delivered |
| `KcpSystem.NextKeeps` | myring/thirdparty/ikcp/ikcp.c:796-950 | Every step of the two-endpoint system (send, receive, update, deliver, duplicate, lose) keeps the flow invariant of both directions |
| `KcpReliability.CutRoundTrip` | myring/thirdparty/ikcp/ikcp.c:535-580 | Fragmentation of an accepted message yields pieces numbered down to zero, each within one segment, whose payloads concatenate to the message |
| `KcpReliability.AcceptsExactly` | myring/thirdparty/ikcp/ikcp.c:549-556 | A message is accepted if and only if 127 full fragments can hold it |
| `KcpReliability.HeadIsNextMessage` | myring/thirdparty/ikcp/ikcp.c:398-465 | The message at the head of `rcv_queue` can be read exactly when all its fragments are queued, and merging it yields the next message that was sent |
| `KcpReliability.RecvKeeps` | myring/thirdparty/ikcp/ikcp.c:398-475 | Reading delivers the next message of the sender's log or nothing, and keeps the flow invariant |
| `KcpReliability.ParseDataKeeps` | myring/thirdparty/ikcp/ikcp.c:730-790 | Inserting a segment into `rcv_buf`, duplicate or not, in order or not, and moving the ready ones keeps every received number received and the window structure |
| `KcpReliability.SenderShrinks` | myring/thirdparty/ikcp/ikcp.c:607-654 | Dropping acknowledged segments from `snd_buf` keeps the flow invariant as long as each dropped one was received; `snd_una` only moves forward |
| `KcpReliability.SegmentReachesSender` | myring/thirdparty/ikcp/ikcp.c:837-873 | Whatever segment of the peer arrives, its `una` and its acknowledgement remove only segments the peer has received |
| `KcpReliability.FlushSegmentsGood` | myring/thirdparty/ikcp/ikcp.c:979-1162 | Everything a flush writes is data the sender still holds or reports only what its receiving half has |
| `KcpReliability.FlushKeepsSender` | myring/thirdparty/ikcp/ikcp.c:1069-1162 | Moving fragments into `snd_buf` within the window and rewriting the flights keeps the flow invariant |
| `KcpReliability.FullQueueIsReadable` | myring/thirdparty/ikcp/ikcp.c:1320-1331 | Because the receive window is never below the largest fragment count, a full `rcv_queue` starts with a complete message |
| `KcpDatagrams.PackFlattens` | myring/thirdparty/ikcp/ikcp.c:995-1062 | Packing writes every segment of a flush exactly once and in order, whatever the MTU |
| `KcpDatagrams.PackFits` | myring/thirdparty/ikcp/ikcp.c:995-1162 | Every buffer handed out is nonempty and at most `mtu` bytes when each segment alone is |
| `KcpDatagrams.PackIsTight` | myring/thirdparty/ikcp/ikcp.c:995-1162 | A flush hands out no more buffers than it must: each is closed only when the next segment does not fit |
| `KcpWire.DatagramRoundTrip` | myring/thirdparty/ikcp/ikcp.c:808-917 | The parse loop of `ikcp_input` recovers exactly the segments encoded into a datagram if and only if every field of every segment fits its width in the header |
| `KcpWire.WindowArrivesTruncated` | myring/thirdparty/ikcp/ikcp.c:954-965 | Whatever window is advertised arrives as its remainder by 65536, so 65536 arrives as zero |
| `KcpWire.SegmentLayout` | myring/thirdparty/ikcp/ikcp.c:954-965 | The bytes of a segment: identifier, command, fragment, window, timestamp, number, una and length at their places and least significant byte first, then the payload |
| `KcpWire.ParseGoesOn` | myring/thirdparty/ikcp/ikcp.c:808-917 | With anything behind it a datagram is parsed into its segments and then whatever the rest gives, so whole segments take effect up to the first that is refused |
| `KcpWire.ParseOneFails` | myring/thirdparty/ikcp/ikcp.c:815-834 | A foreign identifier, a length beyond the bytes left and an unknown command are refused with -1, -2 and -3 |
| `KcpWire.OutputFitsMtu` | myring/thirdparty/ikcp/ikcp.c:979-1190 | In every run every buffer given to the output callback is a nonempty whole number of segments and at most `mtu` bytes |
| `KcpWire.WireIsTransparent` | myring/thirdparty/ikcp/ikcp.c:796-950 | In every run, as long as serial numbers fit 32 bits and windows 16, giving `ikcp_input` the bytes of any datagram ever output has the effect of its segments |
| `KcpClock.CheckBounds` | myring/thirdparty/ikcp/ikcp.c:1231-1267 | `ikcp_check` answers no later than `interval` after now, and when it answers later than now no later than `ts_flush`, across clock wraparound |
| `KcpClock.CheckIsSound` | myring/thirdparty/ikcp/ikcp.c:1194-1267 | With no input or send in between, `ikcp_update` at any time before the answer of `ikcp_check` changes nothing but `current` and outputs nothing, across 32-bit wraparound |
| `KcpClock.FlushHappensOnTime` | myring/thirdparty/ikcp/ikcp.c:1194-1219 | An update at `ts_flush`, which no deadline exceeds, does flush and moves `ts_flush` on by one interval |
| `KcpClock.DueNowMayDoNothing` | myring/thirdparty/ikcp/ikcp.c:1247-1262 | The converse of soundness fails on a block the calls produce: one byte sent, updates at 0, 100 and 200; at 250 `ikcp_check` answers now although an update does nothing |
| `KcpClock.DueNowExactly` | myring/thirdparty/ikcp/ikcp.c:1231-1267 | Exactly when `ikcp_check` answers now although an update would not flush: `ts_flush` lies ahead by at most 10 s and a retransmission is overdue |
| `KcpClock.CheckIsLatest` | myring/thirdparty/ikcp/ikcp.c:1231-1267 | When `ikcp_check` answers later than now, then at that time an interval has passed, a flush is due or a retransmission is |
| `KcpClock.FlushesKeepRhythm` | myring/thirdparty/ikcp/ikcp.c:1194-1219 | On time or late by less than an interval the next flush is one interval after the last; later than that or after a jump of the clock it is one interval from now; before its time nothing happens |
| `Machine.CircularDifference` | myring/thirdparty/ikcp/ikcp.c:166-169 | The signed 32-bit difference of truncated values is the true difference if and only if that lies in [-2^31, 2^31) |
| `Machine.CircularDifferenceAmbiguous` | myring/thirdparty/ikcp/ikcp.c:166-169 | At a distance of exactly 2^31 the comparison no longer orders the pair |
| `KcpSerial.SerialTestsAgree` | myring/thirdparty/ikcp/ikcp.c:607-790 | In every state of every run, while `snd_nxt` plus the wider window stays below 2^31, the 32-bit difference of any two numbers a test can look at, stored, received, pending or an end of a window, is the true one |
| `KcpSerial.FirstToFail` | myring/thirdparty/ikcp/ikcp.c:875 | Beyond that the window test fails first: an old number counts as inside the receive window exactly until the end of the window passes 2^31 |
| `KcpProgress.OneExchangeSuffices` | myring/thirdparty/ikcp/ikcp.c:979-1162 | In every reachable state with both ends updated once, if the oldest segment in flight is due and the peer has room in its queue, some datagram of the flush, delivered, makes some datagram of the peer's next flush move snd_una on when it is delivered |
| `KcpProgress.FlushWritesExactlyTheDue` | myring/thirdparty/ikcp/ikcp.c:1097-1162 | A flush writes the data of a segment in flight if and only if it is new, timed out, or skipped often enough within the fast-resend limit |
| `KcpProgress.DataIsAcknowledged` | myring/thirdparty/ikcp/ikcp.c:875-893 | Every data segment of an input within the window, old or new, is acknowledged with its own number and timestamp |
| `KcpProgress.AckMovesUna` | myring/thirdparty/ikcp/ikcp.c:837-866 | snd_una stays the first number in flight, never falls, and passes the oldest segment when it is acknowledged anywhere in the input |
| `KcpWindow.FlushAdmitsExactly` | myring/thirdparty/ikcp/ikcp.c:1064-1094 | A flush puts in flight, in order, exactly as much of the queue as fits between `snd_nxt` and `snd_una` plus the least of the own window, the peer's and, where it counts, the congestion window |
| `KcpWindow.AdvertisedWindowHolds` | myring/thirdparty/ikcp/ikcp.c:836 | After a datagram the window of its last segment holds: the next flush goes no further past `snd_una`, whatever the congestion controller says |
| `KcpWindow.FlushReports` | myring/thirdparty/ikcp/ikcp.c:995-1012 | Pending acknowledgements go out first, each once and in order; every segment reports the room left in the receive queue and the next number awaited; data carries the time of the flush |
| `KcpWindow.ProbesExactly` | myring/thirdparty/ikcp/ikcp.c:1014-1062 | A flush asks for the window exactly when it was zero and the probe timer has run out, and tells its own exactly when asked to |
| `KcpWindow.ProbeTimer` | myring/thirdparty/ikcp/ikcp.c:1014-1035 | The probe timer is off while the window is open, first 7 s, then half as long again after each probe up to 120 s |
| `KcpWindow.RunProbes` | myring/thirdparty/ikcp/ikcp.c:1014-1062 | In every state of every run both probe timers are off or between 7 and 120 s and nothing is left to ask |
| `KcpWindow.ReadingTells` | myring/thirdparty/ikcp/ikcp.c:420-472 | A read that makes room in a full queue, and no other, is followed by telling the peer |
| `KcpWindow.FirstFlight` | myring/thirdparty/ikcp/ikcp.c:1064-1094 | A new block without congestion control sends at its first flush what its own window and the initial 128 allow, with it nothing yet |
| `KcpWindow.RunSilent` | myring/thirdparty/ikcp/ikcp.c:992-993 | In every state of every run an endpoint that was never updated has output nothing and numbered nothing |
| `KcpRetransmit.InputClearsExactly` | myring/thirdparty/ikcp/ikcp.c:607-654 | A segment of the peer takes off `snd_buf` exactly what lies below its una and, if it is an acknowledgement, the segment it names |
| `KcpRetransmit.SkipsAreCounted` | myring/thirdparty/ikcp/ikcp.c:656-678 | A datagram counts one skip for exactly the segments its best acknowledgement has overtaken in number and in time |
| `KcpRetransmit.BestAckExactly` | myring/thirdparty/ikcp/ikcp.c:840-862 | There is a best acknowledgement exactly when there is any: the first, or one newer in number and time than the best before it, with none newer after it |
| `KcpRetransmit.OneBest` | myring/thirdparty/ikcp/ikcp.c:840-862 | Only one acknowledgement of a datagram is the best |
| `KcpRetransmit.WaitsExactly` | myring/thirdparty/ikcp/ikcp.c:1097-1136 | A segment that is written has timed out again exactly when its timeout, with an eighth more the first time in the normal mode, has passed; one that is not written is left alone |
| `KcpRetransmit.TimeoutDoubles` | myring/thirdparty/ikcp/ikcp.c:1107-1118 | In the normal mode a timeout at least doubles, in the first fast mode it grows by half |
| `KcpRetransmit.DeadExactly` | myring/thirdparty/ikcp/ikcp.c:1151-1153 | A flush declares the link dead exactly when it writes a segment for at least the `dead_link`-th time, and counts the timeouts |
| `KcpBlock.ControlBlock.SetMtu` | myring/thirdparty/ikcp/ikcp.c:1271-1284 | An MTU below 52 is refused and changes nothing; an accepted one leaves room for payload exactly when it is not 52 |
| `KcpBlock.ControlBlock.WndSize` | myring/thirdparty/ikcp/ikcp.c:1320-1331 | Positive sizes are taken; the receive window never drops below 128 |
| `KcpBlock.ControlBlock.WaitSnd` | myring/thirdparty/ikcp/ikcp.c:1333-1336 | Zero exactly when nothing is queued or in flight |
| `KcpBlock.ControlBlock.Send` | myring/thirdparty/ikcp/ikcp.c:509-584 | The fragmenting loop in place does what sending means on values, including the refusal of messages of 128 fragments or more |
| `KcpBlock.ControlBlock.PeekSize` | myring/thirdparty/ikcp/ikcp.c:481-503 | The scanning loop returns the size of the head message, or -1 when it is incomplete |
| `KcpBlock.ControlBlock.Recv` | myring/thirdparty/ikcp/ikcp.c:398-475 | The merge and refill loops in place return the head message and leave the state that receiving means on values, with all three error codes |
| `KcpBlock.ControlBlock.ParseUna` | myring/thirdparty/ikcp/ikcp.c:640-654 | The loop over `snd_buf` drops exactly the segments below `una` |
| `KcpBlock.ControlBlock.ParseAck` | myring/thirdparty/ikcp/ikcp.c:618-638 | The loop over `snd_buf` removes exactly the acknowledged segment, within the window only |
| `KcpBlock.ControlBlock.ParseFastack` | myring/thirdparty/ikcp/ikcp.c:656-679 | The loop counts one skip for each segment before the highest acknowledged one |
| `KcpBlock.ControlBlock.ParseData` | myring/thirdparty/ikcp/ikcp.c:730-790 | The backward scan inserts at the one place that keeps the order, drops duplicates and numbers outside the window, and moves the ready segments |
| `KcpBlock.ControlBlock.Input` | myring/thirdparty/ikcp/ikcp.c:796-950 | Parsing bytes in place has the effect of the parsed segments one by one, those before an error included, with its return codes |
| `KcpBlock.ControlBlock.Flush` | myring/thirdparty/ikcp/ikcp.c:979-1190 | All loops of a flush in place leave the state and hand out the buffers that flushing means on values, with whatever congestion window is computed |
| `KcpBlock.ControlBlock.Update` | myring/thirdparty/ikcp/ikcp.c:1194-1219 | Advancing the clock and flushing when due equals the update on values |
| `KcpBlock.ControlBlock.Check` | myring/thirdparty/ikcp/ikcp.c:1231-1267 | The loop over `snd_buf` computes the deadline |
| `MpmcQueue.EveryInterleaving` | myring/include/NoMtxQueue/NoMtxQueue.tpp:40-181 | In every state of every interleaving `dequeue_pos <= enqueue_pos <= dequeue_pos + Capacity`, no ticket is claimed by two producers or two consumers at once, what was taken at a ticket is what was stored at it, and a ticket behind `dequeue_pos` was taken or has a consumer at work |
| `MpmcQueue.HistoryGrows` | myring/include/NoMtxQueue/NoMtxQueue.tpp:40-181 | Over a run a claimed ticket keeps its value, and so does a taken one |
| `MpmcQueue.TakenOnce` | myring/include/NoMtxQueue/NoMtxQueue.tpp:65-67 | Over a whole interleaving no two moves take the same ticket |
| `MpmcQueue.StoredOnce` | myring/include/NoMtxQueue/NoMtxQueue.tpp:149-181 | Over a whole interleaving no two moves construct an object for the same ticket |
| `MpmcQueue.CellsAreReady` | myring/include/NoMtxQueue/NoMtxQueue.tpp:65-67 | In every state of every interleaving a producer at its store finds the cell empty, a consumer at its take finds the value pushed with its ticket, and every thread can make a step |
| `MpmcQueue.StepIsQueueStep` | myring/include/NoMtxQueue/NoMtxQueue.tpp:149-181 | Linearization: each step of each thread appends the pushed value, removes the oldest, or leaves the abstract queue alone, at the successful compare-exchange |
| `MpmcQueue.PopReturnsItsTicket` | myring/include/NoMtxQueue/NoMtxQueue.tpp:65-72 | A pop returns the value its ticket's producer pushed |
| `MpmcQueue.PushFailsOnlyWhenFull` | myring/include/NoMtxQueue/NoMtxQueue.tpp:156-174 | A push that returns false read a cell not yet released: its ticket is the tail, and the queue is full or the consumer one lap earlier is still at work |
| `MpmcQueue.PopFailsOnlyWhenEmpty` | myring/include/NoMtxQueue/NoMtxQueue.tpp:44-63 | A pop that returns false read a cell not yet published: the queue is empty or the producer of that ticket is still at work |
| `MpmcCalls.PushTellsTheTruth` | myring/include/NoMtxQueue/NoMtxQueue.tpp:149-181 | Over any interleaving a push that returns reports success exactly when its thread appended the value since the call, and it did so at most once |
| `MpmcCalls.PopTellsTheTruth` | myring/include/NoMtxQueue/NoMtxQueue.tpp:40-73 | Over any interleaving a pop that returns reports nothing exactly when its thread dequeued nothing since the call; otherwise it dequeued once and returns the value that was the oldest then |
| `MpmcCalls.PushAlone` | myring/include/NoMtxQueue/NoMtxQueue.tpp:149-181 | Alone on a quiet queue a push returns within six moves whether there was room, and then the value is the newest |
| `MpmcCalls.PopAlone` | myring/include/NoMtxQueue/NoMtxQueue.tpp:40-73 | Alone on a quiet queue a pop returns within six moves the oldest value, or nothing if the queue is empty |
| `MpmcQueue.CellAhead` | myring/include/NoMtxQueue/NoMtxQueue.tpp:156-174 | A stale position never sees a sequence behind it |
| `MpmcQueue.StepKeeps` | myring/include/NoMtxQueue/NoMtxQueue.tpp:40-181 | Every atomic step of every thread keeps the per-cell invariant: no cell is overwritten before its value is taken |
| `MpmcQueue.AtRest` | myring/include/NoMtxQueue/NoMtxQueue.tpp:11-21 | With no call in progress the cells between the positions hold exactly the values not yet popped, so the destructor destroys each live object once |
| `MpmcQueue.BeforeIsLess` | myring/include/NoMtxQueue/NoMtxQueue.tpp:191-195 | On 64-bit counters less than 2^63 apart `before` is `<` |
| `MpmcQueue.MaskIsSlot` | myring/include/NoMtxQueue/NoMtxQueue.tpp:183-189 | For a power of two, masking with `Capacity - 1` is the remainder |
| `PageHeapTheorems.EveryRun` | myring/src/tcmalloc/PageHeap.cpp:80-583 | In every reachable state spans never overlap, each is either active or cached, no two cached spans of one allocation are adjacent, and active plus cached bytes are the system bytes |
| `PageHeapTheorems.StepKeeps` | myring/src/tcmalloc/PageHeap.cpp:366-583 | Every critical section keeps the tiling of the live allocations, all three cached-span indexes, the page map and the counters exact |
| `PageHeapTheorems.CoalesceKeeps` | myring/src/tcmalloc/PageHeap.cpp:267-331 | The merge loop ends, and then no cached span can be merged with its result |
| `PageHeapTheorems.TakeKeeps` | myring/src/tcmalloc/PageHeap.cpp:148-209 | A request is served with exactly its number of pages from the best-fitting cached span; spans in use are untouched |
| `PageHeapTheorems.NewSplitKeeps` | myring/src/tcmalloc/PageHeap.cpp:403-417 | Splitting hands out the first part, caches the rest merged with its neighbours, and keeps the invariant |
| `PageHeapTheorems.NewSystemKeeps` | myring/src/tcmalloc/PageHeap.cpp:428-462 | A new system allocation that overlaps nothing live is handed out whole and keeps the invariant |
| `PageHeapTheorems.ReleaseKeeps` | myring/src/tcmalloc/PageHeap.cpp:477-509 | Releasing an active span keeps the invariant and touches no other span in use |
| `PageHeapTheorems.PurgeKeeps` | myring/src/tcmalloc/PageHeap.cpp:534-583 | A purge removes exactly the whole cached allocations and keeps the invariant |
| `PageHeapTheorems.BytesAddUp` | myring/src/tcmalloc/PageHeap.cpp:492-499 | Active bytes plus cached bytes equal the bytes obtained from the system |
| `PageHeapTheorems.CountersNeverSaturate` | myring/src/tcmalloc/PageHeap.cpp:138-145 | The guarded subtractions never cut anything off |
| `PageHeapTheorems.IdleSpansAreWhole` | myring/src/tcmalloc/PageHeap.cpp:252-349 | With nothing active every cached span is a whole system allocation: merging has undone every split |
| `PageHeapTheorems.IdlePurgeReturnsEverything` | myring/src/tcmalloc/PageHeap.cpp:534-583 | A purge of an idle heap leaves no span and all three byte counters at zero |
| `PageHeapTheorems.MapObjectIsExact` | myring/src/tcmalloc/PageHeap.cpp:511-532 | An address is mapped to a span exactly when that span is active and contains it |
| `PageHeapTheorems.AllocationsAreTiled` | myring/src/tcmalloc/PageHeap.cpp:211-331 | In every reachable state each page of a live allocation lies in exactly one span, and that span is part of the same allocation |
| `PageHeapTheorems.IndexesAreExact` | myring/src/tcmalloc/PageHeap.cpp:80-146 | In every reachable state the page map holds exactly the pages of active spans, and the indexes by length, by start and by end exactly the cached spans |
| `PageHeapTheorems.NewestIsReused` | myring/src/tcmalloc/PageHeap.cpp:148-176 | The span cached last is the first to be used again: given back without a free neighbour it serves the next request for as many pages |
| `PageHeapBlock.Allocator.CoalesceLoop` | myring/src/tcmalloc/PageHeap.cpp:267-331 | The loop in place equals coalescing on values |
| `PageHeapBlock.Allocator.NewSpan` | myring/src/tcmalloc/PageHeap.cpp:366-475 | Returns a span exactly when the size is valid and the cache or the system can serve it; the span has the requested length, the cache is used whenever it fits, and a refusal changes nothing |
| `PageHeapBlock.Allocator.ReleaseSpan` | myring/src/tcmalloc/PageHeap.cpp:477-509 | Takes back exactly the active spans; anything else is refused and changes nothing |
| `PageHeapBlock.Allocator.MapObjectToSpan` | myring/src/tcmalloc/PageHeap.cpp:511-532 | Finds the active span that contains an address, exactly when there is one |
| `PageHeapBlock.Allocator.Purge` | myring/src/tcmalloc/PageHeap.cpp:534-583 | The nested loops return exactly the whole cached allocations and count them |
| `PageHeapBlock.SmallestLarger` | myring/src/tcmalloc/PageHeap.cpp:178-199 | The scan over the sizes finds the smallest larger one with a nonempty list |
| `PageHeapBlock.RegisterEach` | myring/src/tcmalloc/PageHeap.cpp:80-90 | The loop maps each page of a span to it |
| `PageHeapBlock.UnregisterEach` | myring/src/tcmalloc/PageHeap.cpp:92-102 | The loop takes each page of a span out of the map |
| `PageHeapBlock.EraseSpan` | myring/src/tcmalloc/PageHeap.cpp:119-146 | Removes a span from its list, dropping an emptied list, and from both boundary indexes |
| `PageHeapPurge.PurgeList` | myring/src/tcmalloc/PageHeap.cpp:537-577 | Filtering one list in place equals freeing its whole spans one after the other |
| `SizeClass.Index` | myring/include/tcmalloc/SizeClass.hpp:136-144 | The table lookup returns the smallest class that holds the request, and 36 for a request that is not small |
| `SizeClass.BuildClassIndexBySize` | myring/include/tcmalloc/SizeClass.hpp:51-60 | Each slot of the table holds the smallest class for its rounded size |
| `SizeClass.FindClassIndexSlow` | myring/include/tcmalloc/SizeClass.hpp:41-49 | The scan finds the smallest class |
| `SizeClass.RoundingKeepsClass` | myring/include/tcmalloc/SizeClass.hpp:37-39 | Rounding up to the alignment never changes the class |
| `SizeClass.SizeOfClassFindsClass` | myring/src/tcmalloc/MiniMalloc.cpp:118 | Looking up the size recorded in a span finds the span's own class |
| `SizeClass.SpanHoldsBatch` | myring/include/tcmalloc/SizeClass.hpp:205-225 | The span fetched for a class holds at least one whole batch |
| `SizeClass.SizesInSteps` | myring/include/tcmalloc/SizeClass.hpp:16-32 | The table is eight steps of 8 and from there four equal steps to each doubling |
| `SizeClass.WasteIsBounded` | myring/include/tcmalloc/SizeClass.hpp:123-144 | A request is small exactly when some class holds it, and then wastes less than 8 bytes or less than a quarter of itself |
| `SizeClass.BatchFillsTarget` | myring/include/tcmalloc/SizeClass.hpp:176-225 | A batch is as many objects as fit into 64 KB, but at most 64; a span is eight pages and filled as far as whole objects do |
| `SizeClass.RangesBySize` | myring/src/tcmalloc/TransferCache.cpp:162-186 | Eight classes each keep 64, 32 and 16 ranges, the largest twelve keep 8 |
| `FreeList.List.Push` | myring/include/tcmalloc/FreeList.hpp:36-41 | Prepends to the list the next words stand for and writes no other word |
| `FreeList.List.Pop` | myring/include/tcmalloc/FreeList.hpp:43-53 | Removes and returns the first object, or null when there is none |
| `FreeList.List.PushRange` | myring/include/tcmalloc/FreeList.hpp:55-63 | Prepends a whole linked range |
| `FreeList.List.PopRange` | myring/include/tcmalloc/FreeList.hpp:65-86 | Cuts off the first `n` objects, or all, as a linked list of its own |
| `FreeList.List.CountIf` | myring/include/tcmalloc/FreeList.hpp:94-106 | Counts the objects that satisfy the predicate |
| `FreeList.List.RemoveIf` | myring/include/tcmalloc/FreeList.hpp:109-132 | Unlinks exactly the objects that satisfy the predicate, keeps the order of the others and writes no word outside the list |
| `FreeList.LinkedFrame` | myring/include/tcmalloc/FreeList.hpp:135-137 | Operations on one list do not affect a list with other objects |
| `TierTheorems.ObjectsAreConserved` | myring/src/tcmalloc/CentralCache.cpp:15-286 | In every reachable state of any number of threads each object of each span cut into objects is in exactly one of the user's hands, one thread list, one transfer range, one range in flight or the central list, and nothing else is in any of them |
| `TierTheorems.SmallBlocksApart` | myring/src/tcmalloc/MiniMalloc.cpp:42-137 | Two small blocks in use never overlap |
| `TierTheorems.LargeBlocksApart` | myring/src/tcmalloc/MiniMalloc.cpp:58-82 | A large block in use overlaps neither another large block nor a small one |
| `TierTheorems.LargeBlockHolds` | myring/src/tcmalloc/MiniMalloc.cpp:64-69 | The span of a large block is as large as was asked for and wastes less than a page |
| `TierTheorems.CountsAreExact` | myring/src/tcmalloc/CentralCache.cpp:152-286 | In every reachable state `central_free_count` is the number of the span's objects on the central list, and never all of them: at rest no span is wholly free |
| `TierTheorems.RangesAreShort` | myring/src/tcmalloc/ThreadCache.cpp:281-287 | In every reachable state thread lists, transfer ranges and ranges in flight are shorter than two batches, and no transfer cache holds more ranges than its maximum |
| `TierTheorems.StepKeeps` | myring/src/tcmalloc/CentralCache.cpp:15-286 | Every critical section of the tiers and of the page heap below them keeps all of this |
| `TierTheorems.FetchNewStep` | myring/src/tcmalloc/CentralCache.cpp:91-146 | Cutting a new span and taking the first batch keeps the invariant and leaves the new span not wholly free |
| `TierTheorems.GiveStep` | myring/src/tcmalloc/CentralCache.cpp:50-89 | A returned range keeps the invariant, and every wholly free span is gone afterwards |
| `TierTheorems.FreeBlockKeeps` | myring/src/tcmalloc/ThreadCache.cpp:54-93 | A block freed by any thread goes to the list of its own class; a list that reaches two batches is cut back |
| `TierTheorems.DrainKeeps` | myring/src/tcmalloc/TransferCache.cpp:93-121 | Draining a class moves all its ranges and loses none |
| `TierChecks.ReturnChecksHold` | myring/src/tcmalloc/CentralCache.cpp:210-286 | In every run, at each turn of the loop that ends a return, the objects counted on the list and those unlinked from it are as many as the span's own count, so both asserts hold and neither skip is taken; a span is retired exactly when that count is complete |
| `TierSpans.AllCentral` | myring/src/tcmalloc/CentralCache.cpp:227-267 | A span whose count is complete has every object on the central list |
| `TierSpans.RetireKeeps` | myring/src/tcmalloc/CentralCache.cpp:254-284 | Giving a wholly free span back takes exactly its objects off the list and keeps every other count exact |
| `TierChecks.ReturnsNeverOverflow` | myring/src/tcmalloc/CentralCache.cpp:178-198 | In every run, before each increment of a return the span is found and its count is below its number of objects |
| `TierChecks.FetchesNeverUnderflow` | myring/src/tcmalloc/CentralCache.cpp:152-173 | In every run, before each decrement of a fetch, from a list that was there or a span just cut, the span is found and its count is positive |
| `TierCounts.EnoughFree` | myring/src/tcmalloc/CentralCache.cpp:152-173 | The count of each span covers the objects fetched from it, so the assert on fetch holds |
| `TierCounts.OnFetchCounts` | myring/src/tcmalloc/CentralCache.cpp:152-173 | The loop over a fetched range lowers each span's count by its objects in the range and nothing else |
| `TierCounts.OnReleaseCounts` | myring/src/tcmalloc/CentralCache.cpp:178-198 | The loop over a returned range raises each span's count by its objects in the range and nothing else |
| `TierInvariant.FindsClass` | myring/src/tcmalloc/MiniMalloc.cpp:19-38 | The span and class of every object are found again from its address |
| `TierInvariant.ObjectInside` | myring/src/tcmalloc/CentralCache.cpp:120-135 | Every object lies inside its span |
| `TierBlock.CarveSpan` | myring/src/tcmalloc/CentralCache.cpp:120-135 | The loop threads the objects of a new span into one list in address order |
| `TierBlock.OnFetchRange` | myring/src/tcmalloc/CentralCache.cpp:152-173 | The loop equals the decrement on values |
| `TierBlock.OnReleaseRange` | myring/src/tcmalloc/CentralCache.cpp:178-198 | The loop equals the increment on values |
| `TierBlock.ReleaseEmptySpans` | myring/src/tcmalloc/CentralCache.cpp:210-286 | The loop that erases from the span vector as it goes equals looking at each span once |
| `TierBlock.Allocator.FetchRange` | myring/src/tcmalloc/CentralCache.cpp:15-48 | Hands out a range exactly when the list is not empty or the page heap has a span; failure changes nothing |
| `TierBlock.Allocator.ReleaseRange` | myring/src/tcmalloc/CentralCache.cpp:50-89 | A returned range is counted, linked and wholly free spans are given back, as one step |
| `TierBlock.Allocator.MiniFree` | myring/src/tcmalloc/MiniMalloc.cpp:85-137 | Every address: one taken for a small block goes to its class list, a large block at its start goes to the page heap, and null, unknown, misaligned and inner addresses change nothing; the allocator stays valid exactly when a small address had been handed out |
| `TierFree.FreesAccept` | myring/src/tcmalloc/MiniMalloc.cpp:19-38 | In every reachable state an address passes for a small block exactly when it is an object of a span of that class, or the start of the part behind the last object that is too short for another |
| `TierFree.FreeKeepsExactly` | myring/src/tcmalloc/MiniMalloc.cpp:114-119 | Freeing an accepted address keeps the allocator sound if and only if the address was in use |
| `TierMoves.SpillUsesVector` | myring/src/tcmalloc/TransferCache.cpp:66-90 | A spilled range goes to the transfer vector exactly while that has room, and nothing else moves |
| `TierMoves.RefillUndoesSpill` | myring/src/tcmalloc/TransferCache.cpp:15-90 | The range spilled last comes back first: refilling undoes spilling |
| `TierMoves.FreeGoesToFront` | myring/src/tcmalloc/ThreadCache.cpp:54-93 | A freed block goes to the front of its list, which is cut back by one batch exactly when it reaches two |
| `TierMoves.PopUndoesFree` | myring/src/tcmalloc/ThreadCache.cpp:23-93 | The block freed last is handed out first: allocating undoes freeing |
| `TierMoves.FetchMovesBatch` | myring/src/tcmalloc/CentralCache.cpp:15-48 | A fetch moves exactly the first batch of the central list, or what there is, to the thread and nothing else |
| `ThreadCache.Cache.Allocate` | myring/src/tcmalloc/ThreadCache.cpp:23-126 | Returns the first object of the list of the smallest fitting class, refilled by the fetched range, and keeps `cached_bytes_` the sum over the lists |
| `ThreadCache.Cache.Deallocate` | myring/src/tcmalloc/ThreadCache.cpp:54-93 | Afterwards `cached_bytes_` is at most the limit and the list below two batches, no object is lost, and below two batches something is given away exactly when the block would exceed the limit |
| `ThreadCache.Cache.Scavenge` | myring/src/tcmalloc/ThreadCache.cpp:157-205 | For limits that do not wrap ends at or below three quarters of the limit and was above them before the last gift; at most two passes, none exactly when it was there already; loses no object |
| `ThreadCache.Cache.Pass` | myring/src/tcmalloc/ThreadCache.cpp:182-199 | One pass takes a batch off each class from the largest down to where the target is reached, and touches none below |
| `ThreadCache.Cache.ReleaseAll` | myring/src/tcmalloc/ThreadCache.cpp:207-234 | Everything is given away and the counter ends at zero |
| `ThreadCache.Cache.SetCacheLimit` | myring/src/tcmalloc/ThreadCache.cpp:266-279 | The limit is at least 8 KB and holds at once; something is given away exactly when it was exceeded |
| `ThreadCache.TargetWithinLimit` | myring/src/tcmalloc/ThreadCache.cpp:164-168 | The target is positive and within the limit even when the 64-bit product wraps |
| `ThreadCache.TargetExactly` | myring/src/tcmalloc/ThreadCache.cpp:164-168 | The target is three quarters of the limit rounded down; with the product cut to 64 bits a quarter of what is left, but at least one byte |
| `ThreadCache.TotalCountsBytes` | myring/src/tcmalloc/ThreadCache.cpp:54-155 | The byte count changes by the class size for each object that comes or goes |
| `KcpTimer.HandleTick` | myring/src/Kcp/KcpManager.cpp:636-705 | After a tick a tick is armed again for the first node of the heap, or the fallback when there is none; every due session has been served exactly once and no other touched, every scheduled session has its node, and none is overdue |
| `KcpTimer.ServeDue` | myring/src/Kcp/KcpManager.cpp:644-695 | The loop ends, because each turn leaves one due node fewer, and serves no session twice |
| `KcpTimer.DelayIsBounded` | myring/src/Kcp/KcpManager.cpp:86-95 | A session is scheduled at least 1 ms and at most max(1, interval) ms ahead |
| `KcpTimer.DelayIsExact` | myring/src/Kcp/KcpManager.cpp:68-95 | A session is scheduled for the very time `ikcp_check` names: reached then and not before; for the present it is tried again after 1 ms |
| `KcpTimer.ServingFlushesOnTime` | myring/src/Kcp/KcpManager.cpp:683-690 | Serving a session flushes whenever its flush time has come, and serving it before the time Check gives changes nothing |
| `KcpTimer.ScheduleKeeps` | myring/src/Kcp/KcpManager.cpp:781-814 | Scheduling keeps every session's live node and the armed tick no later than any due time |
| `KcpTimer.TurnKeeps` | myring/src/Kcp/KcpManager.cpp:657-694 | Popping a due node, live or outdated, keeps every session's live node and lowers the number of due nodes by one |
| `KcpTimer.CollectIdle` | myring/src/Kcp/KcpManager.cpp:843-850 | Erases exactly the sessions idle for the timeout, measured on the wrapping 64-bit clock and, before it wraps, on the true one |
| `KcpTimer.KcpManager.MaybeCollectIdle` | myring/src/Kcp/KcpManager.cpp:829-851 | Once a second exactly the sessions idle for the timeout go, otherwise nothing |
| `KcpTimer.KcpManager.HandlePacket` | myring/src/Kcp/KcpManager.cpp:548-585 | A datagram without an identifier changes nothing, refused input is not followed by a schedule, accepted input hands the complete messages on and schedules the session within its interval; every scheduled session keeps its node and the tick stays armed early enough |
| `KcpTimer.KcpManager.SendInLoop` | myring/src/Kcp/KcpManager.cpp:945-974 | An empty message changes nothing, a refused one marks the session active and schedules nothing, an accepted one is queued, updated and scheduled within the interval; no other session changes |
| `KcpSession.DrainMessages` | myring/src/Kcp/KcpSession.cpp:161-191 | The loop ends, because every turn takes segments out of the block, and returns every message up to the first that is missing or empty |
| `KcpSession.DrainedInOrder` | myring/src/Kcp/KcpSession.cpp:161-191 | In every state of every run, what draining hands on continues the prefix of the messages the other endpoint accepted |
| `KcpSession.RecvExactly` | myring/thirdparty/ikcp/ikcp.c:398-475 | A read succeeds exactly when a message is complete and the buffer large enough, and returns all of it; a peek takes nothing, a failed read changes nothing |
| `KcpSession.InputMovesClock` | myring/src/Kcp/KcpSession.cpp:130-153 | An accepted datagram moves the clock on and at flush time is acknowledged at once; a refused one does not move it |
| `KcpSession.SendRefusesExactly` | myring/src/Kcp/KcpSession.cpp:205-226 | A message is refused exactly when it is empty, too long for an int or would take 128 fragments or more, and then nothing changes |
| `KcpTimer.KcpManager.Fire` | myring/src/Kcp/KcpManager.cpp:745-760 | Only the tick armed last has an effect, and then no session stays overdue |
| `Gossip.GossipIsBounded` | iota_proxy/src/kcp/KcpTunnel.cpp:483-612 | One broadcast causes at most F + F^2 + ... + F^ttl packets for fan-out F, and no envelope travels with ttl 0 |
| `Gossip.GossipDiesOut` | iota_proxy/src/kcp/KcpTunnel.cpp:483-544 | Every delivery and every loss strictly lowers what the packets in flight can still cause |
| `Gossip.HopLowers` | iota_proxy/src/ProxyRuntime.cpp:125-141 | Every hop, automatic or through the Kafka callback, sends on if and only if more than one hop was left and, for Kafka, the message was wanted, and then with exactly one hop less |
| `Gossip.AgainLowersExactly` | iota_proxy/src/kcp/KcpTunnel.cpp:402-411 | Broadcasting again lowers the ttl for every configuration exactly when the received ttl was not 0; metadata with ttl 0 restarts at the configured ttl |
| `Gossip.NewTwiceOnlyIfThrownOut` | iota_proxy/src/kcp/KcpTunnel.cpp:614-648 | A node takes one key for new twice only if it expired or was evicted in between |
| `Gossip.NodeTakesNewTwice` | iota_proxy/src/kcp/KcpTunnel.cpp:510-514 | In every run of the network a node takes one broadcast for new at two deliveries only if its cache dropped it in between or it had expired by the second |
| `Gossip.DeliveryIsRemembered` | iota_proxy/src/kcp/KcpTunnel.cpp:510-514 | A broadcast delivered to a node is remembered there, and one already remembered is not sent on |
| `Gossip.MarkSeen` | iota_proxy/src/kcp/KcpTunnel.cpp:614-648 | Expired entries go, a known key is refreshed and refused, a new one is added within the maximum |
| `Gossip.RememberedFor` | iota_proxy/src/kcp/KcpTunnel.cpp:614-648 | A broadcast marked now is remembered for exactly the configured time, and for good if that is zero |
| `Gossip.DeliverySends` | iota_proxy/src/kcp/KcpTunnel.cpp:483-544 | A delivery taken for new with hops left, and wanted if it is a Kafka frame, goes to every target with one hop less; any other just leaves the wire |
| `Gossip.OriginateSends` | iota_proxy/src/kcp/KcpTunnel.cpp:388-440 | A new broadcast goes to every target with all the hops the node starts with |
| `Gossip.StepKeeps` | iota_proxy/src/kcp/KcpTunnel.cpp:388-612 | Originating, relaying, dropping and losing keep the packet budget of every broadcast |
| `GossipEnvelope.DecodeEncode` | iota_proxy/src/kcp/KcpTunnel.cpp:97-176 | Every encodable envelope is decoded to itself |
| `GossipEnvelope.EncodeDecode` | iota_proxy/src/kcp/KcpTunnel.cpp:138-176 | Only bytes that an encoding produces are accepted as an envelope |
| `GossipEnvelope.EnvelopeLayout` | iota_proxy/src/kcp/KcpTunnel.cpp:97-136 | The bytes of an envelope, field by field and most significant byte first |
| `GossipEnvelope.DecodesExactly` | iota_proxy/src/kcp/KcpTunnel.cpp:138-176 | Bytes without the magic are an ordinary message; with it they are accepted exactly when they encode some envelope |
| `SipfwFile.EveryTableIsProper` | SIPFW/module/sipfw_k_file.c:711-805 | In every run of commands and file loads, legal, illegal or torn, each rule of table i has chain i and a legal action, and the tables can be saved and loaded back |
| `Sipfw.FailureChangesNothing` | SIPFW/module/sipfw_k_nl.c:315-946 | A command that returns an error leaves all tables as they were |
| `Sipfw.DoKeeps` | SIPFW/module/sipfw_k_nl.c:315-946 | Every command keeps every rule in its own chain with a legal action |
| `Sipfw.DeleteUndoesInsert` | SIPFW/module/sipfw_k_nl.c:806-825 | An inserted rule is found at its position, or at the end if that lies past it, and deleting there gives back the old list |
| `Sipfw.ReplaceUndoesReplace` | SIPFW/module/sipfw_k_nl.c:655-702 | Putting the old rule back undoes a replacement |
| `Sipfw.DeleteByContentAfterAppend` | SIPFW/module/sipfw_k_nl.c:504-547 | Deletion by content after an append takes the first copy; it undoes the append if and only if nothing but copies of the rule followed the first one |
| `Sipfw.BlankRuleMatches` | SIPFW/module/sipfw_k_common.c:265-439 | A rule with no field set matches exactly the packets of the four known protocols |
| `Sipfw.IsMatch` | SIPFW/module/sipfw_k_common.c:526-549 | The scan returns the first rule of one snapshot that matches, and none exactly when none matches |
| `SipfwMatch.FieldsSelect` | SIPFW/module/sipfw_k_common.c:175-439 | Each field that is set selects by its own part of the packet: addresses, protocol, ports, TCP flags, ICMP type and code, and the device of the chain; other protocols are never matched |
| `SipfwMatch.ReadOffMatches` | SIPFW/module/sipfw_k_common.c:175-439 | Conversely a rule whose fields are read off a packet of a known protocol, each of them or none, matches it |
| `SipfwMatch.ClearingWidens` | SIPFW/module/sipfw_k_common.c:175-439 | Clearing any field of a matching rule keeps the match |
| `SipfwMatch.NamesAgree` | SIPFW/module/sipfw_k_common.c:185-209 | Device names are compared byte by byte up to the first zero, and no more than eight |
| `SipfwMatch.SucceedsExactly` | SIPFW/module/sipfw_k_nl.c:315-946 | When each command succeeds, and with which error code it fails otherwise |
| `SipfwMatch.ChangesOneChain` | SIPFW/module/sipfw_k_nl.c:315-946 | A command that succeeds changes its own chain only, and there by its one rule; a flush of all chains empties all |
| `SipfwMatch.Positions` | SIPFW/module/sipfw_k_nl.c:806-825 | Insertion and removal move what comes after by one place and nothing else |
| `SipfwFile.FieldsAreKept` | SIPFW/module/sipfw_k_file.c:423-460 | A record says in each field what the rule says, and gives the rule back |
| `SipfwChain.Chain.Append` | SIPFW/module/sipfw_k_nl.c:315-390 | The walk to the tail appends; without memory nothing changes; number and snapshot agree with the list |
| `SipfwChain.Chain.Insert` | SIPFW/module/sipfw_k_nl.c:743-842 | The walk through the pointer to a pointer inserts before position min(number, n + 1), with both error codes; number and snapshot agree |
| `SipfwChain.Chain.Replace` | SIPFW/module/sipfw_k_nl.c:596-722 | Replaces exactly the given position, with all three error codes; number and snapshot agree |
| `SipfwChain.Chain.Delete` | SIPFW/module/sipfw_k_nl.c:410-575 | Removes the given position or the first rule equal in every field, with its error codes; number and snapshot agree |
| `SipfwChain.Chain.Flush` | SIPFW/module/sipfw_k_nl.c:917-923 | The chain, its number and its snapshot are empty |
| `SipfwChain.Chain.Match` | SIPFW/module/sipfw_k_common.c:472-553 | A packet meets the first match of one complete version of the list |
| `SipfwChain.Chain.Commit` | SIPFW/module/sipfw_k_nl.c:282-297 | After a commit number is the length and the snapshot is the list |
| `SipfwChain.CopyRules` | SIPFW/module/sipfw_k_common.c:114-126 | The copying loop yields the rules of the list in order |
| `SipfwChain.Walk` | SIPFW/module/sipfw_k_nl.c:655-659 | The walk stops at the pointer to the node at min(number - 1, n) |
| `SipfwFile.RuleFileRoundTrip` | SIPFW/module/sipfw_k_file.c:638-805 | The file saved from any reachable tables is legal, and loading it into empty tables gives the same three chains in order |
| `SipfwFile.LoadRuleFile` | SIPFW/module/sipfw_k_file.c:711-805 | A legal file appends its rules chain by chain and publishes matching snapshots; an illegal or torn one leaves no rules at all |
| `SipfwFile.SaveRuleFile` | SIPFW/module/sipfw_k_file.c:638-709 | Writes the snapshots chain by chain, one record per rule |
| `TcpFrames.ChunkingDoesNotMatter` | iota_proxy/src/network/TcpIngress.cpp:231-274 | Two ways to cut one stream into chunks that both leave the connection open deliver the same frames and keep the same rest |
| `TcpFrames.StaysOpenExactly` | iota_proxy/src/network/TcpIngress.cpp:231-274 | Over any run of chunks the connection stays open if and only if the stream has no bad header and each chunk fits behind what the chunks before it left |
| `TcpFrames.ByteAtATime` | iota_proxy/src/network/TcpIngress.cpp:231-274 | Delivered byte by byte a stream closes the connection exactly on a bad header |
| `TcpFrames.ClosingDependsOnChunking` | iota_proxy/src/network/TcpIngress.cpp:240-248 | Whether a stream closes the connection depends on how it is cut if and only if it has no bad header and is longer than one largest frame |
| `TcpFrames.EveryLimitDependsOnChunking` | iota_proxy/src/network/TcpIngress.cpp:240-248 | For every limit there are two cuts of one stream of which one closes the connection and the other does not |
| `TcpFrames.Connection.HandleData` | iota_proxy/src/network/TcpIngress.cpp:215-291 | Closes exactly when the chunk does not fit into a buffer of one largest frame or a header announces too much, and then delivers nothing; otherwise frames and rest are the parse of all bytes received |
| `TcpFrames.Connection.Extract` | iota_proxy/src/network/TcpIngress.cpp:250-273 | The extraction loop equals the parse of the buffer |
| `TcpFrames.ParseMore` | iota_proxy/src/network/TcpIngress.cpp:250-273 | Parsing goes on where it stopped |
| `TcpFrames.ParseKeepsBytes` | iota_proxy/src/network/TcpIngress.cpp:271-272 | The frames followed by the rest are the bytes received |
| `TcpFrames.FramesDecode` | iota_proxy/src/frame/EdgeDataFrame.cpp:41-66 | Every frame delivered is accepted by the decoder and within the size limit |
| `TcpFrames.DecodeFrame` | iota_proxy/src/frame/EdgeDataFrame.cpp:27-66 | The decoder gives back the address, timestamp and payload a frame was written from |
| `TcpFrames.ParseFrames` | iota_proxy/src/network/TcpIngress.cpp:250-273 | A stream of frames as they are written, cut off inside a header, is parsed into exactly those frames and the piece is kept |
| `TcpFrames.ParseStops` | iota_proxy/src/network/TcpIngress.cpp:250-262 | A header that announces more than is allowed stops the parser behind the frames before it |
| `TcpFrames.TimestampValue` | iota_proxy/src/frame/EdgeDataFrame.cpp:16-23 | The timestamp is read most significant byte first |
| `TcpFrames.RestIsShort` | iota_proxy/src/network/TcpIngress.cpp:264-269 | What stays in the buffer is less than one largest frame |
| `TcpFrames.LoadTimestamp` | iota_proxy/src/frame/EdgeDataFrame.cpp:16-23 | The accumulating loop reads the big-endian timestamp |
| `Admission.BytesAreBounded` | iota_proxy/src/admission/AdmissionControl.cpp:69-144 | Over any run of calls with any clock readings tokens stay between zero and the capacity, and the bytes let in are at most the capacity plus what the advance of the refill clock earns |
| `Admission.CallKeeps` | iota_proxy/src/admission/AdmissionControl.cpp:69-86 | What one call lets in is paid for by tokens |
| `Admission.FullAfterOneSecond` | iota_proxy/src/admission/AdmissionControl.cpp:132-143 | After one second without calls the bucket is full, whatever it held |
| `Admission.RefillIsEven` | iota_proxy/src/admission/AdmissionControl.cpp:132-143 | From empty, a part of a second brings that part of the capacity |
| `Admission.RefillInSteps` | iota_proxy/src/admission/AdmissionControl.cpp:132-143 | Refilling on the way changes nothing |
| `Admission.CallPaysExactly` | iota_proxy/src/admission/AdmissionControl.cpp:69-86 | What is let in is exactly what leaves the refilled bucket; a refused request takes nothing |
| `Admission.AdmissionControl.TryAcceptBytes` | iota_proxy/src/admission/AdmissionControl.cpp:69-86 | Accepts exactly when the refilled tokens suffice, and then takes them |
| `Admission.AdmissionControl.RefillTokens` | iota_proxy/src/admission/AdmissionControl.cpp:120-144 | Refills by the time passed up to the capacity; a clock that goes backwards refills nothing |
| `Admission.AdmissionControl.TryAcceptStream` | iota_proxy/src/admission/AdmissionControl.cpp:42-58 | Accepts exactly when the stream is known or there is room; never more streams than the maximum |
| `Admission.AdmissionControl.ReleaseStream` | iota_proxy/src/admission/AdmissionControl.cpp:60-67 | Forgets the stream and no other |

## Left out

- Serial numbers and queue tickets are unbounded in the system theorems; `KcpSerial.SerialTestsAgree` says for which runs the 32-bit tests decide the same, `MpmcQueue.BeforeIsLess` for which distances the 64-bit ones do.
- Congestion-window growth and round-trip smoothing in KCP: `cwnd` and the retransmission timeout are arbitrary values wherever the code computes them, so every result holds for any of them.
- KcpRetransmit.WaitsExactly: timeouts below 2^29 ms; from there on sums of them wrap on the 32-bit clock.
- KcpRetransmit.TimeoutDoubles: likewise.
- KcpClock.FlushesKeepRhythm: intervals below 10 s; the code itself keeps them between 10 and 5000 ms.
- KCP stream mode, logging, empty messages, and failing allocations of segments.
- The counters `nsnd_que`, `nrcv_buf` and their like are the lengths of the queues; doubly linked queues are sequences.
- Weak memory in the lock-free queue: steps are sequentially consistent. Its waiting variants and the `empty`/`full` hints.
- Exceptions of the standard containers in the allocator, and the statistics `total_objects` and `object_count`.
- TierBlock.Allocator.FetchRange: what the page heap answers is a parameter constrained to be one of its steps, because the central lock is held while the heap's own lock is taken.
- ThreadCache.Cache.Allocate: the fetched range is a parameter shorter than two batches, which `TierTheorems.RangesAreShort` proves of every range the tiers hold.
- PageHeapBlock.Allocator.NewSpan: memory from the system is a parameter that overlaps no live span.
- KcpTimer.HandleTick: the heap of the standard library is a sequence from which some node that is due first is taken; failure of the timer service is left out.
- KcpTimer.KcpManager.HandlePacket: a session whose block cannot be allocated is left out; keys are numbers.
- KcpTimer.KcpManager.Fire: the congestion window each update computes is given by a function.
- Gossip.MarkSeen: the entry evicted from the hash map is arbitrary; the hash that ranks peers is left out, only the number of peers chosen matters.
- SipfwChain.Chain.Append: memory for the node itself is there; only the snapshot allocation can fail.
- SipfwFile.SaveRuleFile: every write succeeds; I/O errors are left out.
- SipfwFile.LoadRuleFile: allocation failures are left out; they end like an illegal file.
- Admission.BytesAreBounded: doubles are idealised as real numbers; the per-second statistics are left out.
- RCU grace periods and locking primitives of the kernel: a snapshot, once read, is a value.
- Listing rules to user space, the firewall's user tool, proc files, configuration and logs.
- io_uring, sockets, threads, object pools, TCP egress, discovery, routing, identity, Redis, Kafka, the Go services.
