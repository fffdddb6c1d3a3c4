# UDT transport: a verified model

UDT4 is a reliable byte and message transport over UDP, wrapped here for an event loop. The hard part is a sender and a
receiver that talk over a network which loses, duplicates and reorders packets, on data structures packed into arrays and
indexed by circular 30-bit sequence numbers. This project models that part in Dafny and proves it correct;
`dafny verify dfyconfig.toml` checks all of it.

## How it is built

1. **Numbers and layouts.** `SeqNo` relates the circular numbers to the unbounded ones they stand for. `Ring`, `Runs` and
   `Chain` describe the layout both loss lists share: runs of numbers, each in the array slot given by its distance from
   the head, threaded by index links.
2. **Data structures**, as classes that update arrays, links and cursors in place. `SndLossList` and `RcvLossList` refine
   finite sets, `SndBuffer` a sequence of blocks, `RcvBuffer` with `UnitQueue` a byte queue and (with `Messages`) a store
   of messages, `AckWindow` a bounded first-in first-out history. `Nak` is the loss report on the wire. `Collections`
   holds what several modules share.
3. **The protocol.** `Protocol` says in unbounded numbers what each handler does. `System` lets two ends and a network
   take these steps in any order and proves what holds in every reachable state: received bytes are a prefix of sent
   bytes, nothing is lost or invented, a slot is empty exactly if its number is in the loss list, and no packet of a peer
   is ever taken for an attack.
4. **The endpoints.** `SenderEnd` and `ReceiverEnd` are the handlers on the real data structures and circular counters,
   each proved to take exactly the step of `Protocol`. `Endpoints` puts two of them together: in a reachable state every
   handler's requirement holds for every packet in flight that is not too old, and handling it is the step of `System`.
   So what `System` proves of runs holds of the arrays, rings and counters. `LossListSize` settles how large the
   receiver's loss list must be for that.
5. **Message mode from end to end.** `MessageSystem` proves of every run that each message read is one whole message
   sent, cut to the reader's room, that none is read twice or discarded unread, that a read returns the first unread one
   once it is acknowledged, and that what is read after a message which must stay in order comes later in the stream.
   `MessageEnds` shows that the real sender and the real receiver take its steps.
6. **Side cores**, each with its own invariant: the send scheduler heap (`SndUList`), the receive timer list and its sweep
   (`RcvUList`), the write queue of a stream with the intrusive list under it (`WriteQueue`, `Queue`), multiplexer
   reference counts (`Multiplexer`) and streaming MD5 (`Md5`).

A handler is one atomic step. Ghost parameters carry the unbounded numbers; what a clock, the network, the application or
the congestion control decides is a parameter.

## What it relies on

- No packet is older than half the sequence space, less two receive buffers, and no ACK2 older than a round of ACK
  numbers (`Endpoints.Timely`). `SeqNo.CmpExact` says exactly when comparison is right beyond that.
- Twice the receive buffer is smaller than half the sequence space (`Endpoints.Connect`).
- A peer sends no empty data packet and its reports decode (both hold of a peer that runs this code).
- The draft in UDT4 describes 31-bit sequence and ACK numbers; the code uses 30 bits
  (UDT4/src/udt_core.cpp:78-80), and so does the model.

## Where the code does not keep a promise

- Heap order does not survive every removal: the last entry only moves down from the slot it fills.
  `SndUListModule.RemovedOrder` and, for rescheduling, `UpdateOrder` state when it does, and
  `MiddleRemovalBreaksOrder` is a run in which the entry due at 10 is taken before the one due at 3.
- `update` of an entry that is not in a full heap writes past the end of the array: only `insert` makes room, and nothing
  in the library calls it (`SndUListModule.SndUList.Update` returns false exactly then).
- `uvudt_try_write` reports all bytes as written when the transport refused the request for good and took none.
  `WriteQueueModule.Stream.TryWrite` states exactly when, `TryFresh` is an instance.
- The periodic loss report starts a run only while two words are left, so it may omit a single number that would fit
  (`Nak.AllReported` states when it is complete, `Nak.FitsButNotReported` is an instance).
- The search for a free unit passes over the last unit of an entry and, on its way back to where it began, over the units
  before its starting point, so it may find none although one is free. `UnitQueueModule.UnitQueue.GetNextAvailUnit` states
  exactly when, `FreeUnitMissed` is an instance.
- Closing a connection that a listener still queues leaves it in the queue while it leaves the open map
  (`MultiplexerModule.United.Close` states exactly when). If the listener is removed later, the code looks that
  connection up in the open map and follows a null pointer: `RemoveSocket` and `CheckBroken` state exactly when, and
  `ClosedWhileQueued` is such a run.
- A connection that fails after it was given its listener's multiplexer never releases the reference. Reference counts
  are the users plus the references lost (`MultiplexerModule.Counted`); `MultiplexerModule.United.NewConnection` states
  when one is lost, and `LostForGood` is a run that leaves a multiplexer without users behind.
- A complete message of one block that may be read out of order is not read when it arrives at the read position of a
  buffer without acknowledged data, because its offset 0 leaves the buffer looking empty; it has to wait until it is
  acknowledged or another block arrives (UDT4/src/buffer.cpp:380-381, 548-549). `Messages.LooksEmpty` and, for every run,
  `MessageSystem.MissedExactly` state exactly when, `RcvBufferModule.ArrivedButMissed` is a run on the real buffer.
- The receiver's loss list has as many slots as the flow-control size, which a UDT_FC set after UDT_RCVBUF lowers below
  the receive buffer (UDT4/src/udt_core.cpp:488-529). Then two runs of lost numbers may belong into one slot:
  `LossListSize.SizeExact` says that this can happen if and only if the receive buffer is more than two slots larger, and
  `LossListSize.RunOverwritten` lets the list overwrite its first run and answer with a number that is not the smallest
  lost one, which is what the receiver acknowledges next.
- While the ACK2s of a connection are lost, the number the sender is known to have lags behind. A whole round later the
  number to acknowledge looks like it, and no ACK goes out (`Protocol.AckWithheld`; `Protocol.AckGoesOut` is the rule).
- A write request of no bytes never reaches the transport, so it takes its fate from the last error on record
  (udtstream.c:357-363): it may fail though nothing was refused. `WriteQueueModule.Stream.FlushHead` states exactly when.
- In the wrapped layout the ACK history never takes its reset branch; the two cursors meet by themselves
  (`AckWindowModule.AckWindow.AcknowledgeWrapped`).

## Model

| member | source | states |
|---|---|---|
| SeqNo.OffAndCmp | UDT4/src/common.h:226-241 | for numbers closer than the threshold, `seqoff` of their residues is the true distance and `seqcmp` has the sign of the true difference, with -1 as ISN - 1 included |
| SeqNo.ThresholdIsTight | UDT4/src/common.h:226-227 | one step further `seqcmp` already answers with the wrong sign |
| SeqNo.CmpExact | UDT4/src/common.h:226-227 | exactly when `seqcmp` sees the later one of two numbers up to a whole round apart |
| SeqNo.OrdersWindow | UDT4/src/common.h:226-227 | `seqcmp` is a strict total order on any window narrower than the threshold |
| SeqNo.LenIsCount | UDT4/src/common.h:229-230 | `seqlen` of residues counts the numbers of a range |
| SeqNo.LenFromMinusOne | UDT4/src/common.h:229-230 | what `seqlen` gives when its first argument is the unwrapped ISN - 1 |
| SeqNo.IncIsSucc | UDT4/src/common.h:243-244 | `incseq` of a residue is the residue of the successor |
| SeqNo.DecIsPred | UDT4/src/common.h:246-247 | `decseq` of a residue is the residue of the predecessor |
| SeqNo.DecUndoesInc | UDT4/src/common.h:243-247 | `incseq` and `decseq` undo each other |
| SeqNo.IncByIsIterated | UDT4/src/common.h:249-250 | `incseq(s, k)` is k single increments, across the wrap |
| SeqNo.FitsInt32 | UDT4/src/common.h:226-250 | no result of these operations leaves 32 bits |
| SndLossListModule.SndLossList.constructor | UDT4/src/list.cpp:43-70 | an empty list of the given capacity |
| SndLossListModule.SndLossList.Insert | UDT4/src/list.cpp:85-255 | the set becomes its union with a..b and the result is exactly the number of new elements, wherever the wrap falls and whether or not the last-insert shortcut applies |
| SndLossListModule.SndLossList.InsertFirst | UDT4/src/list.cpp:89-104 | the same on an empty list |
| SndLossListModule.SndLossList.InsertPastHead | UDT4/src/list.cpp:126-193 | the same when a lies past the head |
| SndLossListModule.SndLossList.InsertAtRun | UDT4/src/list.cpp:128-150 | the same when a run already starts at a |
| SndLossListModule.SndLossList.AddNode | UDT4/src/list.cpp:163-176 | a new node before or between the others adds a..b, up to an overlap still to be coalesced |
| SndLossListModule.SndLossList.WalkTo | UDT4/src/list.cpp:153-161 | the walk from any node ends at the last node before a |
| SndLossListModule.SndLossList.Coalesce | UDT4/src/list.cpp:218-252 | coalescing leaves the set unchanged, separates the runs again and makes the length the cardinality |
| SndLossListModule.SndLossList.AbsorbNext | UDT4/src/list.cpp:219-251 | one absorbed node keeps the set and the length it accounts for |
| SndLossListModule.SndLossList.Remove | UDT4/src/list.cpp:257-367 | exactly the elements after the given number stay |
| SndLossListModule.SndLossList.RemovePastHead | UDT4/src/list.cpp:295-366 | the same when the number lies past the first element |
| SndLossListModule.SndLossList.CutAfter | UDT4/src/list.cpp:330-343 | a run is cut in two behind n without changing the set |
| SndLossListModule.SndLossList.DropPrefix | UDT4/src/list.cpp:348-365 | every node before the new head goes, with its elements |
| SndLossListModule.SndLossList.GetLossLength | UDT4/src/list.cpp:369-374 | the length is the cardinality of the set |
| SndLossListModule.SndLossList.GetLostSeq | UDT4/src/list.cpp:376-418 | the smallest element in circular order is returned and leaves the set; -1 exactly for the empty set |
| SndLossListModule.SndLossList.FitsIn | UDT4/src/udt_core.cpp:1128-1129 | numbers within one window no wider than the capacity fit the list |
| RcvLossListModule.RcvLossList.constructor | UDT4/src/list.cpp:422-443 | an empty list of the given capacity |
| RcvLossListModule.RcvLossList.Insert | UDT4/src/list.cpp:453-499 | appending a..b unions it to the set and keeps both directions of links, head and tail consistent |
| RcvLossListModule.RcvLossList.NewNode | UDT4/src/list.cpp:484-496 | exactly the slot's entries, the link to it and the tail change, whatever the slot held |
| RcvLossListModule.RcvLossList.Remove | UDT4/src/list.cpp:501-629 | the number leaves the set, and the answer is true exactly if it was in it |
| RcvLossListModule.RcvLossList.SearchBack | UDT4/src/list.cpp:579-582 | the backward search ends at the nearest used slot before the number |
| RcvLossListModule.RcvLossList.RemoveInside | UDT4/src/list.cpp:576-628 | the same when the number is not a node start |
| RcvLossListModule.RcvLossList.RemoveStart | UDT4/src/list.cpp:537-569 | the first number of a longer run goes and the node shifts one slot |
| RcvLossListModule.RcvLossList.RemoveSingle | UDT4/src/list.cpp:517-536 | a node of one number is unlinked from both sides |
| RcvLossListModule.RcvLossList.TrimEnd | UDT4/src/list.cpp:588-596 | the last number of a run goes |
| RcvLossListModule.RcvLossList.CutOut | UDT4/src/list.cpp:597-624 | a number inside a run goes and the rest becomes a node of its own |
| RcvLossListModule.RcvLossList.GetLossLength | UDT4/src/list.cpp:669-672 | the length is the cardinality of the set |
| RcvLossListModule.RcvLossList.Find | UDT4/src/list.cpp:649-667 | true exactly if some number of the range is lost |
| RcvLossListModule.RcvLossList.GetFirstLostSeq | UDT4/src/list.cpp:674-680 | the smallest lost number, -1 exactly for the empty set |
| RcvLossListModule.RcvLossList.GetLossArray | UDT4/src/list.cpp:682-703 | the array receives the encoding of the leading runs and nothing past the limit; how many runs is settled: each is written exactly while two words are left |
| RcvLossListModule.RcvLossList.Losses | UDT4/src/list.cpp:682-703 | the lost runs in increasing order, whose union is the set |
| Chain.MergeEffect | UDT4/src/list.cpp:221-248 | the array updates that absorb a node store the merged chain, with the same numbers |
| Chain.InsertEffect | UDT4/src/list.cpp:163-176 | the array updates that link a node in store the chain with the new run |
| Chain.SplitEffect | UDT4/src/list.cpp:330-343 | the array updates that cut a run store the chain of both parts, with the same numbers |
| Chain.AdvanceEffect | UDT4/src/list.cpp:399-413 | the array updates that shift a node one slot store the chain without its first number |
| Chain.UnlinkEffect | UDT4/src/list.cpp:393-398 | the array updates that pop a node store the chain without it |
| Chain.SplitBothWays | UDT4/src/list.cpp:597-624 | the same for the doubly linked layout |
| Chain.RunsCover | UDT4/src/list.cpp:682-703 | following the links visits exactly the numbers of the set |
| Chain.RunsIncrease | UDT4/src/list.cpp:682-703 | and visits them in increasing order |
| Nak.RoundTrip | UDT4/src/list.cpp:682-703 | decoding what the report encodes gives back the runs, whatever follows |
| Nak.DecodeOne | UDT4/src/udt_core.cpp:2679-2715 | one run, in one word or two, decodes to itself |
| Nak.WordsAre | UDT4/src/list.cpp:688-702 | a single number is one word; of two words the first, and only that, has its top bit set |
| Nak.EncodeAppend | UDT4/src/list.cpp:688-702 | a report grows by the encoding of one run at a time |
| Nak.StopsOnce | UDT4/src/list.cpp:682-703 | the limit settles how many runs are reported |
| Nak.AllReported | UDT4/src/list.cpp:682-703 | all runs are reported if and only if two words are left for the last one |
| Nak.FitsButNotReported | UDT4/src/list.cpp:682-703 | a single number in a report of one word would fit and is not reported |
| Bytes.FlattenCut | UDT4/src/buffer.cpp:134-155 | the blocks an application buffer is cut into concatenate to the buffer |
| Bytes.CutSize | UDT4/src/buffer.cpp:122-124 | the number of blocks is the length over the block size, rounded up |
| Bytes.CutAt | UDT4/src/buffer.cpp:137-142 | block i starts at i times the block size |
| SndBufferModule.SndBuffer.constructor | UDT4/src/buffer.cpp:47-92 | an empty ring of blocks |
| SndBufferModule.SndBuffer.AddBuffer | UDT4/src/buffer.cpp:120-164 | the contents grow by the blocks of data and the headers by those of one message; what was stored and sent is untouched |
| SndBufferModule.SndBuffer.Increase | UDT4/src/buffer.cpp:285-342 | the ring grows behind the last block: the used part keeps its order and place |
| SndBufferModule.SndBuffer.MakeRoom | UDT4/src/buffer.cpp:126-128 | the ring grows until the blocks fit |
| SndBufferModule.SndBuffer.Fill | UDT4/src/buffer.cpp:134-155 | exactly the free blocks behind the used part receive the pieces and their headers |
| SndBufferModule.SndBuffer.ReadNew | UDT4/src/buffer.cpp:217-230 | the next block never sent, if there is one, and the cursor moves past it |
| SndBufferModule.SndBuffer.ReadAt | UDT4/src/buffer.cpp:232-266 | the block offset steps behind the oldest one |
| SndBufferModule.SndBuffer.AckData | UDT4/src/buffer.cpp:268-278 | exactly the first offset blocks go |
| UnitQueueModule.UnitQueue.constructor | UDT4/src/queue.cpp:86-126 | a pool of free units |
| UnitQueueModule.UnitQueue.Occupy | UDT4/src/buffer.cpp:383-386 | one more unit in use, and the shared counter stays exact |
| UnitQueueModule.UnitQueue.Release | UDT4/src/buffer.cpp:408-411 | one unit less in use, and the shared counter stays exact |
| UnitQueueModule.UnitQueue.MarkRead | UDT4/src/buffer.cpp:526-527 | a unit read early stays in use |
| UnitQueueModule.UnitQueue.Recount | UDT4/src/queue.cpp:130-145 | the number of units in use, whatever the counter says |
| UnitQueueModule.UnitQueue.Increase | UDT4/src/queue.cpp:128-187 | the counter is corrected and the pool grows exactly when nine tenths are in use; no unit in use changes |
| UnitQueueModule.UnitQueue.GetNextAvailUnit | UDT4/src/queue.cpp:195-224 | a free unit of the pool, and none exactly if at most nine tenths are in use and every unit the search looks at is; a free unit from where the last search ended, other than the last of its entry, is found first |
| UnitQueueModule.UnitQueue.Search | UDT4/src/queue.cpp:203-219 | the scan ends with a free unit, or with none exactly if all units on its way are in use |
| UnitQueueModule.FreeUnitMissed | UDT4/src/queue.cpp:195-224 | in a pool of any size from three (the library makes pools of 32, UDT4/src/api.cpp:1643), two units in use, the first and the last but one, and the search finds none |
| RcvBufferModule.RcvBuffer.constructor | UDT4/src/buffer.cpp:346-358 | an empty ring |
| RcvBufferModule.RcvBuffer.AddData | UDT4/src/buffer.cpp:374-389 | the unit lands in the slot of its number and nowhere else; a taken slot refuses it and the unit stays free |
| RcvBufferModule.RcvBuffer.ReadBuffer | UDT4/src/buffer.cpp:391-426 | reads exactly what the byte-queue step returns, notch included, and releases each unit read to its end once |
| RcvBufferModule.RcvBuffer.AckData | UDT4/src/buffer.cpp:467-475 | the acknowledged part grows by len |
| RcvBufferModule.RcvBuffer.GetRcvDataSize | UDT4/src/buffer.cpp:483-489 | the number of acknowledged units |
| RcvBufferModule.RcvBuffer.GetAvailBufSize | UDT4/src/buffer.cpp:477-481 | the free slots but one |
| RcvBufferModule.ReadBesideAnother | UDT4/src/buffer.cpp:391-426 | reading one buffer leaves another buffer on the same pool as it was, and the shared counter right for both |
| RcvBufferModule.AddBesideAnother | UDT4/src/buffer.cpp:374-389 | so does storing a unit |
| RcvBufferModule.RcvBuffer.AddMsgUnit | UDT4/src/buffer.cpp:374-389 | message mode keeps its invariant when a framed unit arrives, and the unit's payload is what its slot then holds |
| RcvBufferModule.RcvBuffer.AckMsgUnits | UDT4/src/buffer.cpp:467-475 | and when units are acknowledged |
| RcvBufferModule.RcvBuffer.LookAhead | UDT4/src/buffer.cpp:566-580 | whether the message at the read position is whole as far as the acknowledged data goes |
| RcvBufferModule.RcvBuffer.SkipBad | UDT4/src/buffer.cpp:552-593 | where the skip loop stops and what it leaves |
| RcvBufferModule.RcvBuffer.FindMsg | UDT4/src/buffer.cpp:595-651 | the message found is whole, unread and allowed; none that ends earlier is; and nothing is found only if nothing may be delivered |
| RcvBufferModule.RcvBuffer.ReadMsg | UDT4/src/buffer.cpp:498-537 | each non-empty result is one whole unread message cut to len, the first to end of those that may be delivered; order-flagged messages come only once fully acknowledged; nothing unread is discarded; what stays stored is unchanged; and nothing is read exactly if nothing may be or the buffer has no acknowledged data and no offset noted past it |
| RcvBufferModule.ArrivedButMissed | UDT4/src/buffer.cpp:380-381 | a run: a one-block message that may be read early is not read on arrival, and is once it is acknowledged |
| RcvBufferModule.RcvBuffer.ReadAcked | UDT4/src/buffer.cpp:505-534 | the bytes of an acknowledged message, whose units are released |
| RcvBufferModule.RcvBuffer.ReadPastAck | UDT4/src/buffer.cpp:505-531 | the bytes of a message read early, whose units are kept and marked |
| Messages.AheadIs | UDT4/src/buffer.cpp:566-580 | the look-ahead fails exactly on a missing or read unit with no message end before it |
| Messages.SkippedIs | UDT4/src/buffer.cpp:552-593 | the skip loop stops at the first unread unit that starts a message the look-ahead accepts, or at the end of acknowledged data |
| Messages.SkipThenRead | UDT4/src/buffer.cpp:498-537 | the message the search finds after the skip loop is the first to end of all that may be delivered |
| Messages.SkipKeeps | UDT4/src/buffer.cpp:552-593 | for framed units the skip loop discards only units already read, and stops at an unread message |
| Messages.SkipDelivers | UDT4/src/buffer.cpp:552-593 | so it loses no message that may be delivered |
| Messages.ScanUnit | UDT4/src/buffer.cpp:603-620 | what the search remembers after an unread unit, and whether a message ends there |
| Messages.ScanHole | UDT4/src/buffer.cpp:621-625 | a missing or read unit restarts the search: no message runs across it |
| Messages.FirstAtStart | UDT4/src/buffer.cpp:600-641 | in the acknowledged part the first message to end starts at the read position |
| Messages.ReadEarly | UDT4/src/buffer.cpp:526-527 | a message read early leaves message mode's invariant intact |
| Messages.ReadInOrder | UDT4/src/buffer.cpp:519-534 | so does one read in order |
| Messages.LooksEmpty | UDT4/src/buffer.cpp:548-549 | a buffer without acknowledged data and no offset noted past it holds a message that may be delivered if and only if one of a single unread unit, free to be read early, sits at the read position |
| Messages.FramesFramed | UDT4/src/buffer.cpp:144-148 | appending the headers of a message keeps the stream framed |
| Messages.NumberedFramed | UDT4/src/buffer.cpp:144-148 | so the headers by number are framed, whatever the sender goes on with |
| MessageSystem.MessagesSafe | UDT4/src/buffer.cpp:498-652 | in every run each message read is exactly one message sent, cut to the reader's room; no block is read twice; and everything read after a message that must stay in order comes later in the stream |
| MessageSystem.LaterMayOvertake | UDT4/src/buffer.cpp:630-636 | a run in which a message that may be read early is read before an earlier one that must stay in order |
| MessageSystem.MissedExactly | UDT4/src/buffer.cpp:548-549 | in every run a read returns nothing although a message may be delivered if and only if no data is acknowledged, no offset is noted past the read position, and that message is one unread block right there, free to be read early |
| MessageSystem.AckedIsRead | UDT4/src/buffer.cpp:498-537 | in every run a read returns the first unread message once that is acknowledged, whole and cut to the reader's room |
| MessageSystem.MessageNumbers | UDT4/src/buffer.cpp:144-163 | in every run all blocks of the j-th message sent carry the number 1 + j % 0x1FFFFFFE, so messages fewer than 0x1FFFFFFE apart carry different ones |
| MessageSystem.NothingDiscarded | UDT4/src/buffer.cpp:552-593 | in every run the blocks behind the read position or marked as read are exactly those of the messages read |
| MessageSystem.AllRead | UDT4/src/buffer.cpp:498-652 | once the read position is past all blocks, each message sent was read exactly once |
| MessageSystem.RunInv | UDT4/src/buffer.cpp:498-652 | the invariant behind these results holds in every reachable state |
| MessageSystem.SendStep | UDT4/src/buffer.cpp:120-164 | sending a message keeps it |
| MessageSystem.TransmitStep | UDT4/src/udt_core.cpp:2843-2912 | transmitting a block, for the first time or again, keeps it |
| MessageSystem.ArriveStep | UDT4/src/buffer.cpp:374-389 | storing an arriving block keeps it |
| MessageSystem.AcknowledgeStep | UDT4/src/buffer.cpp:467-475 | acknowledging filled slots keeps it |
| MessageSystem.ReadStep | UDT4/src/buffer.cpp:498-537 | reading keeps it |
| MessageSystem.WholeIsSent | UDT4/src/buffer.cpp:144-148 | a whole message in the stream of headers is one of those sent |
| MessageSystem.ReadFaithful | UDT4/src/buffer.cpp:498-537 | what the units of a whole message hold is the data of the message sent |
| MessageEnds.Connect | UDT4/src/udt_core.cpp:971-1132 | a fresh sender and receiver show the initial state |
| MessageEnds.SendMessage | UDT4/src/udt_core.cpp:1619-1726 | sendmsg on the real sender is the send step, or nothing when the message does not fit |
| MessageEnds.PackMessage | UDT4/src/udt_core.cpp:2831-2956 | packing is the transmit step, with payload and header of its number |
| MessageEnds.ArriveMessage | UDT4/src/udt_core.cpp:2958-3058 | on the real receiver an arriving packet that is not too old is the arrival step, stored exactly if the ring has room, and the loss report it sends is the protocol's |
| MessageEnds.AckMessages | UDT4/src/udt_core.cpp:2210-2318 | the receiver's ACK timer is the acknowledgement step, which passes only filled slots, and the ACK sent is the protocol's |
| MessageEnds.ReadMessage | UDT4/src/udt_core.cpp:1728-1790 | recvmsg is the read step and returns the newest message read |
| MessageEnds.MessageEndsSafe | UDT4/src/buffer.cpp:498-652 | so at the real ends the messages read are messages sent, none of them twice |
| Protocol.RecvIsQueueRead | UDT4/src/buffer.cpp:391-426 | reading returns the next min(len, available) bytes and leaves the rest in order |
| Protocol.ExpiryMarks | UDT4/src/udt_core.cpp:3241-3250 | what the expiry marks as lost, and that it changes nothing else |
| Protocol.ResendsInOrder | UDT4/src/udt_core.cpp:2843-2877 | after the expiry the next packets are all that is unacknowledged, in order, each with the block it carried first, whatever the windows |
| Protocol.AckExact | UDT4/src/udt_core.cpp:2545-2582 | what a full ACK raises, forgets and sets, and when it breaks the connection instead |
| Protocol.LightAckEdge | UDT4/src/udt_core.cpp:2519-2524 | a light ACK raises the last ACK and leaves the number the flow window reaches to where it is |
| Protocol.InsecureIs | UDT4/src/udt_core.cpp:2681-2710 | the report handler gives up exactly on an interval that runs backwards or past what was sent |
| Protocol.NakExact | UDT4/src/udt_core.cpp:2669-2732 | a report marks its intervals up to the first bad one, as far as they are not acknowledged, and breaks the connection if and only if there is a bad one |
| Protocol.SendFills | UDT4/src/udt_core.cpp:1500-1524 | a send leaves bytes only if the buffer is full afterwards, and never exceeds the limit |
| Protocol.AcceptableIs | UDT4/src/udt_core.cpp:3019-3024 | a packet is stored exactly if its number lies in the free room and its slot is empty |
| Protocol.AckKinds | UDT4/src/udt_core.cpp:2214-2314 | a light request never sends a full ACK nor changes the receiver, any other never sends a light one; either carries the smallest number not received, and a full one acknowledges up to there, reports the room left and enters the history |
| Protocol.Min | UDT4/src/udt_core.cpp:2843 | the smallest lost number, for any non-empty set |
| Protocol.AckPointIs | UDT4/src/udt_core.cpp:2214-2219 | the ACK number is the smallest number not received |
| Protocol.ReceiveOk | UDT4/src/udt_core.cpp:3019-3055 | storing a packet keeps slots, losses and counters in step and never lowers the ACK number |
| Protocol.AckTimerOk | UDT4/src/udt_core.cpp:2221-2314 | an ACK moves the acknowledged data only past filled slots, and reports no more room than the buffer has |
| Protocol.AckGoesOut | UDT4/src/udt_core.cpp:2221-2314 | while ACK2s lag less than half the sequence space, an ACK goes out exactly if there is something the sender is not known to know, and it is new, or light, or due again |
| Protocol.AckWithheld | UDT4/src/udt_core.cpp:2221 | a whole round behind, no ACK goes out although there is something to acknowledge |
| Protocol.FindAck | UDT4/src/window.cpp:83-143 | the position of the first entry for an ACK number |
| System.StreamSafety | UDT4/src/udt_core.cpp:2831-3058 | over every interleaving of sends, transmissions, losses, duplications, reorderings, ACKs, light ACKs, loss reports and timeouts, the bytes received are a prefix of the bytes sent |
| System.Conservation | UDT4/src/udt_core.cpp:2512-3058 | accepted = delivered + readable + not yet acknowledged by the receiver, in every run |
| System.AllDelivered | UDT4/src/udt_core.cpp:1527-1617 | once the receiver has read up to the last block, it has all that was accepted |
| System.CountersOrdered | UDT4/src/udt_core.cpp:2545-2723 | SndLastDataAck <= SndLastAck <= ACK point <= RcvCurr + 1 <= SndCurr + 1 in every run, and the sender never takes a peer's packet for an attack |
| System.SlotsMatchLosses | UDT4/src/udt_core.cpp:3019-3055 | from the last ACK to the largest number received, a slot is empty exactly if its number is in the loss list |
| System.SamePayload | UDT4/src/udt_core.cpp:2843-2903 | every transmission of a number carries the same payload |
| System.NakMarks | UDT4/src/udt_core.cpp:2669-2732 | a loss report adds exactly the reported numbers not acknowledged yet |
| System.RunInv | UDT4/src/udt_core.cpp:2200-3257 | every reachable state satisfies the coupling invariant |
| System.SendStep | UDT4/src/udt_core.cpp:1420-1525 | accepting bytes keeps it |
| System.PackStep | UDT4/src/udt_core.cpp:2831-2956 | a transmission or retransmission keeps it |
| System.AckStep | UDT4/src/udt_core.cpp:2533-2582 | a full ACK, however late, keeps it |
| System.LightAckStep | UDT4/src/udt_core.cpp:2517-2527 | a light ACK keeps it |
| System.NakStep | UDT4/src/udt_core.cpp:2669-2732 | a loss report keeps it |
| System.DataStep | UDT4/src/udt_core.cpp:2958-3058 | a data packet keeps it |
| System.AckTimerStep | UDT4/src/udt_core.cpp:2210-2318 | sending an ACK keeps it |
| System.NakTimerStep | UDT4/src/udt_core.cpp:2331-2390 | sending a loss report keeps it |
| System.Ack2Step | UDT4/src/udt_core.cpp:2643-2667 | an ACK2 keeps it |
| System.ExpiryStep | UDT4/src/udt_core.cpp:3241-3250 | the expiry of the response timer keeps it |
| System.RecvStep | UDT4/src/udt_core.cpp:1605-1616 | reading keeps it |
| SenderEndModule.SenderEnd.constructor | UDT4/src/udt_core.cpp:971-1132 | the sender starts in the state the protocol starts in |
| SenderEndModule.SenderEnd.Pack | UDT4/src/udt_core.cpp:2831-2956 | on the real buffer, loss list and counters, packing takes exactly the protocol's step and sends its packet, with the header the number was framed with |
| SenderEndModule.SenderEnd.PackLost | UDT4/src/udt_core.cpp:2843-2877 | a lost number goes out with the payload and the header first sent under it |
| SenderEndModule.SenderEnd.PackNew | UDT4/src/udt_core.cpp:2878-2912 | a new block goes out exactly when flow and congestion window allow |
| SenderEndModule.SenderEnd.TakeNew | UDT4/src/udt_core.cpp:2884-2904 | the next new block, if there is one, with its header |
| SenderEndModule.SenderEnd.Send | UDT4/src/udt_core.cpp:1500-1524 | what the buffer takes of the application's bytes |
| SenderEndModule.SenderEnd.SendMsg | UDT4/src/udt_core.cpp:1619-1726 | a message is taken whole, framed, exactly if the buffer has room for all of it, and otherwise not at all |
| SenderEndModule.SenderEnd.ProcessAck | UDT4/src/udt_core.cpp:2542-2582 | a full ACK takes exactly the protocol's step |
| SenderEndModule.SenderEnd.AckBlocks | UDT4/src/udt_core.cpp:2564-2582 | the acknowledged blocks are released and their losses forgotten |
| SenderEndModule.SenderEnd.ProcessLightAck | UDT4/src/udt_core.cpp:2516-2527 | a light ACK raises the last ACK, leaves the number the flow window reaches to where it is, and changes nothing else |
| SenderEndModule.SenderEnd.ProcessNak | UDT4/src/udt_core.cpp:2669-2723 | decoding a report word by word takes exactly the protocol's step, the loss counter grows by the numbers that were new, and the connection breaks if and only if an interval runs backwards or past what was sent |
| SenderEndModule.SenderEnd.TakePair | UDT4/src/udt_core.cpp:2681-2701 | a pair of a report is refused exactly if it runs backwards or past what was sent, else exactly its numbers not acknowledged are marked |
| SenderEndModule.SenderEnd.TakeSingle | UDT4/src/udt_core.cpp:2702-2715 | a single number of a report is refused exactly if it lies past what was sent, else marked unless it is acknowledged |
| SenderEndModule.SenderEnd.Expire | UDT4/src/udt_core.cpp:3241-3250 | if something is unacknowledged and the loss list is empty, it then holds exactly the numbers from the last ACK to the last one sent and the loss counter grows by their count; otherwise nothing changes |
| ReceiverEndModule.ReceiverEnd.constructor | UDT4/src/udt_core.cpp:1115-1132 | the receiver starts in the state the protocol starts in |
| ReceiverEndModule.ReceiverEnd.ProcessData | UDT4/src/udt_core.cpp:2958-3058 | on the real ring, loss list and counters, a packet takes exactly the protocol's step, is stored exactly if its number lies in the free room and its slot is empty, and the report sent is the encoding of the gap |
| ReceiverEndModule.ReceiverEnd.Detect | UDT4/src/udt_core.cpp:3026-3055 | the gap in front of the packet is reported and recorded, or the one it fills is closed |
| ReceiverEndModule.ReceiverEnd.SendAck | UDT4/src/udt_core.cpp:2210-2318 | a light request sends at most a light ACK and leaves counters, ring and history as they are, any other one at most a full ACK; what is sent carries the smallest number not received, and a full ACK the new ACK number and the last one acknowledged; the step is the protocol's |
| ReceiverEndModule.ReceiverEnd.AckNumber | UDT4/src/udt_core.cpp:2214-2219 | the number to acknowledge |
| ReceiverEndModule.ReceiverEnd.SendFull | UDT4/src/udt_core.cpp:2242-2314 | a full ACK |
| ReceiverEndModule.ReceiverEnd.ProcessAck2 | UDT4/src/udt_core.cpp:2643-2667 | takes exactly the protocol's step on the ring of ACKs |
| ReceiverEndModule.ReceiverEnd.Receive | UDT4/src/udt_core.cpp:1605-1616 | returns exactly the bytes the protocol returns |
| ReceiverEndModule.ReceiverEnd.ProcessMsgData | UDT4/src/udt_core.cpp:2958-3058 | in message mode a packet takes the protocol's step too, and the unit stored shows the packet's header |
| ReceiverEndModule.ReceiverEnd.SendMsgAck | UDT4/src/udt_core.cpp:2210-2318 | in message mode sending an ACK takes the protocol's step too and leaves the stored units as they are |
| ReceiverEndModule.ReceiverEnd.ReceiveMsg | UDT4/src/udt_core.cpp:1728-1790 | recvmsg on the real receiver reads what the ring's `ReadMsg` reads and keeps ring, loss list and counters in step |
| ReceiverEndModule.ReceiverEnd.ReportLosses | UDT4/src/udt_core.cpp:2353-2378 | the periodic report encodes the leading runs of lost numbers that begin with two words to spare; all of them if and only if the last one does |
| ReceiverEndModule.FindHeld | UDT4/src/window.cpp:92-96 | looking up an ACK number as it travels finds the unbounded one |
| ReceiverEndModule.HistoryKept | UDT4/src/udt_core.cpp:2279-2311 | the ACK history stays consecutive and ordered |
| ReceiverEndModule.IncAckIsSucc | UDT4/src/common.h:264-265 | the ACK number wraps like the residue of its successor |
| LossListSize.LossesApart | UDT4/src/udt_core.cpp:1128-1131 | in a loss list at most two slots smaller than the receive buffer all lost numbers have slots of their own |
| LossListSize.ThreeArrivals | UDT4/src/udt_core.cpp:3026-3055 | otherwise three packets leave two runs a whole list apart, and the number to acknowledge is the first of them |
| LossListSize.SizeExact | UDT4/src/udt_core.cpp:488-529 | some packets leave two runs in one slot if and only if the receive buffer is more than two slots larger than the list |
| LossListSize.RunOverwritten | UDT4/src/list.cpp:453-499 | given the runs of such packets, the real list writes the last one over the first and then takes it for the smallest lost number |
| Endpoints.Connect | UDT4/src/udt_core.cpp:971-1132 | two fresh endpoints show the initial state of the system |
| Endpoints.DeliverData | UDT4/src/udt_core.cpp:2958-3058 | in a reachable state, delivering a data packet that is not too old to the real endpoint is the system's step, and the loss report it sends is the encoding of the one on the network |
| Endpoints.DeliverAck | UDT4/src/udt_core.cpp:2512-2582 | likewise a full ACK, and the answer carries its number |
| Endpoints.DeliverLightAck | UDT4/src/udt_core.cpp:2516-2527 | likewise a light ACK |
| Endpoints.DeliverNak | UDT4/src/udt_core.cpp:2669-2732 | likewise a loss report in its encoding |
| Endpoints.DeliverAck2 | UDT4/src/udt_core.cpp:2643-2667 | likewise an ACK2 |
| Endpoints.PackNext | UDT4/src/udt_core.cpp:2831-2956 | packing is the system's step and what travels is the packet it puts on the network, with the header of its number |
| Endpoints.AppSend | UDT4/src/udt_core.cpp:1420-1525 | sending is the system's step |
| Endpoints.AppRecv | UDT4/src/udt_core.cpp:1527-1617 | receiving is the system's step |
| Endpoints.AckTimer | UDT4/src/udt_core.cpp:2210-2318 | acknowledging is the system's step |
| Endpoints.NakTimer | UDT4/src/udt_core.cpp:2353-2378 | reporting is the system's step |
| Endpoints.ExpireTimer | UDT4/src/udt_core.cpp:3241-3250 | expiring is the system's step |
| Endpoints.EndpointsSafe | UDT4/src/udt_core.cpp:2831-3058 | so on the real data structures the bytes read are a prefix of the bytes accepted, and no packet of the peer is taken for an attack |
| Endpoints.DataFits | UDT4/src/udt_core.cpp:3019-3021 | every data packet in flight that is not too old meets the handler's requirement |
| Endpoints.AckFits | UDT4/src/udt_core.cpp:2545-2564 | every full ACK does |
| Endpoints.LightAckFits | UDT4/src/udt_core.cpp:2519-2524 | every light ACK does |
| Endpoints.NakFits | UDT4/src/udt_core.cpp:2681-2715 | every loss report does |
| Endpoints.Ack2Fits | UDT4/src/udt_core.cpp:2643-2655 | every ACK2 does |
| Endpoints.Window | UDT4/src/udt_core.cpp:2883-2884 | all counters of both ends lie within two receive buffers |
| AckWindowModule.AckWindow.constructor | UDT4/src/window.cpp:48-61 | an empty history |
| AckWindowModule.AckWindow.Store | UDT4/src/window.cpp:70-81 | a first-in first-out history of size - 1 entries: the oldest one goes when it is full |
| AckWindowModule.AckWindow.Acknowledge | UDT4/src/window.cpp:83-143 | the first entry for the number answers and goes with all older ones; -1 and no change if none is held |
| AckWindowModule.AckWindow.AcknowledgeStraight | UDT4/src/window.cpp:85-115 | the same while the entries do not wrap |
| AckWindowModule.AckWindow.AcknowledgeWrapped | UDT4/src/window.cpp:117-143 | the same while they wrap; the reset branch of this part is never taken |
| AckWindowModule.FindDistinct | UDT4/src/window.cpp:83-143 | for distinct ACK numbers the entry found is the one stored, exactly if it is still held |
| SndUListModule.SndUList.constructor | UDT4/src/queue.cpp:227-244 | an empty heap |
| SndUListModule.SndUList.Insert | UDT4/src/queue.cpp:256-281 | the array doubles exactly when it is full; the node is entered and heap order kept |
| SndUListModule.SndUList.InsertNode | UDT4/src/queue.cpp:356-402 | the node is entered unless it is there, `m_iHeapLoc` stays the exact inverse of the heap, the heap is the old one with one entry risen to its place, and heap order is kept |
| SndUListModule.SndUList.RemoveNode | UDT4/src/queue.cpp:404-443 | `m_iHeapLoc` stays the exact inverse; heap order is kept if and only if the last entry fits below the parent of the removed slot |
| SndUListModule.SndUList.SiftDown | UDT4/src/queue.cpp:415-435 | the heap is the old one with the entry sunk below its slot |
| SndUListModule.SndUList.Update | UDT4/src/queue.cpp:283-305 | an entry already waiting is left alone, send time included, unless it is to be rescheduled; otherwise it is due at once; no other entry changes its time; the new heap is exactly that of rescheduling, and the call fails exactly if the entry is new and the array full |
| SndUListModule.SndUList.Pop | UDT4/src/queue.cpp:307-337 | what comes out has the smallest send time and was due; the new heap is exactly that of the removal and, if it is sent again, the new entry; no other entry changes its time; an ordered heap stays ordered |
| SndUListModule.RootIsMin | UDT4/src/queue.cpp:317-320 | in an ordered heap no entry is due before the root |
| SndUListModule.MovedOrder | UDT4/src/queue.cpp:410-435 | when moving the last entry into the gap can and cannot be repaired by sifting down |
| SndUListModule.UpStep | UDT4/src/queue.cpp:370-383 | a swap upwards leaves at most one entry out of order |
| SndUListModule.DownStep | UDT4/src/queue.cpp:417-435 | a swap downwards leaves at most one entry out of order |
| SndUListModule.InsertedOrder | UDT4/src/queue.cpp:370-383 | an entry risen to its place leaves an ordered heap |
| SndUListModule.RemovedOrder | UDT4/src/queue.cpp:410-435 | a removal keeps heap order if and only if the last entry fits into the gap; if not, it stays there |
| SndUListModule.RiseMends | UDT4/src/queue.cpp:283-305 | a new entry that rises past an entry out of order mends the order if and only if it pulls an early enough one down to that entry's parent |
| SndUListModule.RescheduledOrder | UDT4/src/queue.cpp:283-305 | when removal and reinsertion together keep heap order |
| SndUListModule.UpdateOrder | UDT4/src/queue.cpp:283-305 | update keeps heap order if and only if it leaves the entry alone, or the entry is the root, or the last one fits into the gap, or the rise mends the order |
| SndUListModule.SndUList.NextTime | UDT4/src/queue.cpp:346-354 | the send time of the root, 0 for an empty heap |
| SndUListModule.MiddleRemovalBreaksOrder | UDT4/src/queue.cpp:404-443 | a run on the real list: after a removal from the middle the entry due at 10 comes before the one due at 3 |
| RcvUListModule.RcvUList.Insert | UDT4/src/queue.cpp:595-614 | the node is appended; links, ends and time order are kept |
| RcvUListModule.RcvUList.Remove | UDT4/src/queue.cpp:616-645 | exactly this node goes; links, ends and time order are kept |
| RcvUListModule.RcvUList.Update | UDT4/src/queue.cpp:647-681 | the node moves to the end with the current time; links, ends and time order are kept |
| RcvUListModule.RcvUList.Unlink | UDT4/src/queue.cpp:623-642 | bypassing a node leaves a well-linked list of the others |
| RcvUListModule.RcvUList.ServeHead | UDT4/src/queue.cpp:1195-1208 | an open socket moves to the end, another one leaves the list |
| RcvUListModule.RcvUList.Sweep | UDT4/src/queue.cpp:1187-1211 | the sweep ends; it served exactly the stale nodes, kept the open ones behind the others in order, dropped and unmarked the rest, and no stale node is left |
| Queue.Link.constructor | queue.h:45-50 | an empty queue |
| Queue.Empty | queue.h:39-40 | whether the queue has no member |
| Queue.Head | queue.h:42-43 | the first member |
| Queue.InsertTail | queue.h:92-99 | the link becomes the last member of a circular list linked both ways |
| Queue.Remove | queue.h:101-106 | exactly this member goes |
| WriteQueueModule.BufCount | udtstream.c:19-30 | the number of bytes in the buffers |
| WriteQueueModule.SendBufs | udtstream.c:334-355 | what the transport took is exactly what its answers allow, and the count is its length |
| WriteQueueModule.TookPrefix | udtstream.c:334-355 | what the answers allow is a prefix of the buffers, empty if and only if they are or the first answer is not positive |
| WriteQueueModule.TookAll | udtstream.c:334-355 | and everything, if all answers are positive |
| WriteQueueModule.Stream.constructor | udtstream.c:37-58 | an empty stream |
| WriteQueueModule.Stream.Write | udtstream.c:623-683 | the request joins the queue or is refused, each exactly when; what goes out is what the transport's answers allow of the first request, and nothing if others wait; a request fails exactly if it was offered, none of it was taken, and the last error on record is one and not that the transport is full: with something to send, the transport refused it for good; with nothing to send, whatever error is on record |
| WriteQueueModule.Stream.FlushHead | udtstream.c:308-409 | the transport takes what its answers allow of the head; the head leaves exactly if all of it was taken, or none and the error on record is not that the transport is full, sent if that error is none and failed otherwise; else it advances by the bytes taken |
| WriteQueueModule.Stream.Advance | udtstream.c:368-401 | exactly the bytes taken leave the buffers and the counter |
| WriteQueueModule.Stream.TakeHead | udtstream.c:365-402 | a request the transport took completely moves to the completed queue |
| WriteQueueModule.Stream.FailHead | udtstream.c:357-364 | a request of which nothing was taken leaves with its unsent bytes, with the error on record |
| WriteQueueModule.Stream.Finish | udtstream.c:284-303 | the head moves to the end of the completed queue, in order |
| WriteQueueModule.Stream.Callbacks | udtstream.c:411-428 | every completed request is called back once, in order |
| WriteQueueModule.Stream.TryWrite | udtstream.c:691-724 | nothing stays queued; a stream that is not writable or is closing refuses, and so does failed allocation; the result differs from the bytes taken if and only if the transport refused a non-empty request for good and nothing was queued before it |
| WriteQueueModule.TryFresh | udtstream.c:691-724 | on a fresh stream the result is the same whether the transport takes all bytes or refuses them |
| MultiplexerModule.United.constructor | UDT4/src/api.cpp:127-141 | no sockets, no multiplexers |
| MultiplexerModule.United.NewSocket | UDT4/src/api.cpp:301-365 | a fresh number, open and not bound |
| MultiplexerModule.United.NewConnection | UDT4/src/api.cpp:367-522 | each answer exactly when; the new socket shares its listener's multiplexer and joins its queue, which keeps all others but a broken connection of the same peer, which counts as closed; no other socket changes; a reference is lost if and only if the handshake passes all checks and the connection cannot be set up |
| MultiplexerModule.United.Bind | UDT4/src/api.cpp:567-602 | succeeds exactly if the socket is unbound, the address has the right length, and it may share a multiplexer or open one, and the socket gets that one; a shared one has the same version, packet size and port and allows it, and a new one is opened only if there is none such; the others keep what they were |
| MultiplexerModule.United.FindMux | UDT4/src/api.cpp:1587-1604 | a multiplexer of the same version, packet size and port that allows sharing, found if and only if there is one |
| MultiplexerModule.United.Listen | UDT4/src/api.cpp:649-694 | succeeds exactly if the socket listens already, or is bound, not set up for rendezvous and asks for a positive backlog; it then listens with an empty backlog, or goes on listening |
| MultiplexerModule.United.Accept | UDT4/src/api.cpp:696-778 | hands out the smallest queued number if there is one and moves it to the accepted ones; past the limit it moves but the call fails |
| MultiplexerModule.United.Close | UDT4/src/api.cpp:972-1037 | the maps stay disjoint; the listeners' queues keep to open sockets if and only if the closed socket was not queued |
| MultiplexerModule.United.CheckBroken | UDT4/src/api.cpp:1363-1442 | the round fails if and only if a due listener queues a socket that is not open; otherwise exactly the due sockets are forgotten, and an open socket stays open exactly if it is not broken or has to wait, and no forgotten listener queues it; every socket keeps its listener and multiplexer, one that stays also its status and broken flag, and a backlog loses exactly the connections that broke; each multiplexer loses one reference for each of its users forgotten, and goes if and only if that was its last |
| MultiplexerModule.United.Collect | UDT4/src/api.cpp:1377-1441 | both halves of such a round, and the sockets in between |
| MultiplexerModule.Swept | UDT4/src/api.cpp:1377-1441 | what the two halves together do to each socket |
| MultiplexerModule.SweptMuxes | UDT4/src/api.cpp:1504-1514 | what they do to each multiplexer |
| MultiplexerModule.United.CloseBroken | UDT4/src/api.cpp:1390-1412 | a broken socket leaves its listener's sets on the way, so every queue is as open as before |
| MultiplexerModule.United.RemoveSocket | UDT4/src/api.cpp:1444-1515 | the socket is forgotten, its queued connections are closed and marked broken, no other socket changes, its multiplexer loses one reference and is erased if and only if the socket was its last user and no reference was lost; the removal fails if and only if the socket queues one that is not open |
| MultiplexerModule.CountedDrop | UDT4/src/api.cpp:1504-1514 | the count stays users plus lost references when a user goes, and the multiplexer goes exactly with its last reference |
| MultiplexerModule.CountedBind | UDT4/src/api.cpp:1606-1650 | a first multiplexer counts its first user |
| MultiplexerModule.CountedAdd | UDT4/src/api.cpp:1653-1675 | a connection adds one user and one reference |
| MultiplexerModule.LossStays | UDT4/src/api.cpp:1504-1514 | a multiplexer that lost a reference is never erased |
| MultiplexerModule.United.LeakReference | UDT4/src/api.cpp:446-510 | a failed connection loses a reference: the count and the losses grow by one, and the users do not |
| MultiplexerModule.RemovedQueue | UDT4/src/api.cpp:1456-1475 | closing the connections one listener queues leaves the queues of the others as open as they were |
| MultiplexerModule.LeftQueue | UDT4/src/api.cpp:1397-1412 | so does closing a broken connection, for every listener |
| MultiplexerModule.ClosedWhileQueued | UDT4/src/api.cpp:1456-1475 | a run: a queued connection is closed, then its listener is closed and removed, and the removal fails |
| MultiplexerModule.LostForGood | UDT4/src/api.cpp:446-510 | a run: a connection fails, its listener goes, no socket is left, and the multiplexer still is |
| MultiplexerModule.RetiredQueues | UDT4/src/api.cpp:1017-1031 | closing a socket takes it out from under its listener exactly if it was queued |
| Md5Module.Md5.Append | UDT4/src/md5.cpp:334-370 | the running state is that of the whole message so far |
| Md5Module.Md5.Finish | UDT4/src/md5.cpp:372-393 | the digest is that of the message padded by sections 3.1 and 3.2 of RFC 1321 |
| Md5Module.Hash | UDT4/src/md5.cpp:313-393 | however the message is split, the digest is that of the whole |
| Md5Module.Md5.constructor | UDT4/src/md5.cpp:313-332 | the state before any byte, for either start |
| Md5Module.CountStep | UDT4/src/md5.cpp:345-349 | the two-word counter with its carry is 8 times the length modulo 2^64 |
| Md5Module.LengthBytes | UDT4/src/md5.cpp:384-386 | the length bytes are those of the 64-bit count |
| Md5Module.PaddedIs | UDT4/src/md5.cpp:387-390 | the padded message is a whole number of blocks, with the least padding |
| Md5Module.DigestReads | UDT4/src/md5.cpp:391-392 | read back four bytes at a time, least significant first, the digest is the words a, b, c, d in this order |
| Md5Module.PaddedReads | UDT4/src/md5.cpp:374-390 | the padding is a byte 0x80, zeros, and eight bytes that read back to the length in bits modulo 2^64 |
| Md5Module.InitBytes | UDT4/src/md5.cpp:313-322 | the starting state is that of section 3.3 of RFC 1321 |
| Md5Module.FoldNone | UDT4/src/md5.cpp:313-332 | with no block yet nothing is compressed |
| Md5Module.FoldStep | UDT4/src/md5.cpp:363-365 | one more block is one more compression |

## Left out

- Message time-to-live and drop requests, `dropMsg` and the range removal they use on the receiver's loss list: time-to-live is unlimited here.
- File transfer (`addBufferFromFile`, `readBufferToFile`, `sendfile`, `recvfile`): stream I/O around the same buffers.
- Connection setup, rendezvous, cookies, message authentication, address changes, epoll and select sets, event pipes.
- Congestion control, rate and round-trip estimates: the congestion window and all timers are parameters.
- The end of a connection after repeated expirations, keep-alive and shutdown packets, and blocking or timing out in `send` and `recv`.
- Locks and threads: each call or handler is one step.
- The info cache (`CCache`) and the socket hash table.
- Fairness: what a run must reach in the end. The theorems say what each state and each step of a run is.
- The block memory of the buffers: a block or unit holds its payload as a value, so copies cannot overlap.
- The punchhole variant of binding, and failed memory allocation outside `uvudt_write`.
- Endpoints.DeliverAck: the measured round trip and the send queue's wake-up have no counterpart, because they do not touch the counters.
- RcvBufferModule.RcvBuffer.ReadMsg: for a message larger than the buffer it says only that nothing is returned, because the scanner then answers without a whole message.
- RcvBufferModule.RcvBuffer.ReadBuffer: requires every acknowledged slot filled, which the protocol guarantees (`System.SlotsMatchLosses`).
- SndUListModule.SndUList.Update: when the call fails the code writes past the array, which the model does not follow.
- MultiplexerModule.United.RemoveSocket: when the removal fails the code follows a null pointer, which the model does not; the sockets closed up to then stay closed.
- Endpoints.Connect: requires a receive buffer at most two slots larger than the flow-control size, because otherwise the loss list may overwrite a run (`LossListSize.SizeExact`).
- ReceiverEndModule.ReceiverEnd.constructor: requires the same.
- MessageEnds.Connect: requires the same.
- SenderEndModule.SenderEnd.ProcessNak: a report cut off after a flagged word is not modelled, because the code then reads past its end.
- ReceiverEndModule.ReceiverEnd.ProcessData: requires a payload, because a peer that runs this code sends no empty block.
- SndUListModule.SndUList.Pop: what `packData` answers is a parameter, because packing is modelled in `SenderEnd`.
- RcvUListModule.RcvUList.Sweep: which sockets are open is fixed during one sweep, because each is looked at once.
- WriteQueueModule.Stream.Callbacks: a callback does not call back into the stream.
- WriteQueueModule.Stream.Write: only the flags that refuse a write are modelled, as two fields.
- MultiplexerModule.United.CheckBroken: timers and receive buffers enter as two sets, and a socket changes maps at once, because the code postpones the erasure only for its iterator.
- MultiplexerModule.United.NewSocket: requires that socket numbers have not run out.
- Md5Module.Md5.Append: requires a length that leaves room for the offset in 32 bits; the compression function is a parameter.
