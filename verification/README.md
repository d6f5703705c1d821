# ISHTP transport: a verified model

This project models the message layer between a host and the firmware of an Intel PSE or ISH
(the ISHTP transport of the `intel-ish-hid` driver, with its character device and firmware
loader) and proves what its parts keep. The text modelled is the linux-6.5 copy of the driver;
the 5.15 copy is modelled where it differs, in client transmission. `dafny verify dfyconfig.toml`
checks everything.

Most parts come twice. A **state machine** on values has one step for every critical section of
the driver, so that calls may interleave, messages may be refused, and resets may happen at any
point; its theorems are about every run. A **class** has the driver's fields, loops and in-place
updates, and each of its methods is proved to do what the machine does. History that the driver
does not keep (what was submitted, sent, delivered) is in fields that say so, and theorems beside
the machines say from the events alone what these fields hold. What the surroundings decide
(refusals, a busy doorbell, a device that is down) is an input everywhere.

| file | what it models |
|---|---|
| `Wire.dfy` | fragments of messages, their joining, streams of several clients |
| `TxLoop.dfy`, `TxEngine.dfy`, `TxCall.dfy`, `TxContent.dfy`, `TxClient.dfy` | 6.5 client transmission: the fragment loop and the offset that another call may reset in it; transmit ring and single credit; a call as a whole; what gets into the queue; the driver's functions |
| `CallbackEngine.dfy`, `CallbackContent.dfy`, `CallbackRace.dfy`, `TxCallbacks.dfy` | 5.15 client transmission, one fragment per completion callback: the steps of one client; what gets into the queue; what overlapping calls do to it; the driver's functions, with the queue drain, the callback and the enqueue calling each other |
| `RxEngine.dfy`, `RxRuns.dfy`, `RxFaults.dfy` | receive buffers, the receive credit and reassembly for one client: the steps, what holds of runs whose messages fit, and what happens otherwise |
| `RxDevice.dfy`, `RxReceiver.dfy` | all clients on the shared read list, and the driver's functions |
| `Hbm.dfy`, `HbmDevice.dfy` | the host bus message handshake, enumeration and reset cycles |
| `BhRing.dfy` | the byte ring from the interrupt to the bottom half, and its work item |
| `Bits.dfy`, `Registers.dfy`, `IpcQueue.dfy`, `Transport.dfy` | shifts and masks, headers and words in the registers, the pooled transmit queue with its doorbell, and all of transmission put together |
| `DmaSlots.dfy` | the slot map of the DMA transmit buffer |
| `HostIds.dfy` | host client ids and handles |
| `PseRead.dfy` | the byte stream that the character device makes of received messages |
| `FwLoader.dfy` | the two image-splitting loops of the firmware loader |
| `Lists.dfy`, `Options.dfy` | pools of nodes that move between lists; optional values |

Where the code does not do what its design asks for on every input, the code is modelled as it is,
and the exact condition is proved:

- An empty message in 6.5 sends no fragment and leaves `sending` set, so the next message goes out
  without a credit. 5.15 sends one empty fragment. The theorems about credits and contents in 6.5
  are for non-empty messages; `TxCall` has the exact condition and the consequence.
- In both drivers a call that is about to send resets the offset before it takes the lock. One
  message and one credit are enough for two calls to be about to send, the sender's and the
  flow-control handler's; the second can then send the first back to the beginning of its message
  (in 6.5 within the loop, in 5.15 between any two fragments), and the firmware joins bytes that were
  never submitted. A message of one fragment cannot be hit, and any longer one can. Whole calls
  one after the other do not overlap.
- In 5.15 a fragment is written after the lock is dropped. A firmware that gives a credit before it
  has the message of the last one may then get two messages in the wrong order.
- A fragment that overruns its receive buffer takes the buffer away and leaves the credit out. If it
  was the last of its message, or no other buffer is posted or on its way to be, the client never
  receives again; otherwise the rest of the message goes into the next buffer and is delivered as a
  message of its own.
- A read start whose flow-control message is refused takes its buffer back from whatever list it is
  on. When two read starts overlap, a completed message may be lost that way, or the buffer be free
  and with the client at once. When they do not overlap, neither happens.
- The bottom half takes one message per run, and requesting a work that is pending does nothing;
  messages then wait in the ring until others arrive.
- The enumeration counters have eight bits: address 255 wraps the index, and 255 clients make the
  announcing loop endless.
- An enumeration response overwrites the address map before it is checked. When the hardware reset
  that follows fails, the enumeration goes on under the other map.
- Without memory for the client table, the enumeration goes on all the same, and writes through a
  null pointer.
- A link refused with -ENODEV keeps its handle.
- DMA release takes its size as `uint8_t`.
- The firmware loader adds its offsets in 32 bits, and its DMA limit can round down to zero.

What is relied on: critical sections are atomic; the firmware starts a message only against a
credit, and for the 5.15 streams gives its next credit only when it can have the message of the
last; in the interrupt's bottom half, `schedule_work` and the start of a work item behave as the
kernel documents them; after every datagram it takes, the firmware sends its receive-complete
indication; the reset work runs `ishtp_reset_handler` before `ishtp_reset_compl_handler`; every
datagram carries a doorbell value with the busy bit, as all callers set it.

## Model

| member | source | states |
|---|---|---|
| `Wire.FragmentsShape` | src/intel-ish-hid-linux-6.5/ishtp/client.c:681-706 | every fragment but the last is full and unmarked, only the last is marked complete, and a non-empty message has no empty fragment |
| `Wire.FragmentsPayload` | src/intel-ish-hid-linux-6.5/ishtp/client.c:681-706 | the fragments of a message carry exactly its bytes, in order |
| `Wire.FragmentCount` | src/intel-ish-hid-linux-6.5/ishtp/client.c:681-706 | a message needs its size over the mtu, rounded up, and at least one fragment |
| `Wire.RoundTrip` | src/intel-ish-hid-linux-6.5/ishtp/client.c:881-925 | cutting any messages into fragments and joining them by the msg_complete marks is the identity |
| `Wire.PrefixRoundTrip` | src/intel-ish-hid-linux-6.5/ishtp/client.c:881-925 | a receiver that has seen any prefix of the fragments holds a prefix of the messages |
| `TxEngine.RingAndOrder` | src/intel-ish-hid-linux-6.5/ishtp/client.c:572-716 | over every run, with empty messages, refused fragments and resets of the offset between any two of its accesses: each ring buffer is at one place, the free count is the length of the free list, and messages start in submission order, none lost or repeated |
| `TxEngine.SubmitExact` | src/intel-ish-hid-linux-6.5/ishtp/client.c:572-593 | a submission appends exactly the given message, whole, in the buffer the call holds, behind all others; it can happen exactly when such a buffer is held and no message is being cut |
| `TxEngine.GivenExact` | src/intel-ish-hid-linux-6.5/ishtp/hbm.c:797-805 | over every run from any state: what is recorded as submitted and as credited is exactly what the submissions and flow-control messages that happened gave |
| `TxEngine.TransmitConservation` | src/intel-ish-hid-linux-6.5/ishtp/client.c:636-735 | over every run of non-empty messages, whatever is refused and wherever the offset is reset: at most one credit; credits accepted are the credit held and one per message started; at rest a queued message and a free credit never coexist |
| `TxCall.SendingClearIffNonEmpty` | src/intel-ish-hid-linux-6.5/ishtp/client.c:670-706 | `sending` is clear after a send if and only if the message had bytes |
| `TxCall.SendsFragmentsIffNonEmpty` | src/intel-ish-hid-linux-6.5/ishtp/client.c:681-706 | a message goes out as its fragments if and only if it has bytes |
| `TxCall.EmptyMessageBreaksConservation` | src/intel-ish-hid-linux-6.5/ishtp/client.c:665-675 | after an empty message the next one starts without a credit, and the account no longer balances |
| `TxCall.TwoQueuedReachable` | src/intel-ish-hid-linux-6.5/ishtp/client.c:572-596 | such a state is reached with two messages and one credit |
| `TxCall.CallRuns` | src/intel-ish-hid-linux-6.5/ishtp/client.c:636-735 | a send that no other call disturbs takes the oldest message against a credit, offers all its fragments to the IPC queue, and frees its buffer |
| `TxCall.TwoCallsReachable` | src/intel-ish-hid-linux-6.5/ishtp/client.c:588-596 | with one message and one credit, the sender and the flow-control handler can both be about to send |
| `TxCall.RaceRepeatsFragment` | src/intel-ish-hid-linux-6.5/ishtp/client.c:725-733 | then, with every enqueue accepted, the firmware can join the first fragment followed by the whole message, which was never submitted, for any message of more than one fragment |
| `TxContent.StreamOfStarted` | src/intel-ish-hid-linux-6.5/ishtp/client.c:681-706 | the fragments offered to the IPC queue are those of the started messages, in order, and those accepted are no more, and all if none is refused: over every interleaving if messages have one fragment, and for messages of any size if calls that send do not overlap |
| `TxContent.DeliveredAsSubmitted` | src/intel-ish-hid-linux-6.5/ishtp/client.c:528-735 | on the same runs, what is joined from the stream are messages the client submitted, in order, and all that were started once none is being cut |
| `TxContent.SizeSafeExact` | src/intel-ish-hid-linux-6.5/ishtp/client.c:725-733 | over all runs in which no enqueue is refused, a client that sends messages of n bytes is only ever heard to send those it submitted if and only if n is at most the mtu |
| `TxContent.AccountSafeExact` | src/intel-ish-hid-linux-6.5/ishtp/client.c:665-706 | over all runs, whatever is refused, a client that sends messages of n bytes has each accepted credit held or spent on one message if and only if n is not 0 |
| `TxClient.SendCallIsRun` | src/intel-ish-hid-linux-6.5/ishtp/client.c:563-596 | an uninterrupted ishtp_cl_send is a run of the atomic steps, so all facts about runs hold of it |
| `TxClient.FlowCallIsRun` | src/intel-ish-hid-linux-6.5/ishtp/hbm.c:796-823 | an uninterrupted delivery of a flow-control message is a run of the atomic steps |
| `TxClient.SendCallExact` | src/intel-ish-hid-linux-6.5/ishtp/client.c:572-596 | a whole send, field by field: the message waits in the first free buffer, or alone and with a credit all its fragments are written, the credit is gone and the buffer free |
| `TxClient.FlowCallExact` | src/intel-ish-hid-linux-6.5/ishtp/hbm.c:797-823 | a whole flow-control delivery, field by field: ignored with a credit held; else counted, and kept with nothing queued or a client or device that is down; else spent on all fragments of the oldest message |
| `TxClient.EveryMessageGetsThrough` | src/intel-ish-hid-linux-6.5/ishtp/client.c:528-735 | after every run that leaves the client at rest, as many credits as messages wait let the firmware join exactly the messages of all submissions, in order, on runs without refusals and without overlap over messages of several fragments |
| `TxClient.Client.SendFragments` | src/intel-ish-hid-linux-6.5/ishtp/client.c:679-706 | the loop puts exactly the fragments of the message into the queue, less those refused, whatever other clients enqueue in between; it ends with the offset at 0 and `sending` set only for an empty message |
| `TxClient.Client.IpcTxSend` | src/intel-ish-hid-linux-6.5/ishtp/client.c:636-716 | one call takes the oldest message against a credit, or nothing when not enabled, not connected, empty or without credit |
| `TxClient.Client.SendMsgIpc` | src/intel-ish-hid-linux-6.5/ishtp/client.c:725-735 | the offset is reset and one message sent |
| `TxClient.Client.ClSend` | src/intel-ish-hid-linux-6.5/ishtp/client.c:528-599 | each error in its order and without effect; otherwise exactly the given message is submitted: it waits last in the first free buffer, or, alone and with a credit, all its fragments get into the queue, less those refused |
| `TxClient.Client.FlowControl` | src/intel-ish-hid-linux-6.5/ishtp/hbm.c:779-829 | an extra credit is ignored; otherwise it is counted, and starts the oldest queued message if the device is enabled and the client connected, and else is kept, with nothing else changed |
| `TxLoop.FinishSends` | src/intel-ish-hid-linux-6.5/ishtp/client.c:681-706 | left alone, the loop sends the fragments of what is left of the message |
| `TxLoop.ResetExact` | src/intel-ish-hid-linux-6.5/ishtp/client.c:725-733 | a reset between any two accesses of the offset leaves the fragments right if and only if the offset was not moved, or only the last is left to write and the message begins as it ends |
| `TxLoop.ResetHarmlessExact` | src/intel-ish-hid-linux-6.5/ishtp/client.c:725-733 | a message is safe from a reset anywhere in its loop if and only if it is one fragment |
| `CallbackEngine.AccountsKept` | src/intel-ish-hid-5.15/ishtp/client.c:572-706 | over every run of the steps of one client, whatever calls overlap, fragments are refused or credits come when: no buffer is lost, messages start in submission order, each once and against one credit, and the firmware joins no more messages than have left the list |
| `CallbackEngine.GivenExact` | src/intel-ish-hid-5.15/ishtp/client.c:568-593 | over every run from any state: what is recorded as submitted and as credited is exactly what the submissions and flow-control messages that happened gave |
| `CallbackEngine.PacedRun` | src/intel-ish-hid-5.15/ishtp/client.c:635-706 | if the firmware gives a credit only when it can have joined the messages of those before, none is there while a message is in flight; and with nothing lost a queued message and a credit meet only while somebody is about to send |
| `CallbackContent.StreamOfStarted` | src/intel-ish-hid-5.15/ishtp/client.c:635-725 | with such a firmware and nothing lost, the stream in the IPC queue is the fragments of the started messages in order: over every overlap of calls if messages have one fragment, and for messages of any size if no call that sends meets another or a message in flight |
| `CallbackContent.DeliveredAsSubmitted` | src/intel-ish-hid-5.15/ishtp/client.c:635-725 | on the same runs, what is joined from the stream are messages the client submitted, in order |
| `CallbackContent.DrainedStream` | src/intel-ish-hid-5.15/ishtp/client.c:635-725 | on the same runs, a client at rest has sent exactly the first messages it submitted, as many as it had credits for |
| `CallbackContent.ResetExact` | src/intel-ish-hid-5.15/ishtp/client.c:715-725 | resetting the offset under a message in flight leaves the stream right if and only if nothing of the message was chosen yet |
| `CallbackContent.SendStaysCalm` | src/intel-ish-hid-5.15/ishtp/client.c:590-596 | a whole ishtp_cl_send does not decide to send while a message is in flight |
| `CallbackContent.CreditStaysCalm` | src/intel-ish-hid-5.15/ishtp/hbm.c:797-822 | nor does a flow-control message in due time |
| `CallbackRace.TwoCallsReachable` | src/intel-ish-hid-5.15/ishtp/client.c:590-596 | one message and one credit put two calls about to send, the sender's and the flow-control handler's |
| `CallbackRace.RaceRepeatsFragment` | src/intel-ish-hid-5.15/ishtp/client.c:715-725 | if the second meets the message in flight, with one credit and no fragment refused, the firmware joins the first fragment followed by the whole message, for any message of more than one fragment |
| `CallbackRace.SizeSafeExact` | src/intel-ish-hid-5.15/ishtp/client.c:635-725 | over every overlap of calls, with credits in due time and nothing lost, a client that sends messages of n bytes is only ever heard to send those it submitted if and only if n is at most the mtu |
| `CallbackRace.EarlyCreditReorders` | src/intel-ish-hid-5.15/ishtp/client.c:690-692 | with a credit too soon not even one fragment is safe: the last fragment is written after the lock is dropped, and two messages can go out in the wrong order |
| `TxCallbacks.Device.constructor` | src/intel-ish-hid-5.15/ishtp/client.c:85-110 | connected clients with whole transmit rings, at the beginning of their runs, and an empty queue of which nothing has left; `sees` is what each later look at the surroundings finds |
| `TxCallbacks.Device.WriteToQueue` | src/intel-ish-hid-5.15/ipc/ipc.c:380-410 | the fragment is accepted exactly when a node is found free; terminates, with credits, then unsent bytes in flight, then queue length as measure; after it, at a clear doorbell, the fragment that waited longest leaves; what was accepted has left in order or waits, and every client goes through steps of its engine |
| `TxCallbacks.Device.WriteFromQueue` | src/intel-ish-hid-5.15/ipc/ipc.c:269-362 | not ready, or with nothing queued: nothing at all; else the fragment that waited longest leaves, and its client goes on with its callback and the pass that follows; the measure falls, what was accepted has left in order or waits, and as many calls are under way as before |
| `TxCallbacks.Device.IpcTxCallback` | src/intel-ish-hid-5.15/ishtp/client.c:635-706 | the callback, which the drain calls and which enqueues again, terminates; what its client goes through first is decided by whether it is found up, by its own state, and by whether the queue has room, and all the rest by the engine |
| `TxCallbacks.Device.CutFragment` | src/intel-ish-hid-5.15/ishtp/client.c:676-705 | the fragment cut and those still to come after it are those to come before it, and it is marked complete if and only if the message leaves the list |
| `TxCallbacks.PassLowers` | src/intel-ish-hid-5.15/ishtp/client.c:658-705 | one pass makes the credits of all clients fewer, or else their unsent bytes in flight, in any state |
| `TxCallbacks.Device.DecideSend` | src/intel-ish-hid-5.15/ishtp/client.c:568-596 | the message is queued and the credit read: to send is decided exactly when the list was empty and a credit is held |
| `TxCallbacks.Device.DecideCredit` | src/intel-ish-hid-5.15/ishtp/hbm.c:797-822 | the credit is counted and the list read: to send is decided exactly when the credit was none and a message is queued |
| `TxCallbacks.Device.Kick` | src/intel-ish-hid-5.15/ishtp/client.c:715-725 | a decision to send is carried out: the offset is reset and a pass made, whatever others do in between; with no decision nothing happens |
| `TxCallbacks.Device.QueueMessage` | src/intel-ish-hid-5.15/ishtp/client.c:568-593 | the free buffer is filled and queued, as the engine says; what is found is whether the list was empty |
| `TxCallbacks.Device.SenderCheck` | src/intel-ish-hid-5.15/ishtp/client.c:595 | the decision to send, after the lock is dropped |
| `TxCallbacks.Device.CountCredit` | src/intel-ish-hid-5.15/ishtp/hbm.c:797-805 | a credit is counted once, an extra one is ignored |
| `TxCallbacks.Device.FcCheck` | src/intel-ish-hid-5.15/ishtp/hbm.c:806-822 | the decision to send, after the credit is counted |
| `TxCallbacks.Device.SendMsgIpc` | src/intel-ish-hid-5.15/ishtp/client.c:715-725 | the offset is reset and one pass begun, whether the client is sending or not |
| `TxCallbacks.Device.ClSend` | src/intel-ish-hid-5.15/ishtp/client.c:528-599 | each error in its order and without effect; otherwise the client is given exactly the message and nobody anything else; it sends at once exactly when the list was empty and a credit is held; a client whose calls did not overlap stays so, and nothing is lost unless it is refused or a client is found down |
| `TxCallbacks.Device.FlowControl` | src/intel-ish-hid-5.15/ishtp/hbm.c:779-829 | a credit is counted once, in mid-message too, and starts the oldest message exactly when it was counted and one is queued; one in due time leaves a client whose calls did not overlap so |
| `TxCallbacks.Device.Drain` | src/intel-ish-hid-5.15/ipc/ipc.c:608-619 | a receive-complete indication at a clear doorbell lets the fragment that waited longest leave, and starts any amount of sending; no client is given anything by it |
| `TxCallbacks.Device.DrainAll` | src/intel-ish-hid-5.15/ipc/ipc.c:608-619 | enough such indications empty the queue, whatever the clients and nested looks find, and all that was accepted has left in order; with nothing refused, each client whose calls did not overlap has then sent exactly its first messages, as many as it was given credits for, and the others still wait |
| `TxCallbacks.Device.WriteOther` | src/intel-ish-hid-5.15/ipc/ipc.c:380-410 | a bus message is accepted exactly when a node is found free, and may start any amount of sending; no client is given anything by it |
| `TxCallbacks.DriversAgree` | src/intel-ish-hid-5.15/ishtp/client.c:635-725 | given the same non-empty messages and as many credits, the 5.15 callback chain and the 6.5 loop enqueue the same fragments in the same order and end with the same credit and the same queue, whatever other clients enqueue in between; on either side for messages of one fragment, or calls that send and do not overlap |
| `RxRuns.Follows` | src/intel-ish-hid-linux-6.5/ishtp/client.c:835-954 | from sizes and calls alone: if the buffers take the messages the firmware sends, and requests are refused only while read starts do not overlap, no fragment overruns its buffer and every take-back finds its buffer posted and empty |
| `RxRuns.ReceiveSafety` | src/intel-ish-hid-linux-6.5/ishtp/client.c:835-954 | over every such run: at most one credit is out and it is backed by a posted buffer, each buffer is in exactly one place, and the messages completed are exactly those the fragments make up, each in its buffer with `buf_idx` its size |
| `RxRuns.DeliveredAsSent` | src/intel-ish-hid-linux-6.5/ishtp/client.c:881-925 | messages no longer than the buffers, cut by the rule, arrive whole and in order |
| `RxEngine.HeardExact` | src/intel-ish-hid-linux-6.5/ishtp/client.c:835-954 | over every run from any state: the fragments recorded as received are exactly those that came while the firmware had a credit or a message under way |
| `RxRuns.NextMessageArrives` | src/intel-ish-hid-linux-6.5/ishtp/client.c:835-954 | after every run with accepted requests and no call under way, in which every message was taken and given back, the next message of a size the buffers take is heard and delivered whole |
| `RxRuns.NoReceiveStall` | src/intel-ish-hid-linux-6.5/ishtp/client-buffers.c:229-251 | with accepted requests and no call under way, a free buffer means that a credit is out; and a credit is out unless the client holds or has not taken a message, even when recycles interleave |
| `RxFaults.OverrunStopsExactly` | src/intel-ish-hid-linux-6.5/ishtp/client.c:876-891 | after an overrun, with buffers that have memory, no run ever delivers another message if and only if the fragment was the last of its message, or no other buffer was posted or on its way to be |
| `RxFaults.OverrunDeliversRest` | src/intel-ish-hid-linux-6.5/ishtp/client.c:881-891 | otherwise, with another buffer posted, the rest of the message is delivered as a message of its own |
| `RxFaults.StuckForever` | src/intel-ish-hid-linux-6.5/ishtp/client.c:876-891 | with a credit out for which the firmware has no message under way, or no buffer is posted or on its way, no event ever completes another message |
| `RxFaults.UndoExact` | src/intel-ish-hid-linux-6.5/ishtp/client.c:498-512 | taking a buffer back after a refused request keeps each buffer in one place, every completed message in process and the bytes of the message under way, if and only if the buffer is still posted and empty, or free |
| `RxFaults.UndoHarmless` | src/intel-ish-hid-linux-6.5/ishtp/client.c:498-512 | which it always is when read starts do not overlap |
| `RxFaults.RefusedRequestLosesMessage` | src/intel-ish-hid-linux-6.5/ishtp/client.c:498-512 | two read starts, one refused: a completed message the client has not taken is lost |
| `RxFaults.RefusedRequestDuplicatesBuffer` | src/intel-ish-hid-linux-6.5/ishtp/client.c:498-512 | and if the client has taken it, the buffer ends on the free list and with the client |
| `RxFaults.RaceIsReachable` | src/intel-ish-hid-linux-6.5/ishtp/client-buffers.c:239-248 | that situation is reached from a ring of two buffers |
| `RxDevice.RecvListMine` | src/intel-ish-hid-linux-6.5/ishtp/client.c:854-913 | a fragment changes only the buffers of its own client on the shared read list, as if the list were that client's alone |
| `RxDevice.DevStep` | src/intel-ish-hid-linux-6.5/ishtp/client.c:835-954 | a step of the device is a step of one client and leaves all others as they were |
| `RxDevice.DevRunView` | src/intel-ish-hid-linux-6.5/ishtp/client.c:835-954 | every run of the device is, seen by one client, a run of that client |
| `RxDevice.HeardByAllExact` | src/intel-ish-hid-linux-6.5/ishtp/client.c:835-954 | over every run, the common stream is exactly the fragments that came for a client with its own address and a credit or a message under way |
| `RxDevice.DeviceDelivery` | src/intel-ish-hid-linux-6.5/ishtp/client.c:854-925 | for any clients and any interleaving, a client whose buffers take its messages is given exactly the messages of its own fragments, and its credit and buffers are safe, whatever befalls the others |
| `RxDevice.DeviceRoundTrip` | src/intel-ish-hid-linux-6.5/ishtp/client.c:854-925 | fragmenting and reassembling is the identity for every client of the device whose messages are no longer than its buffers |
| `RxReceiver.ReadStartCallIsRun` | src/intel-ish-hid-linux-6.5/ishtp/client.c:471-501 | an uninterrupted ishtp_cl_read_start is a run of the atomic steps |
| `RxReceiver.ReadStartRefusedIsRun` | src/intel-ish-hid-linux-6.5/ishtp/client.c:498-512 | an uninterrupted ishtp_cl_read_start whose request is refused is a run of the atomic steps |
| `RxReceiver.RecycleCallIsRun` | src/intel-ish-hid-linux-6.5/ishtp/client-buffers.c:229-251 | an uninterrupted recycle is a run of the atomic steps, with the read start only when no credit is out |
| `RxReceiver.RecycleCallExact` | src/intel-ish-hid-linux-6.5/ishtp/client-buffers.c:229-251 | a whole recycle, field by field: the buffer is the last free one, and nothing else changes with a credit out or the client or device down; else the first free buffer is posted, empty, against one new credit, or goes last if its request is refused |
| `RxReceiver.ReceiveCallIsStep` | src/intel-ish-hid-linux-6.5/ishtp/client.c:854-925 | a fragment that does not overrun its buffer does exactly what the engine's step does |
| `RxReceiver.OverrunCallIsRun` | src/intel-ish-hid-linux-6.5/ishtp/client.c:881-891 | the overrun of the receive path is the engine's step followed by the read start it leads to |
| `RxReceiver.Receiver.ReadListFlush` | src/intel-ish-hid-linux-6.5/ishtp/client.c:42-55 | the buffers of one client leave the read list, all others stay in order |
| `RxReceiver.Receiver.FlowControlReq` | src/intel-ish-hid-linux-6.5/ishtp/hbm.c:261-302 | a request is sent only with no credit out; a refused one changes nothing |
| `RxReceiver.Receiver.ReadStart` | src/intel-ish-hid-linux-6.5/ishtp/client.c:444-514 | not connected, not enabled or no such firmware client: nothing; else posts the first free buffer with a credit, or gives it back |
| `RxReceiver.Receiver.Recycle` | src/intel-ish-hid-linux-6.5/ishtp/client-buffers.c:229-251 | the buffer is free again, and a read starts if no credit is out; with one out, or the client or device down, nothing else changes |
| `RxReceiver.Receiver.RxGetRb` | src/intel-ish-hid-linux-6.5/ishtp/client-buffers.c:283-296 | the oldest message in process, if there is one |
| `RxReceiver.Receiver.FindBuffer` | src/intel-ish-hid-linux-6.5/ishtp/client.c:853-860 | the walk finds the oldest posted buffer of the connected client with this address, or none |
| `RxReceiver.Receiver.RecvClMsg` | src/intel-ish-hid-linux-6.5/ishtp/client.c:835-954 | a malformed or unclaimed fragment changes nothing; any other does to its client what the engine says, a buffer without memory included, and nothing to the others |
| `Hbm.BitsAt` | src/intel-ish-hid-linux-6.5/ishtp/hbm.c:198-199 | find_next_bit after a set bit is the next in ascending order, or 256 |
| `Hbm.Answer` | src/intel-ish-hid-linux-6.5/ishtp/hbm.c:601-635 | one accepted response leads to the next request in ascending order; the last to WORKING, or to a fault for address 255 or for 255 clients |
| `Hbm.EnumerationExact` | src/intel-ish-hid-linux-6.5/ishtp/hbm.c:189-231 | enumeration ends in WORKING with exactly the set addresses, ascending, each with its own response's properties, requested and announced once, if and only if 255 is not set and at most 254 addresses are |
| `Hbm.RestartExact` | src/intel-ish-hid-linux-6.5/ishtp/bus.c:808-813 | once a reset is handled, its completion opens the start phase if and only if the start request goes out, and else leaves the device in reset |
| `Hbm.StartExact` | src/intel-ish-hid-linux-6.5/ishtp/hbm.c:573-577 | in the start phase a supported version leads to the enumeration phase if and only if the enumeration request goes out, and else to reset |
| `Hbm.RefusedRequest` | src/intel-ish-hid-linux-6.5/ishtp/hbm.c:214-224 | a property request that the IPC queue refuses ends the enumeration in reset |
| `Hbm.BootExact` | src/intel-ish-hid-linux-6.5/ishtp/hbm.c:143-231 | from any device not at fault, whatever went before: reset, completion, start and enumeration responses, and one answer per request lead to an enabled device with exactly the addresses of the map, each with its own properties, if and only if 255 is not set and at most 254 addresses are |
| `Hbm.RejectsExact` | src/intel-ish-hid-linux-6.5/ishtp/hbm.c:562-713 | a message out of its phase, or for another address, only makes the hardware reset; a refused version or a stop request only stops; field by field, with nothing else changed but the map of an enumeration response |
| `Hbm.NoMemoryFaults` | src/intel-ish-hid-linux-6.5/ishtp/hbm.c:36-43 | without memory for the table, a response with any address set leads to a write through a null pointer |
| `Hbm.EnabledIsEnumerated` | src/intel-ish-hid-linux-6.5/ishtp/hbm.c:545-731 | over every run with any number of resets, working hardware resets, memory and such maps: no counter fault; ENABLED implies WORKING or STOPPED and stored properties for every address of the accepted map |
| `Hbm.CountNeverCarriesOver` | src/intel-ish-hid-linux-6.5/ishtp/hbm.c:28-43 | over every run, failed resets and any maps included: `fw_clients_num` is 0 when an enumeration response is accepted, so the table has one entry per address of that response |
| `Hbm.HandshakeRun` | src/intel-ish-hid-linux-6.5/ishtp/bus.c:784-814 | over every run, whatever fails: ENABLED implies WORKING or STOPPED, and nothing of an earlier enumeration is left when one can begin |
| `Hbm.PhaseExact` | src/intel-ish-hid-linux-6.5/ishtp/hbm.c:562-631 | the cases of the dispatch read together: a start response moves the protocol on exactly in its phase, an enumeration response exactly in its phase whatever its map, a properties response only in its phase and for the address awaited |
| `Hbm.LateMapExact` | src/intel-ish-hid-linux-6.5/ishtp/hbm.c:659-677 | a late enumeration response overwrites the map before it is rejected: a hardware reset that succeeds ends the enumeration; if it fails, the enumeration still ends in WORKING with exactly the accepted addresses, all announced, if and only if both maps agree above the address asked for last, and otherwise never does |
| `Hbm.LookupExact` | src/intel-ish-hid-linux-6.5/ishtp/hbm.c:601-618 | a properties response looks up an entry of the table if and only if one is awaited; afterwards the lookup lies beyond it and only a hardware reset follows |
| `HbmDevice.Device.FwClAllocate` | src/intel-ish-hid-linux-6.5/ishtp/hbm.c:23-44 | counts the set bits in eight bits and allocates so many entries, none at zero; without memory it resets the hardware |
| `HbmDevice.Device.AnnounceAll` | src/intel-ish-hid-linux-6.5/ishtp/hbm.c:201-212 | announces every client once, in table order; 255 clients make the loop endless |
| `HbmDevice.Device.PropReq` | src/intel-ish-hid-linux-6.5/ishtp/hbm.c:189-231 | requests the next set address, or enables the device; where a counter leaves the table, or there is none, that is recorded |
| `HbmDevice.Device.OnStartRes` | src/intel-ish-hid-linux-6.5/ishtp/hbm.c:563-588 | refused version stops, in phase enumerates, out of phase resets |
| `HbmDevice.Device.OnEnumRes` | src/intel-ish-hid-linux-6.5/ishtp/hbm.c:659-678 | copies the map, then begins the properties phase or resets |
| `HbmDevice.Device.OnPropsRes` | src/intel-ish-hid-linux-6.5/ishtp/hbm.c:601-635 | status, then address, then phase: each mismatch only resets |
| `HbmDevice.Device.Dispatch` | src/intel-ish-hid-linux-6.5/ishtp/hbm.c:545-731 | every handshake message does to the device what the protocol machine says, table entries and counter faults included |
| `HbmDevice.Device.ResetHandler` | src/intel-ish-hid-linux-6.5/ishtp/bus.c:784-798 | the device is in reset, with table, counters and map cleared |
| `HbmDevice.Device.ResetComplHandler` | src/intel-ish-hid-linux-6.5/ishtp/bus.c:808-813 | with the start request sent, INIT_CLIENTS and START; with it refused, RESETTING and IDLE |
| `HbmDevice.Device.StartWait` | src/intel-ish-hid-linux-6.5/ishtp/hbm.c:92-117 | a wait that times out at or before START falls back to IDLE |
| `BhRing.PositionsTell` | src/intel-ish-hid-linux-6.5/ishtp/hbm.c:748-860 | full and empty are told exactly by the two positions |
| `BhRing.Ring.Enqueue` | src/intel-ish-hid-linux-6.5/ishtp/hbm.c:848-862 | with fewer than 63 messages waiting the message is appended and the work requested; else it is dropped and nothing changes |
| `BhRing.Ring.Work` | src/intel-ish-hid-linux-6.5/ishtp/hbm.c:740-759 | the step of the machine: one run takes the oldest message; its slot starts with the bytes enqueued |
| `BhRing.Ring.Reset` | src/intel-ish-hid-linux-6.5/ishtp/bus.c:791-794 | the ring is empty, both positions are the same, and a requested work stays requested |
| `BhRing.BacklogExact` | src/intel-ish-hid-linux-6.5/ishtp/hbm.c:740-862 | messages are dispatched in order of arrival; at rest as many wait as schedule requests were merged into a pending one, and none if and only if none were |
| `BhRing.ArrivedExact` | src/intel-ish-hid-linux-6.5/ishtp/hbm.c:740-862 | over every run: what was dispatched and what waits are exactly the messages since the last reset that found room, in order; a reset leaves none |
| `BhRing.SpacedDrains` | src/intel-ish-hid-linux-6.5/ishtp/hbm.c:862 | if no message arrives while the work is pending, nothing is left behind |
| `BhRing.SecondMessageStays` | src/intel-ish-hid-linux-6.5/ishtp/hbm.c:748-755 | of two messages before one run the second stays until a third arrives, which stays in turn |
| `Registers.HeaderFields` | src/intel-ish-hid-linux-6.5/ipc/hw-ish-regs.h:143-167 | the macros, with their shifts, masks and disjunctions on 32-bit words: the header fields come back unchanged, and the word is their weighted sum |
| `Registers.MngFields` | src/intel-ish-hid-linux-6.5/ipc/hw-ish-regs.h:147-173 | a management command comes back if and only if it is below 16 |
| `Registers.HdrRoundTrip` | src/intel-ish-hid-linux-6.5/ishtp/hbm.h:75-81 | the bit fields of a message header come back unchanged |
| `Registers.HdrFields` | src/intel-ish-hid-linux-6.5/ishtp/hbm.h:75-81 | by shift and mask: firmware address in bits 0 to 7, host address in 8 to 15, length in 16 to 24, reserved in 25 to 30, msg_complete in 31 |
| `Registers.DatagramBytes` | src/intel-ish-hid-linux-6.5/ishtp/bus.c:91-99 | the datagram byte by byte: doorbell value with the length plus 4, protocol and busy bit, then firmware address, host address, length and mark, then the payload |
| `Registers.SentBytes` | src/intel-ish-hid-linux-6.5/ipc/ipc.c:304-340 | the doorbell and every message register byte by byte: the datagram's bytes, the last word padded with zeros, all others as they were |
| `Registers.ReadBytes` | src/intel-ish-hid-linux-6.5/ipc/ipc.c:247-259 | and byte by byte what is read from them |
| `Registers.ReceivedExact` | src/intel-ish-hid-linux-6.5/ishtp/bus.c:36-57 | whatever the registers hold: something is received if and only if the busy bit is set, the doorbell length is at most 128, the protocol is ISHTP, the header is not zero and its length within the mtu; each field and each payload byte is read from its own bits |
| `Registers.WriteRegs` | src/intel-ish-hid-linux-6.5/ipc/ipc.c:329-339 | whole words and a zero-padded tail; all other registers keep their value |
| `Registers.ReadRegs` | src/intel-ish-hid-linux-6.5/ipc/ipc.c:247-259 | the words from the second on, up to three bytes more than asked for |
| `Registers.RegisterRoundTrip` | src/intel-ish-hid-linux-6.5/ishtp/bus.c:84-100 | a datagram comes out of the registers with its header and payload, whatever they held before, if and only if the payload is within the mtu and the header is not all zero |
| `Registers.LimitsAgree` | src/intel-ish-hid-linux-6.5/ipc/ipc.c:388-389 | the sender's limit of 132 bytes and the receiver's length checks agree on a payload of at most 124 |
| `IpcQueue.QueueIsFifo` | src/intel-ish-hid-linux-6.5/ipc/ipc.c:270-411 | over every run of enqueues, attempts, resets and firmware steps: the pool is constant; what was sent since a reset is a prefix of what was accepted since, apart from clock payloads, and the rest waits in order; a datagram that waits at a clear doorbell has an attempt coming |
| `IpcQueue.NoNodeTwice` | src/intel-ish-hid-linux-6.5/ipc/ipc.c:957-977 | no node is twice on the lists |
| `IpcQueue.FirmwareTakesWhatWasSent` | src/intel-ish-hid-linux-6.5/ipc/ipc.c:287-340 | the doorbell is rung only when clear, so the firmware takes every datagram in order, all but at most the last |
| `IpcQueue.AcceptsExact` | src/intel-ish-hid-linux-6.5/ipc/ipc.c:388-405 | over every run: a datagram is accepted if and only if its busy bit is set, it has at most 132 bytes and fewer wait than there are nodes; it then waits behind all others with an attempt to come, and else nothing changes |
| `IpcQueue.SendsExact` | src/intel-ish-hid-linux-6.5/ipc/ipc.c:287-352 | over every run: an attempt sends the datagram that waited longest if and only if the device is enabled, the doorbell clear and one waits; its node is the first free one, all else stays |
| `IpcQueue.StampedBytes` | src/intel-ish-hid-linux-6.5/ipc/ipc.c:308-327 | the bytes that leave: the clock in bytes 4 to 23 of a message with protocol MNG and command 5, and every other byte as it was given |
| `IpcQueue.EnoughAttempts` | src/intel-ish-hid-linux-6.5/ipc/ipc.c:287-411 | after every run that leaves the device enabled, as many attempts as datagrams wait, the firmware taking each, empty the queue, and the firmware has taken all that was accepted since the last reset, in order |
| `IpcQueue.Queue.constructor` | src/intel-ish-hid-linux-6.5/ipc/ipc.c:957-977 | a pool of distinct free nodes, as many as there is memory for, and a clear doorbell |
| `IpcQueue.Queue.WriteFromQueue` | src/intel-ish-hid-linux-6.5/ipc/ipc.c:270-363 | disabled, busy or empty: nothing; else the first datagram is written and its node is the first free one |
| `IpcQueue.Queue.WriteToQueue` | src/intel-ish-hid-linux-6.5/ipc/ipc.c:381-411 | too long or no node: refused without effect; else exactly the message is appended, and one attempt made whose result is ignored |
| `IpcQueue.Queue.ResetQueue` | src/intel-ish-hid-linux-6.5/ipc/ipc.c:504-508 | nothing waits any more: the splice gives all waiting nodes back to the head of the pool |
| `Transport.FirmwareSees` | src/intel-ish-hid-linux-6.5/ipc/ipc.c:329-352 | through queue and registers the firmware decodes the fragments accepted since the last reset, in order and unchanged, whatever management messages go between them |
| `Transport.TakenExact` | src/intel-ish-hid-linux-6.5/ipc/ipc.c:388-405 | over every run of the whole system: any fragment with addresses of eight bits, data within the mtu and a header that is not zero is taken by the queue if and only if fewer datagrams wait than it has nodes |
| `Transport.SubmittedReachesFirmware` | src/intel-ish-hid-linux-6.5/ishtp/client.c:528-716 | end to end, over every run of client, queue and registers with other writers and resets: what the firmware joins from the registers since the last reset are messages the client submitted since, in order, and all that were started once everything is taken |
| `Transport.AllStartedArrive` | src/intel-ish-hid-linux-6.5/ishtp/client.c:636-716 | and after every such run with the device enabled and no message half cut, enough attempts let the firmware join exactly the messages started since the last reset |
| `DmaSlots.FirstFit` | src/intel-ish-hid-linux-6.5/ishtp/dma-if.c:98-133 | the reference search: the lowest start with enough consecutive free slots |
| `DmaSlots.TxBuffer.GetDmaSendBuf` | src/intel-ish-hid-linux-6.5/ishtp/dma-if.c:98-133 | the skip-ahead loop finds that start, marks only its slots, and fails if and only if there is none or no map; it terminates |
| `DmaSlots.TxBuffer.ReleaseDmaAckedMem` | src/intel-ish-hid-linux-6.5/ishtp/dma-if.c:144-176 | frees slots up to the first that is free or does not exist; a misaligned offset frees none |
| `DmaSlots.TxBuffer.DmaXferAck` | src/intel-ish-hid-linux-6.5/ishtp/hbm.c:449-464 | releases the transfers the message names, each with its length cut to eight bits, up to the first that ends beyond the buffer, and reports whether there was one |
| `DmaSlots.AckAllIsRun` | src/intel-ish-hid-linux-6.5/ishtp/hbm.c:449-488 | one message that acknowledges several allocations does what as many messages do |
| `DmaSlots.SlotsExact` | src/intel-ish-hid-linux-6.5/ishtp/dma-if.c:98-176 | over every run, with sizes at the caller's width: live allocations are disjoint and the map is exactly their union |
| `DmaSlots.ReleaseUndoes` | src/intel-ish-hid-linux-6.5/ishtp/dma-if.c:165-174 | release with the caller's width undoes an allocation |
| `DmaSlots.NarrowReleaseExact` | src/intel-ish-hid-linux-6.5/ishtp/dma-if.c:144-150 | release through uint8_t undoes an allocation if and only if the size is 0, or at most 4096 and no multiple of 256 |
| `DmaSlots.NarrowRunIsExact` | src/intel-ish-hid-linux-6.5/ishtp/dma-if.c:144-150 | the driver as it stands keeps the map exact on every run of such sizes |
| `DmaSlots.OtherSizesLeak` | src/intel-ish-hid-linux-6.5/ishtp/dma-if.c:144-150 | one allocation and its acknowledgement leave the map free if and only if the size is such |
| `HostIds.HostIdsExact` | src/intel-ish-hid-linux-6.5/ishtp/client.c:171-252 | over every proper run: the set bits are 0 and the distinct ids of the linked clients, handles are linked clients and refused links, and running out of ids is impossible |
| `HostIds.LinkExact` | src/intel-ish-hid-linux-6.5/ishtp/client.c:171-213 | after every proper run a link succeeds if and only if the device is enabled and fewer than 255 handles are counted; the client is then last on the list with the least id nobody has; with the device not enabled only the handle is taken |
| `HostIds.UnlinkExact` | src/intel-ish-hid-linux-6.5/ishtp/client.c:222-252 | after every proper run unlinking a linked client gives back exactly its id and its handle and leaves all others in their order |
| `HostIds.RefusedLinksLeak` | src/intel-ish-hid-linux-6.5/ishtp/client.c:197-203 | after 255 links refused with -ENODEV no link succeeds ever again |
| `HostIds.RefusalsReachable` | src/intel-ish-hid-linux-6.5/ishtp/client.c:197-203 | and 255 links can be refused in a row |
| `HostIds.ForeignUnlinkExact` | src/intel-ish-hid-linux-6.5/ishtp/client.c:222-252 | unlinking a client that is not linked leaves the linked clients, the bits and enough handles if and only if no handle is counted, or there is one of a refused link to give back and the id is neither the reserved one nor anybody else's |
| `HostIds.Device.constructor` | src/intel-ish-hid-linux-6.5/ishtp/init.c:69-75 | id 0 is reserved |
| `HostIds.Device.Link` | src/intel-ish-hid-linux-6.5/ishtp/client.c:171-213 | each error in its order; a refused link keeps its handle |
| `HostIds.Device.Unlink` | src/intel-ish-hid-linux-6.5/ishtp/client.c:222-252 | bit, handle and list entry go by host id |
| `PseRead.ReadsArePrefix` | src/pse.c:121-189 | over every run of reads of any sizes, with messages that the buffers take: the bytes returned are the messages read to their end and the held one up to the position, a prefix of those received; each buffer is in one place |
| `PseRead.ReadsWhatWasSent` | src/pse.c:121-189 | together with reassembly: a prefix of what the firmware sent |
| `PseRead.ReadErrorsExact` | src/pse.c:161-173 | a read that finds a message fails only for its own arguments, and a failing read changes nothing |
| `PseRead.ReadExact` | src/pse.c:167-188 | a read that succeeds returns the next bytes, the smaller of the asked length and the rest of the message; with the last of them the message is done and the position is 0 |
| `PseRead.ReadAllAtOnce` | src/pse.c:175-188 | a large enough read returns the rest of the message and frees its buffer |
| `PseRead.Device.OnEvent` | src/pse.c:376-404 | the oldest waiting message is taken if and only if none is held and one waits; else nothing is taken |
| `PseRead.Device.Read` | src/pse.c:157-189 | returns up to the asked length from the position and recycles the buffer at its end |
| `FwLoader.CutPartitions` | src/intel-ish-hid-linux-6.5/ishtp-fw-loader.c:575-608 | the chunks are contiguous and concatenate to the image, all but the final one have exactly the limit as size, and only the final one is marked last |
| `FwLoader.LoopSoundExact` | src/intel-ish-hid-linux-6.5/ishtp-fw-loader.c:576-607 | for images of any size, the loop in 32-bit arithmetic stays within the image and marks exactly its final fragment if and only if the size rounded up to whole fragments fits 32 bits |
| `FwLoader.EnoughRoom` | src/intel-ish-hid-linux-6.5/ishtp-fw-loader.c:576-577 | it is enough that size and limit together fit |
| `FwLoader.NoLimitStalls` | src/intel-ish-hid-linux-6.5/ishtp-fw-loader.c:654-662 | with a limit of zero the loop stands still |
| `FwLoader.DmaLimitExact` | src/intel-ish-hid-linux-6.5/ishtp-fw-loader.c:654-662 | the direct-DMA limit is the greatest number of whole cache lines that image, firmware buffer and configured limit all hold |
| `FwLoader.SendChunks` | src/intel-ish-hid-linux-6.5/ishtp-fw-loader.c:574-616 | sends the chunks in order until the first that is not acknowledged; completes if and only if all are acknowledged and the rounded size fits 32 bits, or there is nothing to send; else it stands still without a limit, or comes to a fragment that reads beyond the image or after which the offset wraps |
| `FwLoader.XferIshtp` | src/intel-ish-hid-linux-6.5/ishtp-fw-loader.c:554-617 | the loop with the 3968-byte buffer less its preamble as limit: same chunks, same ends |
| `FwLoader.XferDirectDma` | src/intel-ish-hid-linux-6.5/ishtp-fw-loader.c:634-715 | the loop with the direct-DMA limit: same chunks, same ends, a limit of zero included |
| `FwLoader.AllAcknowledged` | src/intel-ish-hid-linux-6.5/ishtp-fw-loader.c:576-608 | when every command is acknowledged, how the transfer ends is decided by limit and size alone, and if it completes, what was sent is the image in contiguous chunks |

## Left out

- Client transmission over DMA (`ishtp_cl_send_msg_dma`, `recv_ishtp_cl_msg_dma`): the transfer path is never set to DMA.
- Connecting and disconnecting clients, waiting for their responses, and reconnecting the same client: the engines begin with a connected client.
- Memory: freeing of rings and clients, the lifetime of a client after it is freed, and allocation failures other than that of the client table.
- PCI, power management, suspend and resume, wait queues, timeouts, statistics and logging; the hardware reset is a step that succeeds and sets RESETTING or fails and changes nothing.
- The wakeup write to the doorbell after a hardware reset, which rings without a datagram.
- The HID clients, device registration, fixed clients and the contents of clock messages.
- The locks themselves: a critical section is one step, and `recv_ishtp_cl_msg` is one step up to the in-process list; the addition of the mtu to the offset is one access.
- The buffer in which `ishtp_send_msg` puts a datagram together: here the datagram is a value of any length, and its size is checked at the enqueue.
- The announcement of DMA buffers after enumeration, and connection messages in `ishtp_hbm_dispatch`: they do not touch what is modelled.
- Waiting in `ishtp_pse_read` before the lock is taken, more than one reader at a time, and whether a waiting message is ever announced: the read steps begin with the lock held.
- Which devices of an earlier enumeration stay on the bus over a warm reset.
- Restarting a client's transmission when its last DMA transfer is acknowledged.
- The bytes of a 5.15 fragment are those its message has when the fragment is chosen; if overlapping calls have meanwhile freed and refilled the buffer, the source sends the new ones.
- TxCallbacks.Device.Serve: where overlapping calls leave the offset beyond the message, the source reads on with undefined behaviour, and the model lets the client send no more.
- TxCallbacks.Device.WriteFromQueue: does not model what the clock rewrite puts into a management message; IpcQueue.Queue.WriteFromQueue does.
- TxCallbacks.Device.ClSend: the calls as a whole are without interruption, apart from the queue's callbacks; QueueMessage, SenderCheck, CountCredit, FcCheck and SendMsgIpc are their pieces, and CallbackEngine has every interleaving.
- FwLoader.SendChunks: stops at a fragment that reads beyond the image, or after which the offset wraps; what the source sends from there is not a partition.
- RxReceiver.Receiver.ReadStart: a call without interruption; the interleavings are those of RxEngine.
- HbmDevice.Device.PropReq: where a counter leaves the table, the source goes on with undefined behaviour, and the model stops with a fault.
