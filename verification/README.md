# Verification of the streaming session protocol

A Dafny model of the point-cloud streaming session between `stream_client` and `stream_server`, and
proofs about it: a client pipeline of capture stage, encode workers and one windowed sender; binary
framing and fragmentation on a socket; a server pipeline of receive loop, decode workers and sender;
acknowledgement timers; and in-order redelivery of the replies. `dafny verify dfyconfig.toml` checks
everything.

## How it is organised

| file | what it models |
|---|---|
| `ClientPipeline.dfy` | capture stage, encode workers, sender and reply consumer as one transition system |
| `ClientHistory.dfy`, `ClientRuns.dfy`, `ClientProgress.dfy` | what its state says about the steps that led to it, runs of it, and that it cannot get stuck |
| `ServerPipeline.dfy` | receive loop, decode workers and send loop as one transition system |
| `ServerHistory.dfy`, `ServerRuns.dfy` | what its state says about the steps that led to it, and that it cannot get stuck |
| `Reorder.dfy`, `Redelivery.dfy` | the client's reorder buffer, alone and behind the two pipelines |
| `Fragmentation.dfy` | `iter_fragments` |
| `Reassembly.dfy`, `FragmentBuffer.dfy` | `FragmentBuffer` as a value and as the object it is |
| `FragmentTimes.dfy` | which fragments keep a frame alive |
| `Overcount.dfy` | what repeated fragments do to its counter, and the counter to the frames |
| `FragmentTransfer.dfy`, `WireTransfer.dfy` | from split to reassembly, without and with the stream in between |
| `Timers.dfy` | `AckDeadlineHeap` on a binary heap |
| `FrameHeader.dfy`, `Framing.dfy` | headers, sockets with arbitrary partial reads and writes, messages |
| `ControlPlane.dfy`, `ControlHistory.dfy`, `Lifecycle.dfy` | the two session state machines, what they say about the calls, and the call sites that drive both |
| `SpoolWatcher.dfy` | the bounded discovery history |
| `LineFraming.dfy`, `Address.dfy`, `Percentiles.dfy` | newline framing, frame addresses, latency percentiles |
| `Common.dfy` | shared vocabulary |

What the program updates in place is a class here (`AckDeadlineHeap`, `FragmentAssembly`,
`FragmentBuffer`, `ReorderBuffer`, `ControlPlane`, `StreamStateMachine`, `SpoolWatcher`,
`LineReceiver`, `Socket`), each method proved equal to a function on values about which the lemmas
speak. The coroutines are step relations: one step is the code between two points at which a coroutine
can be suspended, a run is any sequence of enabled steps, and histories (`place`, `answered`, `failed`,
`unread`, `reports`) are recorded for the proofs and read by no step. Which lines a step stands for:

| step | source |
|---|---|
| `ClientPipeline.Accept`, `Refused`, `NoMoreFrames`, `PutSentinel` | `nodes/stream_client.py` 141-162, 204-206, 819-886 |
| `ClientPipeline.Get`, `Put`, `Fail`, `Quit`, `Finish` | `nodes/stream_client.py` 165-185, 889-996 |
| `ClientPipeline.Loop` to `EofFails` | `nodes/stream_client.py` 1033-1218 |
| `ClientPipeline.Ack` to `ClearAcks`, `Transition`, `Clamp` | `nodes/stream_client.py` 453-497, 527-562, 1551-1743 |
| `ServerPipeline.Acknowledge` to `PutSentinel` | `nodes/stream_server.py` 73-92, 843-881, 1229-1247 |
| `ServerPipeline` worker and sender steps | `nodes/stream_server.py` 95-125, 884-1098 |

## Decisions

- Encoding and decoding are opaque: a frame is its sequence and its number of fragments, a job its
  number. Any reply, acknowledgement, timeout or heartbeat may arrive at any step, `stop` may be set at
  any step, and the target an adaptive window computes is arbitrary; only its clamping is modelled.
- An ACK or a DATA reply can be handled before the sender registers the frame
  (`nodes/stream_client.py` 1173 and 1203-1205); it then finds nothing in flight. Both orders are runs
  of the model.
- `SessionTracker.transition` belongs to the step that calls it: its lock spans no suspension point.
- `heapq` is a binary heap on a list ordered by (deadline, sequence). Clocks are real numbers or
  integers, percentiles are over the reals.
- A message name is the bytes of its UTF-8 form. The wrap-around of header fields (`& 0xFFFF` and
  wider) is explicit; a fragment total above 65535 is cut, and `ReadsBackIff` says exactly when that
  breaks the round trip.
- A `drops` entry holds the state's value when it was dropped. `Missing` is the KeyError `assemble`
  raises when the count is right and an index is not. `Clear` walks the dict in insertion order.
- `int` and `str` in an address: the decimal and space properties of characters beyond ASCII and the
  interpreter's limit on digits are parameters; on ASCII `int` takes surrounding white space, a sign,
  and digits with single underscores.
- A session's first sequence is a parameter, since the counter belongs to the process
  (`nodes/stream_client.py` 90).
- A reply's sequence in the reorder buffer is that of the table entry it removed, so it is never absent.
- The spool watcher is called from one thread at a time. In the program `wait_for_new` scans in a worker
  thread (`nodes/stream_client.py` 851) while `mark_consumed` runs on the event loop (730-731); the
  interleavings inside one scan are not modelled.
- Eviction looks at the cap before each victim; the guard that mentions `exclude` is in the method as
  the program has it and is proved to make no difference.

## Where the code and its own texts differ

The model follows the code.

- `tests/unit/test_fragment_buffer.py` 52-66 expects a frame of one fragment to stay incomplete;
  `FragmentAssembly.add` completes it.
- `tests/test_common_state_machine.py` 46-47 of the package expects an exception after FAILED;
  `transition` returns the state. Entering FAILED bypasses the transition table, so TERMINATED to
  FAILED happens.
- A frame of one fragment travels with the fragmented flag, because its total is 1.

## What the proofs show about the code

- `FragmentBuffer.add` charges `buffered_bytes` for duplicates and never gives them back: the counter is
  above the bytes held by exactly the repeated bytes since the last `clear` (`MemoryBound`), later frames
  have that much less room (`FreshFrameCompletesIff`), and once it exceeds `max_bytes` no frame completes
  until the connection ends (`WedgedForGood`). `clear` is called at the end of the receive loop only.
- A current frame that is itself evicted is listed twice in its `drops`, and only then
  (`DropsAreDistinctIff`).
- The window can be exceeded by one frame after stop is set: exactly by an admission with the maximum
  reached while the session is not DEGRADED and the control plane has neither failed nor terminated
  (`ExceedingIsForced`, `ForcedExceeds`, `OneOverTheMaximum`). Under a failed or terminated one
  `on_frame_sent` raises (`utils/stream_protocol.py` 246-247) and the sender ends.
- An exception inside the forced drain makes the handler emit what was emitted of it again
  (`FailureInFlush`).
- A worker passes its sentinel on without looking at the stop event, on both sides: when the sender has
  stopped and its queue is full, the worker waits for ever (`SentinelIsStuck`), and with room for the
  sentinels every coroutine can end (`ShutdownStaysReachable`).
- A consumer that ends on the stop event or on a failed or closed reader does not flush: results behind
  an unreported frame are lost (`EverySessionDeliversInOrder`).
- The sequence counter is one for the process and the reorder buffer of each session starts at 0
  (`nodes/stream_client.py` 90, 1256): in a session whose first frame is not number 0 every result waits
  for the forced flush (`ConsecutiveFramesComeOut`).
- `RaisesIff` says when each control-plane call raises; `on_eof_sent` does in a session that never began
  streaming and `on_eof_received` too.

## Model

| member | source | states |
|---|---|---|
| `ClientPipeline.EofOnlyAfterEverythingAnswered` | ros2_ws/src/draco_roundtrip/draco_roundtrip/nodes/stream_client.py:1060-1095 | EOF safety: in every interleaving of capture stage, any number of encode workers, sender and reply consumer, when the sender decides to send EOF every frame ever accepted into the capture queue has each of its fragments on the wire once, in order, and was answered by a DATA reply; nothing is queued, in flight or unacknowledged |
| `ClientPipeline.NothingFollowsEof` | ros2_ws/src/draco_roundtrip/draco_roundtrip/nodes/stream_client.py:1060-1118 | in every state of every run EOF is the last message on the wire, so no DATA and no second EOF follows it |
| `ClientPipeline.WindowIsRespected` | ros2_ws/src/draco_roundtrip/draco_roundtrip/nodes/stream_client.py:1119-1207 | in every state of every run the unacknowledged frames are in flight; they are at most `max_limit` while stop is unset and at most one more over the whole run, although acknowledgements may shrink the limit between the check and the registration |
| `ClientPipeline.DrainedMeansAnswered` | ros2_ws/src/draco_roundtrip/draco_roundtrip/nodes/stream_client.py:1060-1070 | the test in front of EOF (session healthy, tables empty, stop unset, all sentinels counted) implies that every accepted frame was registered and answered; a frame removed by an ERROR reply cannot get past it, since DEGRADED and CLOSING never return to OK |
| `ClientPipeline.AllSentinelsCounted` | ros2_ws/src/draco_roundtrip/draco_roundtrip/nodes/stream_client.py:1056-1060 | once the sender has counted one sentinel per worker, every worker has finished and the network queue is empty |
| `ClientPipeline.QuietBehindSentinels` | ros2_ws/src/draco_roundtrip/draco_roundtrip/nodes/stream_client.py:885-918 | from then on no frame is accepted and no worker takes a step |
| `ClientPipeline.CaptureInvWorker` | ros2_ws/src/draco_roundtrip/draco_roundtrip/nodes/stream_client.py:204-206 | sentinels have infinite priority and later tickets than all frames: the first worker to take one leaves no frame in the priority queue |
| `ClientPipeline.StepKeepsInv` | ros2_ws/src/draco_roundtrip/draco_roundtrip/nodes/stream_client.py:819-1218 | every atomic step of every coroutine keeps the window bound, the sentinel order, the sentinel count, one place for each accepted frame, the bytes sent by place, the EOF conditions, and at most one report of each frame to the reorder buffer |
| `ClientHistory.UnacknowledgedIff` | ros2_ws/src/draco_roundtrip/draco_roundtrip/nodes/stream_client.py:1119-1207 | in every run a frame is unacknowledged exactly when it was registered and no ACK, reply, skip or clearing that frees it has come since, and in flight exactly when no DATA or ERROR reply has removed it since; so every ACK makes room in the window |
| `ClientPipeline.WireStep` | ros2_ws/src/draco_roundtrip/draco_roundtrip/nodes/stream_client.py:1156-1178 | a frame registered as in flight has all its fragments on the wire, the one being sent a prefix of them, every other frame none |
| `ClientPipeline.RunReportsOnce` | ros2_ws/src/draco_roundtrip/draco_roundtrip/nodes/stream_client.py:1635-1858 | in every run no frame is reported twice to the reorder buffer, neither as arrived nor as skipped: a result or an ERROR needs the table entry, which is registered once and removed once, and a skip comes from a worker whose frame never reached the network queue |
| `ClientHistory.LimitIsLastTarget` | ros2_ws/src/draco_roundtrip/draco_roundtrip/nodes/stream_client.py:527-562 | the window limit is the last target the adaptive computation gave, moved into 1..max: a target within these bounds becomes the limit, and until one is computed the limit stays |
| `ClientHistory.LeastHintFirst` | ros2_ws/src/draco_roundtrip/draco_roundtrip/nodes/stream_client.py:141-185 | a worker that takes an entry while a frame waits takes a frame whose priority hint is at most that of the waiting one, and of equal hints the one queued first |
| `ClientHistory.QueuedIff` | ros2_ws/src/draco_roundtrip/draco_roundtrip/nodes/stream_client.py:819-886 | the capture queue holds exactly what was put into it and not taken since |
| `ClientHistory.FramesKeepOrder` | ros2_ws/src/draco_roundtrip/draco_roundtrip/nodes/stream_client.py:1119-1207 | the network queue is first in, first out, and frames are begun on the wire in the order the workers put them, but for one the sender holds or stopped with |
| `ClientHistory.OneFrameAfterStop` | ros2_ws/src/draco_roundtrip/draco_roundtrip/nodes/stream_client.py:1033-1131 | once the stop event is set at most the frame at hand is still begun on the wire, none if the sender has none, and EOF is sent only if that had been decided |
| `ClientHistory.StopIsSetIff` | ros2_ws/src/draco_roundtrip/draco_roundtrip/nodes/stream_client.py:1447-1744 | the stop event is set, and the control plane has failed or terminated, exactly after one of the steps that do so |
| `ClientHistory.SessionIs` | ros2_ws/src/draco_roundtrip/draco_roundtrip/nodes/stream_client.py:453-497 | the session is CLOSING once a step has closed it, else DEGRADED once one has degraded it, else SOFT_DEGRADED from an ACK time-out to the next ACK of a frame in flight, else OK |
| `ClientHistory.SenderStopsIff` | ros2_ws/src/draco_roundtrip/draco_roundtrip/nodes/stream_client.py:1033-1218 | the sender has ended exactly after it saw the stop event, a write failed, or it was let through with the session DEGRADED or the control plane not accepting |
| `ClientHistory.RecordsAre` | ros2_ws/src/draco_roundtrip/draco_roundtrip/nodes/stream_client.py:1551-1858 | answered, failed and unread frames, the skips due, and what the reorder buffer was told are exactly the replies and skips that have come, each with its own content |
| `ClientHistory.EntryIsFound` | ros2_ws/src/draco_roundtrip/draco_roundtrip/nodes/stream_client.py:1720-1745 | a reply finds an entry exactly when its sequence is in flight or a frame in flight has its name, and removes the one of its sequence first |
| `ClientHistory.ReplyRemovesItsFrame` | ros2_ws/src/draco_roundtrip/draco_roundtrip/nodes/stream_client.py:1720-1745 | with different names for different frames a reply removes the entry of its own frame and no other |
| `ClientHistory.WorkerEndsOnce` | ros2_ws/src/draco_roundtrip/draco_roundtrip/nodes/stream_client.py:889-996 | a worker is gone exactly when it failed or saw the stop event, finished exactly when it passed its sentinel on, and both for good |
| `ClientProgress.OneSentinelForEachWorker` | ros2_ws/src/draco_roundtrip/draco_roundtrip/nodes/stream_client.py:204-206 | in every run, from the last frame on, sentinels owed, queued, taken and passed on are as many as there are workers, whatever fails; workers that give up take none |
| `ClientProgress.NoDeadlock` | ros2_ws/src/draco_roundtrip/draco_roundtrip/nodes/stream_client.py:819-1218 | while nothing has failed some coroutine can always bring the session nearer to EOF: a measure of the work left goes down, and no frame is accepted |
| `ClientProgress.EofStaysReachable` | ros2_ws/src/draco_roundtrip/draco_roundtrip/nodes/stream_client.py:1056-1118 | from every state of every run in which nothing has failed, for any number of workers and any window and queue bounds, the run can go on until EOF is sent with every frame drawn so far answered |
| `ClientProgress.ShutdownStaysReachable` | ros2_ws/src/draco_roundtrip/draco_roundtrip/nodes/stream_client.py:141-206 | from every state of every run with the stop event set, whatever has failed, sender, workers and capture stage can all still end, if there is room for the sentinels held and owed |
| `ClientProgress.SentinelIsStuck` | ros2_ws/src/draco_roundtrip/draco_roundtrip/nodes/stream_client.py:907-918 | the room is needed: once the sender has stopped and the network queue is full, a worker that has taken its sentinel waits for ever |
| `ClientProgress.SkipHappens` | ros2_ws/src/draco_roundtrip/draco_roundtrip/nodes/stream_client.py:970-994 | a frame that fails to encode is told to the reorder buffer as skipped |
| `ClientProgress.NumberIsLost` | ros2_ws/src/draco_roundtrip/draco_roundtrip/nodes/stream_client.py:834-870 | after the stop event a number can be drawn for a frame that is never accepted, so the gapless numbering at EOF needs that event unset |
| `ClientPipeline.EofReportsEverything` | ros2_ws/src/draco_roundtrip/draco_roundtrip/nodes/stream_client.py:1060-1070 | at the EOF decision the frames accepted are exactly those from the first of the session to the last drawn, without gaps, and if every reply could be parsed exactly these were reported, all as arrived |
| `ClientPipeline.EofCompletesEverything` | ros2_ws/src/draco_roundtrip/draco_roundtrip/nodes/stream_client.py:1156-1174 | and each of them has its last fragment on the wire once |
| `ClientRuns.OneOverTheMaximum` | ros2_ws/src/draco_roundtrip/draco_roundtrip/nodes/stream_client.py:1119-1207 | the extra frame does happen, for every `max_limit`: a run with one frame more than the maximum unacknowledged, because the stop event also ends the wait for room |
| `ClientRuns.ExceedingIsForced` | ros2_ws/src/draco_roundtrip/draco_roundtrip/nodes/stream_client.py:1121-1137 | a run exceeds the maximum only after the sender was let through with the stop event set, the maximum reached, the session not DEGRADED and the control plane neither failed nor terminated |
| `ClientRuns.ForcedExceeds` | ros2_ws/src/draco_roundtrip/draco_roundtrip/nodes/stream_client.py:1121-1207 | and from every such admission in every run, for every configuration, the run can go on to one frame more than the maximum; under a failed or terminated control plane `on_frame_sent` raises instead and the frame is never sent |
| `ClientRuns.EofIsReached` | ros2_ws/src/draco_roundtrip/draco_roundtrip/nodes/stream_client.py:1056-1095 | the EOF decision is reachable: a session of one frame that is sent, acknowledged and answered ends with EOF and CLOSING |
| `ServerPipeline.EveryAcknowledgedJobIsRepliedOnce` | ros2_ws/src/draco_roundtrip/draco_roundtrip/nodes/stream_server.py:894-951 | server conservation: in every interleaving of receiver, workers and sender, failing ones included, if the send loop counts all worker sentinels then each job ever acknowledged has had exactly one reply sent, and no other job any |
| `ServerPipeline.CountedMeansReplied` | ros2_ws/src/draco_roundtrip/draco_roundtrip/nodes/stream_server.py:991-1067 | the same for a state: all sentinels counted means nothing is queued, held by a coroutine or lost |
| `ServerRuns.AllCountedIsReached` | ros2_ws/src/draco_roundtrip/draco_roundtrip/nodes/stream_server.py:991-1000 | for any number of workers, any queue bound and any number of jobs a session can end with all sentinels counted, every job replied to once and nothing else |
| `ServerRuns.OneSentinelForEachWorker` | ros2_ws/src/draco_roundtrip/draco_roundtrip/nodes/stream_server.py:1229-1247 | in every run, from the end of the receive loop on and while no worker has given up, sentinels owed, queued, taken and passed on are as many as there are workers |
| `ServerRuns.NoDeadlock` | ros2_ws/src/draco_roundtrip/draco_roundtrip/nodes/stream_server.py:843-1067 | while nothing has failed and not all sentinels are counted, some coroutine can go on, and a measure of the work left goes down |
| `ServerRuns.TheEndStaysReachable` | ros2_ws/src/draco_roundtrip/draco_roundtrip/nodes/stream_server.py:991-1000 | from every state of every run in which nothing has failed, the run can go on until all sentinels are counted, without a new job |
| `ServerRuns.ShutdownStaysReachable` | ros2_ws/src/draco_roundtrip/draco_roundtrip/nodes/stream_server.py:73-125 | from every state of every run with the stop event set, whatever has failed, receive loop, workers and send loop can all still end, if there is room for the sentinels held and owed |
| `ServerRuns.SentinelIsStuck` | ros2_ws/src/draco_roundtrip/draco_roundtrip/nodes/stream_server.py:900-906 | the room is needed: once the send loop has ended early and the send queue is full, a worker with its sentinel waits for ever |
| `ServerRuns.DecodeErrorIsReported` | ros2_ws/src/draco_roundtrip/draco_roundtrip/nodes/stream_server.py:946-974 | a job that fails to decode is answered with an error, and the stop event is set |
| `ServerRuns.ReceiveCanFail` | ros2_ws/src/draco_roundtrip/draco_roundtrip/nodes/stream_server.py:1231-1242 | a failed receive sets the stop event and still owes every worker its sentinel |
| `ServerHistory.DecodeQueueIsFifo` | ros2_ws/src/draco_roundtrip/draco_roundtrip/nodes/stream_server.py:884-900 | the decode queue holds what was put and not yet taken since it was last drained, in the order it was put |
| `ServerHistory.RepliesKeepOrder` | ros2_ws/src/draco_roundtrip/draco_roundtrip/nodes/stream_server.py:991-1067 | replies are sent in the order in which the workers put the results, but for one the sender holds or has failed to send |
| `ServerHistory.OneReplyAfterStop` | ros2_ws/src/draco_roundtrip/draco_roundtrip/nodes/stream_server.py:991-1000 | once the stop event is set at most the reply at hand is still sent |
| `ServerHistory.StopIsSetIff` | ros2_ws/src/draco_roundtrip/draco_roundtrip/nodes/stream_server.py:843-1098 | the stop event is set exactly after a failed receive, a reported decode error, or a failed or reported send |
| `ServerHistory.SenderHaltsIff` | ros2_ws/src/draco_roundtrip/draco_roundtrip/nodes/stream_server.py:991-1098 | the send loop has ended early exactly after it saw the stop event, a send failed or raised, or an error was sent: a decode error it takes is sent before |
| `ServerHistory.WorkerEndsOnce` | ros2_ws/src/draco_roundtrip/draco_roundtrip/nodes/stream_server.py:884-975 | a worker has halted exactly when it gave up, finished exactly when it passed its sentinel on, and both for good |
| `ServerPipeline.AcknowledgedJobs` | ros2_ws/src/draco_roundtrip/draco_roundtrip/nodes/stream_server.py:843-865 | in every run the jobs with a recorded place are exactly those acknowledged, so the replies are a permutation of them |
| `ServerPipeline.StepKeepsInv` | ros2_ws/src/draco_roundtrip/draco_roundtrip/nodes/stream_server.py:843-1098 | every step keeps each acknowledged job in exactly one place, one sentinel per finished worker and none ahead of a job, and lets a job get lost only on a run that can no longer count all sentinels |
| `ServerPipeline.StaysBroken` | ros2_ws/src/draco_roundtrip/draco_roundtrip/nodes/stream_server.py:73-125 | once a worker or the sender has given up, no later step leads back to a run that ends regularly |
| `Redelivery.ServerRepliesAreDeliveredInOrder` | ros2_ws/src/draco_roundtrip/draco_roundtrip/nodes/stream_client.py:1362-1393 | both ends together: when the acknowledged jobs are frames 0..n-1 in any order and the server counts all its sentinels, the client emits frame 0 to n-1 in order, each with the result of its own job, and keeps nothing back |
| `Redelivery.PermutedRepliesAreSorted` | ros2_ws/src/draco_roundtrip/draco_roundtrip/nodes/stream_client.py:1847-1857 | the same for any list of replies that holds each job once |
| `Redelivery.EverySessionDeliversInOrder` | ros2_ws/src/draco_roundtrip/draco_roundtrip/nodes/stream_client.py:1362-1393 | in every run of the client pipeline and for every way the reply consumer can end, what is emitted is in strictly ascending sequence order, each result once: all results that could be parsed if it ends on a server EOF or error message, on cancellation or an exception outside `emit_result` (the endings that flush), and otherwise, on the stop event or a failed or closed reader, exactly those with nothing unreported in front of them; skips are counted likewise |
| `Redelivery.EndingsDiffer` | ros2_ws/src/draco_roundtrip/draco_roundtrip/nodes/stream_client.py:1445-1620 | the smallest session in which the endings differ: a result behind a frame never reported comes out with the four that flush and is lost with the other three |
| `Redelivery.AnsweredSessionIsDelivered` | ros2_ws/src/draco_roundtrip/draco_roundtrip/nodes/stream_client.py:1060-1095 | a whole client session: at the EOF decision, if every reply could be parsed, the results of all its frames come out in order, each with its own reply; without the flush exactly when the session begins at sequence 0 or has no frames |
| `Redelivery.ConsecutiveFramesComeOut` | ros2_ws/src/draco_roundtrip/draco_roundtrip/nodes/stream_client.py:1256-1257 | the same for any order of arrival of consecutive frames: the buffer waits for sequence 0, so frames numbered from elsewhere all wait for the flush |
| `Redelivery.WholeSessionIsDeliveredInOrder` | ros2_ws/src/draco_roundtrip/draco_roundtrip/nodes/stream_client.py:1156-1174 | client and server: if every frame completed on the wire is acknowledged once, the server counts all its sentinels, and what the client run was told are the server's replies, every one parsed, then what this run emits, flush included, is the frames of the session in order, each with the reply to its own job and each reply once; without the flush exactly when the session begins at 0 or is empty |
| `Redelivery.ServerAnswersTheSession` | ros2_ws/src/draco_roundtrip/draco_roundtrip/nodes/stream_client.py:1156-1174 | for a session that begins at 0 the jobs are frames 0..n-1, and the server's replies to them, in whatever order its workers finished, come out of a buffer in order without the flush |
| `Reorder.EveryDrainAccounts` | ros2_ws/src/draco_roundtrip/draco_roundtrip/nodes/stream_client.py:1362-1380 | after every unforced drain, repeats and late arrivals included: emitted and skipped together are exactly 0..next-1, no sequence in both, both lists ascending, and `next_sequence` is waiting in neither table |
| `Reorder.DeliveryIsInOrder` | ros2_ws/src/draco_roundtrip/draco_roundtrip/nodes/stream_client.py:1362-1393 | if no sequence is reported twice, then in any order of reports the whole run with its final forced flush emits every result that arrived, once, in strictly ascending order, and counts exactly the skips |
| `Reorder.PermutationComesOutSorted` | ros2_ws/src/draco_roundtrip/draco_roundtrip/nodes/stream_client.py:1847-1857 | a permutation of 0..n-1 is emitted as 0..n-1, each with its own result, and nothing is left for the flush |
| `Reorder.EmittedBeforeFlush` | ros2_ws/src/draco_roundtrip/draco_roundtrip/nodes/stream_client.py:1362-1380 | for any reports, repeated ones included, what is emitted without the flush is the ascending list of the sequences that arrived before their turn had passed, were not skipped before it, and have nothing unreported in front of them |
| `Reorder.FlushBreaksOrderIff` | ros2_ws/src/draco_roundtrip/draco_roundtrip/nodes/stream_client.py:1381-1393 | for any reports, repeated ones included, the forced flush emits a frame behind a later one exactly when some sequence was reported both as arrived and as skipped before its turn had passed, and a later one that only arrived had nothing unreported in front of it |
| `Reorder.DeliveryWithoutFlush` | ros2_ws/src/draco_roundtrip/draco_roundtrip/nodes/stream_client.py:1362-1380 | if no sequence is reported twice, what is emitted without the flush is exactly the results with nothing unreported in front of them, in ascending order, each once, and the same of the skips |
| `Reorder.LastResultCounts` | ros2_ws/src/draco_roundtrip/draco_roundtrip/nodes/stream_client.py:1847-1857 | whatever the reports, what is emitted of a sequence is the result last reported for it before its turn had passed |
| `Reorder.FailureInDrain` | ros2_ws/src/draco_roundtrip/draco_roundtrip/nodes/stream_client.py:1376-1378 | `emit_result` raising or being cancelled at any round of an unforced drain: after the flush of the handler every result has been handed to it in order, once each, and every skip counted once |
| `Reorder.FailureInFlush` | ros2_ws/src/draco_roundtrip/draco_roundtrip/nodes/stream_client.py:1381-1384 | `emit_result` failing inside the forced drain: the handler drains again, so the waiting results handed over before are handed over twice, whatever the reports |
| `Reorder.RepeatsBreakTheFlush` | ros2_ws/src/draco_roundtrip/draco_roundtrip/nodes/stream_client.py:1365-1393 | the buffer alone needs the hypothesis of `DeliveryIsInOrder`: told that a sequence arrived and was skipped, it flushes it after later frames (no run of the client tells it so) |
| `Reorder.ReorderBuffer.DrainReady` | ros2_ws/src/draco_roundtrip/draco_roundtrip/nodes/stream_client.py:1362-1393 | the loop of `drain_ready` leaves the tables, `next_sequence` and both outputs as the specification says, forced or not, and returns how many were emitted and skipped |
| `Reorder.ReorderBuffer.FlushRest` | ros2_ws/src/draco_roundtrip/draco_roundtrip/nodes/stream_client.py:1381-1393 | the forced half emits everything waiting in ascending order and empties both tables |
| `Reorder.ReorderBuffer.OnEvent` | ros2_ws/src/draco_roundtrip/draco_roundtrip/nodes/stream_client.py:1551-1571 | one event: a skip is recorded, a result recorded unless its turn has passed, then the buffer is drained |
| `Fragmentation.SplitIsAPartition` | ros2_ws/src/draco_roundtrip/draco_roundtrip/utils/stream_protocol.py:146-182 | a split loses nothing: the payloads joined are the payload, every fragment has its index, the right total and the frame length, all but the last are full and the last is not empty |
| `Fragmentation.TotalsFitTheWire` | ros2_ws/src/draco_roundtrip/draco_roundtrip/utils/stream_protocol.py:165-182 | every accepted fragment size keeps the total within the 16 bits of the wire if and only if the payload has at most 16,776,960 bytes |
| `Fragmentation.SplitRefusedIff` | ros2_ws/src/draco_roundtrip/draco_roundtrip/utils/stream_protocol.py:146-196 | a split is refused exactly when the payload is longer than a positive fragment size outside 256..1400 |
| `Fragmentation.IterFragments` | ros2_ws/src/draco_roundtrip/draco_roundtrip/utils/stream_protocol.py:146-182 | the offset and index loop yields exactly that split, or the size error |
| `Fragmentation.ValidateFragmentSize` | ros2_ws/src/draco_roundtrip/draco_roundtrip/utils/stream_protocol.py:185-195 | accepts 0 and 256 to 1400, unchanged, and nothing else |
| `Reassembly.MemoryBound` | ros2_ws/src/draco_roundtrip/draco_roundtrip/nodes/stream_server.py:198-250 | after any calls on a new buffer in any order `buffered_bytes` is above the bytes held by exactly the bytes of repeated fragments since the last `clear`, so it is exact if and only if there were none; and with `max_bytes` >= 0 the bytes held stay within it |
| `Reassembly.ExactWithoutRepeats` | ros2_ws/src/draco_roundtrip/draco_roundtrip/nodes/stream_server.py:198-250 | in particular it is exact on runs that repeat no fragment, so `max(0, ..)` never clips |
| `Reassembly.AddBoundsMemory` | ros2_ws/src/draco_roundtrip/draco_roundtrip/nodes/stream_server.py:204-235 | every `add` raises counter minus bytes held by the payload of a duplicate and by nothing otherwise, and with `max_bytes` >= 0 at most `max_bytes` are held afterwards, duplicates included |
| `Reassembly.EvictionIsMinimal` | ros2_ws/src/draco_roundtrip/draco_roundtrip/nodes/stream_server.py:252-269 | the victims are the shortest prefix of the states in (last_update, insertion) order that brings the counter under the cap, or all states when none does |
| `Reassembly.OldestFirstSorts` | ros2_ws/src/draco_roundtrip/draco_roundtrip/nodes/stream_server.py:256-258 | the list walked is every state once, strictly by last_update and then insertion |
| `Reassembly.EvictionRespectsCap` | ros2_ws/src/draco_roundtrip/draco_roundtrip/nodes/stream_server.py:252-269 | after an eviction the bytes held are within a cap that is not negative, although the counter also charges duplicates |
| `Reassembly.EvictKeepsWF` | ros2_ws/src/draco_roundtrip/draco_roundtrip/nodes/stream_server.py:252-269 | an eviction removes exactly the victims and keeps counter and dict consistent, exactly so if they were |
| `Reassembly.RemoveKeepsWF` | ros2_ws/src/draco_roundtrip/draco_roundtrip/nodes/stream_server.py:226-229 | taking one state out counts down exactly what it held |
| `Reassembly.ChargedKeepsWF` | ros2_ws/src/draco_roundtrip/draco_roundtrip/nodes/stream_server.py:223-225 | a duplicate is charged to `buffered_bytes` though nothing more is held |
| `Reassembly.GcDropsExactlyTheExpired` | ros2_ws/src/draco_roundtrip/draco_roundtrip/nodes/stream_server.py:237-244 | `gc` removes exactly the states not touched for `ttl`, leaves the others as they are, and reports the removed ones in insertion order |
| `Reassembly.AddWithRoom` | ros2_ws/src/draco_roundtrip/draco_roundtrip/nodes/stream_server.py:223-235 | with room for the fragment nothing is evicted, and the frame completes, stays incomplete or lacks a chunk as its assembly says |
| `FragmentTimes.StateTells` | ros2_ws/src/draco_roundtrip/draco_roundtrip/nodes/stream_server.py:178-184 | told from the calls: a frame held holds exactly the fragments brought since it has been held, and its time stamp is the time of the last call that brought a new one; a repeated fragment does not count |
| `FragmentTimes.GcGoesByLatest` | ros2_ws/src/draco_roundtrip/draco_roundtrip/nodes/stream_server.py:237-244 | `gc` drops a frame exactly when the last call that brought a new fragment of it is `ttl` ago |
| `FragmentTimes.GcSparesTheFed` | ros2_ws/src/draco_roundtrip/draco_roundtrip/nodes/stream_server.py:237-244 | with a clock that does not run back a frame outlives a `gc` exactly when a new fragment of it has come within `ttl` since it has been held |
| `FragmentTimes.OrderIsByStart` | ros2_ws/src/draco_roundtrip/draco_roundtrip/nodes/stream_server.py:204-235 | frames stand in the order in which they began to be held, whatever was evicted, dropped or finished in between |
| `FragmentTimes.EvictionGoesByLatest` | ros2_ws/src/draco_roundtrip/draco_roundtrip/nodes/stream_server.py:252-270 | a frame is evicted exactly when the counter is above the cap even without the frames in front of it, and these are the frames last fed before it, or at the same time and held longer |
| `Overcount.DropsAreDistinctIff` | ros2_ws/src/draco_roundtrip/draco_roundtrip/nodes/stream_server.py:226-235 | the drops of an `add` are its victims, and the current frame once more if it is among them; they name each sequence once if and only if the counter without the states older than the current frame is within the cap |
| `Overcount.LargeFragmentIsListedTwice` | ros2_ws/src/draco_roundtrip/draco_roundtrip/nodes/stream_server.py:231-233 | a fragment that alone exceeds the cap is dropped twice |
| `Overcount.IsVictimIff` | ros2_ws/src/draco_roundtrip/draco_roundtrip/nodes/stream_server.py:256-268 | a state is evicted if and only if the counter without all older states is still above the cap |
| `Overcount.OlderThanIsOlder` | ros2_ws/src/draco_roundtrip/draco_roundtrip/nodes/stream_server.py:256-258 | those are exactly the states touched before it, or at the same instant and inserted before it |
| `Overcount.RepeatIsOvercounted` | ros2_ws/src/draco_roundtrip/draco_roundtrip/nodes/stream_server.py:223-250 | on an exact counter a repeated fragment adds its bytes for nothing; `gc` keeps the error, `clear` removes it |
| `Overcount.RepeatHappens` | ros2_ws/src/draco_roundtrip/draco_roundtrip/nodes/stream_server.py:179-180 | the second time any fragment of an unfinished frame comes, its bytes are counted twice and held once |
| `Overcount.FreshFrameCompletesIff` | ros2_ws/src/draco_roundtrip/draco_roundtrip/nodes/stream_server.py:223-230 | a new frame of one fragment, the latest to arrive, completes if and only if its bytes and the overcount together are within `max_bytes`: repeated bytes are lost to all later frames |
| `Overcount.NothingSurvives` | ros2_ws/src/draco_roundtrip/draco_roundtrip/nodes/stream_server.py:204-269 | once the overcount exceeds `max_bytes`, an `add` completes nothing and leaves the buffer empty |
| `Overcount.WedgedForGood` | ros2_ws/src/draco_roundtrip/draco_roundtrip/nodes/stream_server.py:204-250 | and so does every later `add`, whatever else is called, until `clear` at the end of the connection |
| `FragmentBuffers.FragmentAssembly.Add` | ros2_ws/src/draco_roundtrip/draco_roundtrip/nodes/stream_server.py:178-184 | a chunk is stored once; a repeated index changes nothing; complete when as many chunks as `total` are held, one-fragment frames at once |
| `FragmentBuffers.FragmentBuffer.constructor` | ros2_ws/src/draco_roundtrip/draco_roundtrip/nodes/stream_server.py:198-202 | a new buffer is empty and its counter exact |
| `FragmentBuffers.FragmentBuffer.Add` | ros2_ws/src/draco_roundtrip/draco_roundtrip/nodes/stream_server.py:204-235 | the method leaves the buffer and returns the outcome that the value-level `add` describes |
| `FragmentBuffers.FragmentBuffer.EvictForMemory` | ros2_ws/src/draco_roundtrip/draco_roundtrip/nodes/stream_server.py:252-269 | evicts exactly the minimal victims, whatever `exclude` is: that argument never changes the outcome |
| `FragmentBuffers.FragmentBuffer.Gc` | ros2_ws/src/draco_roundtrip/draco_roundtrip/nodes/stream_server.py:237-244 | drops what the value-level `gc` drops, walking a snapshot |
| `FragmentBuffers.FragmentBuffer.Clear` | ros2_ws/src/draco_roundtrip/draco_roundtrip/nodes/stream_server.py:246-250 | reports every state as dropped on shutdown and leaves an empty buffer |
| `FragmentBuffers.FragmentBuffer.Charge` | ros2_ws/src/draco_roundtrip/draco_roundtrip/nodes/stream_server.py:223-224 | one more fragment in one state, charged for even when it is a duplicate |
| `FragmentTransfer.TransferIsTheIdentity` | ros2_ws/src/draco_roundtrip/draco_roundtrip/nodes/stream_server.py:204-235 | for any payloads and any interleaving and permutation of their fragments, duplicates before completion allowed, as long as there was room at every arrival before: an arrival completes its frame exactly when it brings the last missing fragment, with the original payload and nothing dropped, if and only if the bytes that have arrived of unfinished frames, the bytes repeated so far and its own are within `max_bytes` |
| `FragmentTransfer.CompletesExactlyOnce` | ros2_ws/src/draco_roundtrip/draco_roundtrip/nodes/stream_server.py:178-187 | a frame all of whose fragments arrived was completed by exactly one of the arrivals |
| `FragmentTransfer.RunMirrors` | ros2_ws/src/draco_roundtrip/draco_roundtrip/nodes/stream_server.py:204-235 | along such a run the buffer holds, for each frame begun and not finished, exactly the fragments seen, and counts exactly their bytes and the repeated ones: finished frames weigh nothing |
| `FragmentTransfer.SmallRunsHaveRoom` | ros2_ws/src/draco_roundtrip/draco_roundtrip/nodes/stream_server.py:204-235 | a run whose bytes all fit in `max_bytes` has room at every arrival |
| `WireTransfer.FramesCrossTheWire` | ros2_ws/src/draco_roundtrip/draco_roundtrip/nodes/stream_client.py:1140-1174 | end to end: fragments of any frames, interleaved and repeated before completion, written as binary messages to one stream, are read back one by one followed by a clean end; each brings the server's buffer the fragment that was sent and, as long as there was room before, the last missing one of a frame completes it with the payload the client started from, nothing dropped, if and only if there is room for it; a session may stream any amount in total |
| `WireTransfer.FragmentSurvives` | ros2_ws/src/draco_roundtrip/draco_roundtrip/nodes/stream_server.py:716-740 | a fragment that fits the wire, the only one of its frame included, is written, read and handed to the buffer as it was |
| `WireTransfer.SmallFramesAreWireable` | ros2_ws/src/draco_roundtrip/draco_roundtrip/utils/stream_protocol.py:146-195 | payloads of at most 16,776,960 bytes with 32-bit sequences fit the wire for any accepted fragment size |
| `HeapQueue.Push` | ros2_ws/src/draco_roundtrip/draco_roundtrip/common/timers.py:20 | heap insertion keeps the heap order and adds exactly the one entry |
| `HeapQueue.Pop` | ros2_ws/src/draco_roundtrip/draco_roundtrip/common/timers.py:33 | heap removal takes a least entry by (deadline, sequence) and keeps the heap order and all other entries |
| `HeapQueue.RootIsLeast` | ros2_ws/src/draco_roundtrip/draco_roundtrip/common/timers.py:32 | in a heap nothing precedes the entry at the top |
| `Timers.AckDeadlineHeap.Push` | ros2_ws/src/draco_roundtrip/draco_roundtrip/common/timers.py:16-22 | the heap refines a plain map: the deadline is set, and the result is true exactly when the least deadline of the map changed |
| `Timers.AckDeadlineHeap.Cancel` | ros2_ws/src/draco_roundtrip/draco_roundtrip/common/timers.py:24-27 | removes the deadline from the map and tells whether there was one |
| `Timers.AckDeadlineHeap.PopDue` | ros2_ws/src/draco_roundtrip/draco_roundtrip/common/timers.py:29-48 | returns the sequences due in the map and removes exactly these; the loop ends because (number of deadlines, number of stale entries) falls lexicographically |
| `Timers.AckDeadlineHeap.NextDeadline` | ros2_ws/src/draco_roundtrip/draco_roundtrip/common/timers.py:50-62 | returns the least deadline of the map, None if and only if the map is empty, and does not change the map |
| `Timers.AckDeadlineHeap.ReplaceTop` | ros2_ws/src/draco_roundtrip/draco_roundtrip/common/timers.py:38-40 | swapping an outdated entry at the top for the current deadline keeps the heap size and removes one stale entry |
| `Timers.DueIsExactAndSorted` | ros2_ws/src/draco_roundtrip/draco_roundtrip/common/timers.py:29-48 | what `pop_due` returns is exactly the sequences with deadline <= now, once each, sorted by (deadline, sequence) |
| `Timers.StaleTopIsSuperseded` | ros2_ws/src/draco_roundtrip/draco_roundtrip/common/timers.py:35-40 | a stale entry at the top whose sequence still has a deadline has a strictly later one that is already in the heap, so pushing it again is redundant |
| `Timers.LiveTopIsFirst` | ros2_ws/src/draco_roundtrip/draco_roundtrip/common/timers.py:41-46 | a live entry at the top belongs to the first deadline of the map |
| `Timers.MinDeadline` | ros2_ws/src/draco_roundtrip/draco_roundtrip/common/timers.py:50-62 | the specification used above: a deadline of the map that no other undercuts |
| `Framing.StreamRoundTrip` | ros2_ws/src/draco_roundtrip/draco_roundtrip/net/protocol.py:192-271 | a list of messages written one after the other is read back in order, each in its normal form, followed by a clean end |
| `Framing.CutStream` | ros2_ws/src/draco_roundtrip/draco_roundtrip/net/protocol.py:226-247 | a stream cut inside a message gives the whole messages before the cut and then a connection error, never a message |
| `Framing.NormalForm` | ros2_ws/src/draco_roundtrip/draco_roundtrip/net/protocol.py:177-219 | the normal form spelled out: absent numbers become 0, sequence and timestamp are cut to 32 and 64 bits, an unknown kind becomes data, any fragment total sets the fragmented flag, version 1 loses timestamp and content type |
| `Framing.ReadsBackIff` | ros2_ws/src/draco_roundtrip/draco_roundtrip/net/protocol.py:192-271 | a message that can be written and whose version is accepted is read back as its normal form if and only if its total is at most 65535 |
| `Framing.SerializesIff` | ros2_ws/src/draco_roundtrip/draco_roundtrip/net/protocol.py:192-219 | exactly which messages can be written, whatever their kind: the name fits 16 bits, the payload 32, timestamp and content type are in range, the version is 0, 1 or 2 and the fragment is valid |
| `Framing.ReadOutcome` | ros2_ws/src/draco_roundtrip/draco_roundtrip/net/protocol.py:222-256 | exactly what reading ends in, told from the bytes: a clean end, a closed connection within the header, a protocol error for an unknown magic, version or type or for version 1 where it is not allowed, an invalid fragment, a lost connection, or a message |
| `Framing.ReadFields` | ros2_ws/src/draco_roundtrip/draco_roundtrip/net/protocol.py:257-271 | a message that is read has its kind, name, payload, numbers and fragment from their places in the bytes |
| `Framing.ParseSerialized` | ros2_ws/src/draco_roundtrip/draco_roundtrip/net/protocol.py:222-271 | one message is read back and exactly the bytes after it are left |
| `Framing.CutMessageFails` | ros2_ws/src/draco_roundtrip/draco_roundtrip/net/protocol.py:226-254 | a proper non-empty part of a message is answered with a connection error |
| `Framing.SendBinary` | ros2_ws/src/draco_roundtrip/draco_roundtrip/net/protocol.py:192-219 | whatever amounts the socket takes, exactly the serialised message goes out, or a proper prefix of it and an error; what cannot be serialised sends nothing |
| `Framing.SendChunked` | ros2_ws/src/draco_roundtrip/draco_roundtrip/net/protocol.py:122-133 | slices of any positive part taken add up to the payload; a write of nothing is an error |
| `Framing.RecvBinary` | ros2_ws/src/draco_roundtrip/draco_roundtrip/net/protocol.py:222-271 | whatever sizes the socket delivers, the result and the bytes left are those of parsing the stream in one piece |
| `Framing.RecvExact` | ros2_ws/src/draco_roundtrip/draco_roundtrip/net/io.py:8-21 | all `size` bytes, or an error exactly when the stream holds fewer |
| `Framing.Fill` | ros2_ws/src/draco_roundtrip/draco_roundtrip/net/protocol.py:226-245 | extends a buffer to a given size over partial reads, failing exactly when the stream is too short |
| `FrameHeaders.HeaderRoundTrip` | ros2_ws/src/draco_roundtrip/draco_roundtrip/protocol/header.py:90-201 | every header that serialises and that the reader accepts is read back with its numbers cut to their fields, and its own first six bytes announce its length |
| `FrameHeaders.WrittenIff` | ros2_ws/src/draco_roundtrip/draco_roundtrip/protocol/header.py:90-133 | a header is written exactly when name length, payload length, timestamp and content type fit, the fragment is valid and the version is 0, 1 or 2; an invalid fragment is reported before the version |
| `FrameHeaders.PrefixLayout` | ros2_ws/src/draco_roundtrip/draco_roundtrip/protocol/header.py:20-60 | the first six bytes: the magic and version of version 2 or 1 and the flags, as literal numbers, and the length of the whole header |
| `FrameHeaders.FieldLayout` | ros2_ws/src/draco_roundtrip/draco_roundtrip/protocol/header.py:101-132 | where each number stands in the header and how it is cut |
| `BigEndian.DecodeIsBigEndian` | ros2_ws/src/draco_roundtrip/draco_roundtrip/protocol/header.py:20-60 | the first byte of a number is the most significant one |
| `FrameHeaders.FlagsRoundTrip` | ros2_ws/src/draco_roundtrip/draco_roundtrip/protocol/header.py:208-224 | type, fragmented and more-fragments are recovered from the flags byte |
| `BigEndian.RoundTrip` | ros2_ws/src/draco_roundtrip/draco_roundtrip/protocol/header.py:112-135 | an unsigned integer packed into its width is unpacked again |
| `Framing.SendMessages` | ros2_ws/src/draco_roundtrip/draco_roundtrip/net/protocol.py:192-219 | a list of messages goes out one after the other, or some whole ones and a part of the next and an error |
| `Framing.ReceiveMessages` | ros2_ws/src/draco_roundtrip/draco_roundtrip/net/protocol.py:222-271 | reading until the stream ends or fails gives what parsing all bytes in one piece gives |
| `Framing.Exchange` | ros2_ws/src/draco_roundtrip/draco_roundtrip/net/protocol.py:192-271 | over two connected sockets, whatever amounts either moves at a time: all messages arrive in order in their normal form with a clean end, and when the writer loses the connection those it had written whole do, with a clean end or a connection error |
| `ControlPlanes.RunStaysSettled` | ros2_ws/src/draco_roundtrip/draco_roundtrip/utils/stream_protocol.py:202-325 | after any calls, raising ones included: INIT, HANDSHAKING and TERMINATED mean no pending ACK |
| `ControlPlanes.FinalPhasesStay` | ros2_ws/src/draco_roundtrip/draco_roundtrip/utils/stream_protocol.py:205-212 | once reached, TERMINATED and FAILED are never left |
| `ControlPlanes.PendingIsOutstanding` | ros2_ws/src/draco_roundtrip/draco_roundtrip/utils/stream_protocol.py:240-259 | after any calls the pending sequences are exactly those sent since their last successful ACK |
| `ControlPlanes.CallTracksPending` | ros2_ws/src/draco_roundtrip/draco_roundtrip/utils/stream_protocol.py:229-304 | only a frame sent and an ACK that did not raise change the set of pending sequences |
| `ControlPlanes.ExpiringTwice` | ros2_ws/src/draco_roundtrip/draco_roundtrip/utils/stream_protocol.py:291-304 | expiry forgets no sequence; a second call at the same instant returns nothing if and only if every re-armed timeout is positive |
| `ControlPlanes.RaisesIff` | ros2_ws/src/draco_roundtrip/draco_roundtrip/utils/stream_protocol.py:229-304 | for every call exactly when it raises; a raising call has changed nothing but the error it reports |
| `ControlHistory.PhaseIsExpected` | ros2_ws/src/draco_roundtrip/draco_roundtrip/utils/stream_protocol.py:229-283 | the phase is the one the calls make: FAILED after an error or a shutdown of a session that had not finished, else TERMINATED when the reception of EOF, or behind an EOF an ACK, found nothing pending, else DRAINING once EOF was sent or received, else STREAMING, HANDSHAKING or INIT |
| `ControlHistory.NothingPendingIff` | ros2_ws/src/draco_roundtrip/draco_roundtrip/utils/stream_protocol.py:253-272 | nothing is pending exactly when every frame sent has been acknowledged since |
| `ControlHistory.DeadlineIs` | ros2_ws/src/draco_roundtrip/draco_roundtrip/utils/stream_protocol.py:249-251 | a pending sequence expires exactly when its time-out has passed since it was last sent or armed again |
| `ControlHistory.OrderIsEntry` | ros2_ws/src/draco_roundtrip/draco_roundtrip/utils/stream_protocol.py:291-304 | sequences are reported as expired in the order in which they became pending |
| `ControlHistory.FieldsAreLast` | ros2_ws/src/draco_roundtrip/draco_roundtrip/utils/stream_protocol.py:229-289 | start, last sign of life, error and end are what the last call that sets them has set |
| `ControlHistory.SilentIff` | ros2_ws/src/draco_roundtrip/draco_roundtrip/utils/stream_protocol.py:306-310 | the peer counts as silent exactly when the last connection or heartbeat is 6 s ago |
| `ControlPlanes.ControlPlane.IsSilent` | ros2_ws/src/draco_roundtrip/draco_roundtrip/utils/stream_protocol.py:306-310 | the method says whether the last sign of life is too old |
| `ControlPlanes.PhaseMovesForward` | ros2_ws/src/draco_roundtrip/draco_roundtrip/utils/stream_protocol.py:317-325 | no call moves the phase back |
| `ControlPlanes.ControlPlane.MoveState` | ros2_ws/src/draco_roundtrip/draco_roundtrip/utils/stream_protocol.py:317-325 | a move outside the table raises and changes nothing; entering TERMINATED or FAILED records the end |
| `ControlPlanes.ControlPlane.OnConnected` | ros2_ws/src/draco_roundtrip/draco_roundtrip/utils/stream_protocol.py:229-233 | starts the handshake and both clocks, or raises and changes nothing |
| `ControlPlanes.ControlPlane.OnFrameSent` | ros2_ws/src/draco_roundtrip/draco_roundtrip/utils/stream_protocol.py:240-251 | begins streaming if need be and arms the deadline; raising leaves the table alone |
| `ControlPlanes.ControlPlane.OnAck` | ros2_ws/src/draco_roundtrip/draco_roundtrip/utils/stream_protocol.py:253-259 | removes the deadline, raises for an unknown sequence, and terminates a draining session with the last one |
| `ControlPlanes.ControlPlane.OnEofReceived` | ros2_ws/src/draco_roundtrip/draco_roundtrip/utils/stream_protocol.py:266-272 | drains, and terminates at once when nothing is pending; raises before streaming |
| `ControlPlanes.ControlPlane.OnError` | ros2_ws/src/draco_roundtrip/draco_roundtrip/utils/stream_protocol.py:274-277 | records the error even when the move to FAILED raises |
| `ControlPlanes.ControlPlane.OnHeartbeat` | ros2_ws/src/draco_roundtrip/draco_roundtrip/utils/stream_protocol.py:285-289 | records the heartbeat and begins streaming out of the handshake |
| `ControlPlanes.ControlPlane.OnShutdown` | ros2_ws/src/draco_roundtrip/draco_roundtrip/utils/stream_protocol.py:279-283 | fails a live session and records the end of a finished one; raises before the handshake |
| `ControlPlanes.ControlPlane.ExpiredSequences` | ros2_ws/src/draco_roundtrip/draco_roundtrip/utils/stream_protocol.py:291-304 | returns the expired sequences in insertion order and arms exactly these again |
| `Lifecycles.HistoryReplays` | ros2_ws/src/draco_roundtrip/draco_roundtrip/common/state_machine.py:53-118 | after any requests, refused ones and resets included, the history is a connected path from INIT that replays to the current state and reason, with at most five changes of state since the last reset |
| `Lifecycles.FiveChangesHappen` | ros2_ws/src/draco_roundtrip/draco_roundtrip/common/state_machine.py:59-60 | five do happen, the last from TERMINATED to FAILED past the table |
| `Lifecycles.TransitionKeepsFaithful` | ros2_ws/src/draco_roundtrip/draco_roundtrip/common/state_machine.py:53-99 | a transition or failure never leads back, never leaves FAILED, and leaves TERMINATED only for FAILED |
| `Lifecycles.RefusedIff` | ros2_ws/src/draco_roundtrip/draco_roundtrip/common/state_machine.py:53-77 | of the moves between two different states other than FAILED exactly five are made and the others refused; FAILED is entered from everywhere and never left |
| `Lifecycles.ReasonIsLast` | ros2_ws/src/draco_roundtrip/draco_roundtrip/common/state_machine.py:53-99 | the reason is that of the last request that changed the state or gave the state it was in a reason that is not empty |
| `Lifecycles.HistoryGrows` | ros2_ws/src/draco_roundtrip/draco_roundtrip/common/state_machine.py:53-99 | a request adds one entry to the history exactly when it changes the state or the reason, and changes none |
| `Lifecycles.StreamStateMachine.TransitionTo` | ros2_ws/src/draco_roundtrip/draco_roundtrip/common/state_machine.py:53-77 | the method changes state, reason and history as specified, and raises only for a move the table refuses; a failed machine stays without raising |
| `Lifecycles.StreamStateMachine.EnterFailed` | ros2_ws/src/draco_roundtrip/draco_roundtrip/common/state_machine.py:79-99 | enters FAILED from every state, or takes over a new reason when already there |
| `Sessions.LifecycleAgrees` | ros2_ws/src/draco_roundtrip/draco_roundtrip/nodes/stream_client.py:1658-1664 | over all call sites of both nodes, in any order, a terminated lifecycle means a terminated control plane with nothing pending |
| `Sessions.VisitKeepsAgreement` | ros2_ws/src/draco_roundtrip/draco_roundtrip/nodes/stream_server.py:1252-1257 | every single call site keeps that, raising calls included |
| `Sessions.TerminatedTogether` | ros2_ws/src/draco_roundtrip/draco_roundtrip/nodes/stream_client.py:1658-1718 | the converse of `LifecycleAgrees` on runs without a failure path: the lifecycle is terminated exactly when the control plane is, and drains when it drains |
| `Sessions.ClientTerminates` | ros2_ws/src/draco_roundtrip/draco_roundtrip/nodes/stream_client.py:1060-1118 | such runs end: connection, a frame, EOF and its ACK terminate both machines |
| `Sessions.FailedIff` | ros2_ws/src/draco_roundtrip/draco_roundtrip/nodes/stream_client.py:188-201 | in every run the lifecycle is FAILED exactly when a failure path was taken or an ACK came of a frame not pending in a session under way |
| `Sessions.CompletionSettles` | ros2_ws/src/draco_roundtrip/draco_roundtrip/nodes/stream_server.py:1248-1259 | the end of a connection settles a session that has begun: the control plane has ended, and the lifecycle with it if it was draining |
| `SpoolWatchers.RunStaysValid` | ros2_ws/src/draco_roundtrip/draco_roundtrip/nodes/stream_client.py:1923-2036 | in every run `_known_order` is duplicate-free and lists `_known`, `_retired` lists `_retired_set`, no name is both known and retired, and both are bounded |
| `SpoolWatchers.GcTakesOldest` | ros2_ws/src/draco_roundtrip/draco_roundtrip/nodes/stream_client.py:1970-1977 | with calls one at a time the oldest known name is never retired, so the `continue` of `_gc_known` is not reached |
| `SpoolWatchers.NewestStay` | ros2_ws/src/draco_roundtrip/draco_roundtrip/nodes/stream_client.py:1970-1977 | a collection with a window leaves exactly the newest `window` names known, in their order |
| `SpoolWatchers.AgreesWithSeenSet` | ros2_ws/src/draco_roundtrip/draco_roundtrip/nodes/stream_client.py:1960-1968 | with gc off, as long as at most 65,536 different names were consumed, the containers hold exactly what an unbounded seen-set would |
| `SpoolWatchers.AcceptedIffNew` | ros2_ws/src/draco_roundtrip/draco_roundtrip/nodes/stream_client.py:1960-1968 | and a name is accepted exactly when it was neither found nor consumed before |
| `SpoolWatchers.AcceptedAtMostOnce` | ros2_ws/src/draco_roundtrip/draco_roundtrip/nodes/stream_client.py:2023-2036 | with gc off a name accepted twice was consumed in between, and then 65,536 other names were |
| `SpoolWatchers.SpoolWatcher.RememberName` | ros2_ws/src/draco_roundtrip/draco_roundtrip/nodes/stream_client.py:1960-1968 | accepts a name unless it is known or retired, and collects |
| `SpoolWatchers.SpoolWatcher.Collect` | ros2_ws/src/draco_roundtrip/draco_roundtrip/nodes/stream_client.py:1970-1977 | forgets the oldest names until the window is met |
| `SpoolWatchers.SpoolWatcher.Consume` | ros2_ws/src/draco_roundtrip/draco_roundtrip/nodes/stream_client.py:2023-2036 | moves a name from known to retired, pushing the oldest retired name out of a full history |
| `SpoolWatchers.AcceptedAgain` | ros2_ws/src/draco_roundtrip/draco_roundtrip/nodes/stream_client.py:2023-2036 | the bound is attained: found, consumed and followed by exactly 65,536 other names consumed, a name is accepted again |
| `SpoolWatchers.AcceptedTwice` | ros2_ws/src/draco_roundtrip/draco_roundtrip/nodes/stream_client.py:2023-2036 | and every name has such a history |
| `LineFraming.ChunkingIsIrrelevant` | ros2_ws/src/draco_roundtrip/draco_roundtrip/shared_memory/channel.py:217-247 | however a stream is cut into chunks, the same lines are handed to the parser and the buffer holds exactly the unterminated tail |
| `LineFraming.OnlyTheTailMatters` | ros2_ws/src/draco_roundtrip/draco_roundtrip/shared_memory/channel.py:224-232 | after some bytes the later lines depend only on the unterminated tail |
| `LineFraming.PiecesAreTheBytes` | ros2_ws/src/draco_roundtrip/draco_roundtrip/shared_memory/channel.py:225-230 | pieces, newlines and tail make up the bytes again, and none of the pieces contains a newline |
| `LineFraming.DecompositionIsUnique` | ros2_ws/src/draco_roundtrip/draco_roundtrip/shared_memory/channel.py:225-230 | they are the only such decomposition: lines written with newlines, and an unfinished one, come back as they were |
| `LineFraming.NonEmptyKeeps` | ros2_ws/src/draco_roundtrip/draco_roundtrip/shared_memory/channel.py:231-232 | a line is handed on if and only if it is one of the pieces and not empty |
| `LineFraming.LineReceiver.Feed` | ros2_ws/src/draco_roundtrip/draco_roundtrip/shared_memory/channel.py:224-232 | the inner loop hands on the non-empty lines of buffer and chunk, and keeps the tail |
| `LineFraming.LineReceiver.Run` | ros2_ws/src/draco_roundtrip/draco_roundtrip/shared_memory/channel.py:212-247 | the receive loop over a socket, stopped or at its end: the lines and the buffer are determined by the bytes read |
| `Addresses.RoundTripIff` | ros2_ws/src/draco_roundtrip/draco_roundtrip/utils/stream_protocol.py:350-388 | on all inputs, whatever characters beyond ASCII count as digits or spaces and however many digits are converted at most: encoding raises if and only if the sequence has too many digits, and otherwise decoding undoes it if and only if the channel has no `/` and there is a sequence, or a non-empty name whose text before its first delimiter bar is not an integer |
| `Addresses.DigitsIff` | ros2_ws/src/draco_roundtrip/draco_roundtrip/utils/stream_protocol.py:368-388 | digits are read exactly when they are decimal digits with single underscores between them, and from left to right |
| `Addresses.IsReadIff` | ros2_ws/src/draco_roundtrip/draco_roundtrip/utils/stream_protocol.py:368-388 | a text is read as a sequence exactly when it is white space, a sign or none, such digits within the digit limit, and white space |
| `Addresses.Defaults` | ros2_ws/src/draco_roundtrip/draco_roundtrip/utils/stream_protocol.py:350-388 | where nothing is given the channel is "data" and there is no sequence |
| `Addresses.DecimalIsRead` | ros2_ws/src/draco_roundtrip/draco_roundtrip/utils/stream_protocol.py:361 | Python's `int` reads back every integer that an f-string prints, whatever its sign |
| `Addresses.NumberedNameIsMistaken` | ros2_ws/src/draco_roundtrip/draco_roundtrip/utils/stream_protocol.py:380-388 | a name that begins like a numbered address and is sent without a sequence is decoded as one |
| `Addresses.OtherDigitsCount` | ros2_ws/src/draco_roundtrip/draco_roundtrip/utils/stream_protocol.py:382-383 | so is a name that begins with a decimal digit beyond ASCII |
| `Addresses.DecodedChannelHasNoSlash` | ros2_ws/src/draco_roundtrip/draco_roundtrip/utils/stream_protocol.py:374-388 | no decoded channel contains `/` |
| `Percentiles.PercentilesAreMonotone` | ros2_ws/src/draco_roundtrip/draco_roundtrip/nodes/stream_client.py:359-370 | on ascending samples percentiles grow with the percentage, in or out of 0..100, between the first sample and the last, which are those for 0 and 100 |
| `Percentiles.PercentileOfRank` | ros2_ws/src/draco_roundtrip/draco_roundtrip/nodes/stream_client.py:359-370 | the percentage of the k-th of n evenly spaced samples gives that sample exactly |
| `Percentiles.PercentileBetweenRanks` | ros2_ws/src/draco_roundtrip/draco_roundtrip/nodes/stream_client.py:359-371 | a percentage between the ranks of two neighbouring samples divides the way from one to the other in the same proportion |
| `Percentiles.ReportOfRanks` | ros2_ws/src/draco_roundtrip/draco_roundtrip/nodes/stream_client.py:381-389 | with 101 samples the report is made of the samples with 50, 95 and 99 others in front of them |
| `Percentiles.ReportAscends` | ros2_ws/src/draco_roundtrip/draco_roundtrip/nodes/stream_client.py:381-389 | for any samples in any order a report is made if and only if there are samples, and p50 <= p95 <= p99 lie in their range |

## Left out

- Draco encoder and decoder processes, PLY and PCD files, point-cloud metrics, ROS nodes, launch files, command lines, configuration, telemetry: foreign calls, files and numerics around the protocol.
- Sending the server's EOF (`nodes/stream_server.py` 1099-1120): it uses names the file does not define, so the model ends where the send loop has counted all sentinels and claims no two-sided EOF handshake.
- Liveness under a scheduler: `EofStaysReachable` and `TheEndStaysReachable` say that a session in which nothing has failed can always still be ended, not that a fair scheduler will; every other lemma about runs is a safety statement.
- The teardown of `run_client` (`nodes/stream_client.py` 2626-2634), which clears `inflight` after the coroutines have ended.
- Client-side fragment reassembly (`nodes/stream_client.py` 1778-1797): the server sends no fragmented replies.
- Text framing (`net/protocol.py` 113-174): a short first read is an error there, so there is no round trip over partial reads.
- JSON decoding of a shared-memory line, and exceptions it raises that end the receiver thread between two lines: `LineFraming` ends with the lines handed to the parser. Socket time-outs only repeat a read.
- A second failure of `emit_result` while the handler of the first one drains.
- A spool scan interleaved with the consumption of one of its names, which can reach the `continue` of `_gc_known`.
- Retries, back-off, moving averages, drain deadlines and log texts; the stop event and the session states they lead to are modelled.
- asyncio, threads, locks and the socket itself: queue operations are atomic, a read or write moves at least one byte unless the peer is gone.
- A NaN priority hint, which Python's tuple order does not sort, is not modelled.
- `FragmentTransfer.TransferIsTheIdentity`: states nothing about arrivals behind the first one without room or behind a `gc` that drops a frame, nor about fragments that come after their frame was completed and begin it anew; `MemoryBound`, `EvictionIsMinimal` and `Overcount` hold there too.
