# Radar / ECU demonstrators: calibration, start-up, monitoring, logging and pacing

The repository implements the same automotive scenario three times: an ADAS ECU and up to six radars that talk over
OpenDDS, vsomeip or Zenoh. The radars stream heartbeats, object lists and detection lists every 20 ms, and the ECU
watches their delay and jitter. Once a second the ECU broadcasts a calibration request; each radar acknowledges it,
works on it for a while and responds; the ECU answers the response and joins everything into one transaction row with
three latencies.

This project models the parts of that code in which things can go wrong between threads and processes, and states what
holds of them in every run:

| file | what it models |
|---|---|
| `Common.dfy`, `Clock.dfy` | machine words; the three ways in which the programs subtract 32-bit millisecond stamps |
| `Calibration.dfy` | the lock regions of the OpenDDS and Zenoh ECUs as events, and the rows they produce |
| `CalibrationCallbacks.dfy` | the threads behind those events: the sender and one callback per delivered ACK or RESP, and exactly which traces they produce |
| `OpenDdsEcu.dfy`, `OpenDdsExactlyOnce.dfy` | the OpenDDS joiner, in which a zero timestamp means "missing", and exactly what it makes of one ACK and one RESP |
| `JoinOnce.dfy` | what follows for one ACK and one RESP from how either joiner keeps and closes entries |
| `OpenDdsProtocol.dfy`, `OpenDdsRuns.dfy` | the whole OpenDDS handshake: sender, main loop, radar handlers, clock and network; and its runs as traces of the joiner |
| `OpenDdsReachability.dfy` | what that system can do: which deliveries can be joined, and exactly which rows can occur |
| `ZenohEcu.dfy`, `ZenohExactlyOnce.dfy` | the Zenoh joiner, in which a missing dictionary field means "missing", and what is left when its threads rest |
| `DeliveredOnce.dfy` | the rows of both joiners, told from what was published and delivered |
| `JoinerSimulation.dfy` | the two joiners compared event by event |
| `CalFrame.dfy` | the 16-byte frame as the C++ programs (on either byte order) and the Python programs produce and read it |
| `VsomeipCalibration.dfy` | the vsomeip joiner: a map of requests in flight under a packed 64-bit key |
| `ReadyBarrier.dfy` | the vsomeip start-up across both processes, one atomic access at a time |
| `Streams.dfy`, `FaultRuns.dfy` | message traces, demultiplexing, and what "three in a row" means over a whole trace |
| `VsomeipMonitor.dfy`, `ZenohMonitor.dfy`, `MonitorAgreement.dfy` | the stream monitors and how their verdicts compare |
| `AsyncLogger.dfy` | the vsomeip file logger: callers, queue, worker, stop flag |
| `Pacing.dfy` | the periodic senders and publishing loops |
| `ArrayCodec.dfy` | the Zenoh object and detection payloads |

State that the source updates in place is a class here. Each such class carries the ghost trace of what happened to it,
and its `Valid()` ties its fields to a function of that trace; the results are lemmas about that function. Protocols are
functions `Execute` over a schedule: a list of actions in which one that is not enabled when its turn comes does
nothing, so a statement about every schedule is one about every interleaving, loss, delay, duplication and reordering.

## What came out

- **OpenDDS keeps the work-time bound on L2 over all runs if and only if no request is delivered twice to a radar** (or
  the work takes 2^31 ms, which leaves room for no row: `OpenDdsProtocol.WorkTimeExactly`). A request delivered twice is
  served by two handler threads, and the ECU may join the second ACK with the first RESP. L2 is then negative for every
  minimum work time below 2^31 - 1 ms; for 2^31 - 1 ms itself the example leaves it one ms short
  (`OpenDdsProtocol.DuplicatedRequestBreaksL2`). A request that one handler served, with its ACK and RESP each taken
  once, gives one row with the true latencies, or exactly if a stamp is zero or the request was recorded too late, none
  (`OpenDdsRuns.DeliveredOnce`).
- **A row can occur if and only if it looks causal.** For a unique request that one handler served, within one sign
  window: some run shows the row exactly if its id is the request's first word, its four stamps are non-zero, L1 and L3
  are not negative, L2 is at least the minimum work time and the whole round trip fits an `int`
  (`OpenDdsReachability.RowsExactly`).
- **OpenDDS can forget a request without any fault of the network**, because the sender publishes before it records
  (`OpenDdsReachability.RequestCanBeForgotten`); a duplicated ACK or RESP leaves an entry that stays for good
  (`OpenDdsReachability.DuplicatesLeaveEntries`).
- **The joiners hold the same rows exactly when** (with one ACK and one RESP of a key processed) either OpenDDS has its
  four non-zero stamps and it is not the case that the RESP came second and the ACK had found a request with a zero send
  time or with words other than those the RESP found; or OpenDDS lacks a stamp and Zenoh lacks the request
  (`JoinerSimulation.RowsAgreeExactly`). Whether there is a row at all differs exactly on zero stamps: OpenDDS needs the
  four of them to be non-zero (`OpenDdsExactlyOnce.RowExactly`), Zenoh needs the request recorded in time
  (`ZenohExactlyOnce.RowExactly`, `JoinerSimulation.JoinersPartExactly`).
- **The OpenDDS row mixes two requests exactly when** the RESP is stored after the ACK, and the ACK had found a non-zero
  send time that differs from the one in the table at the RESP: it then has the first send time with the words of the
  second request (`OpenDdsExactlyOnce.MixesExactly`). A Zenoh row never mixes (`ZenohExactlyOnce.RowsAreWhole`).
- **Zenoh forgets a transaction** exactly if the sender records the request after both halves were stored: the entry
  stays and no row appears (`ZenohExactlyOnce.ExactlyOnceInEveryRun`). If it was recorded in time and an ACK and a RESP
  came, however often repeated, there is at least one row (`ZenohExactlyOnce.AtLeastOneRowInEveryRun`).
- **A log line is written if and only if it is pushed before the worker's last look at the queue**
  (`AsyncLogger.WrittenExactly`). `log` accepts lines after that, and they are lost (`AsyncLogger.LateLineIsLost`); every
  line pushed before `stop` raises its flag is written. The lines can be read back from the file, in order
  (`AsyncLogger.LosslessAndOrdered`, `AsyncLogger.LinesOfFlatten`).
- **No acknowledged slot is passed over by a calibration broadcast** (`ReadyBarrier.NobodyIsPassedOver`), and all planned
  broadcasts to all slots can be made (`ReadyBarrier.BroadcastsCanComplete`).
- **The barrier can release all workers if and only if there are at most six slots**
  (`ReadyBarrier.WorkersStreamExactly`): the ECU readies no more. With more slots the publisher writes past
  `g_radar_log[6]` (`vsomeip/src/radar_publisher.cpp:261`, `:621`) before it has any worker; what the program does from
  there on is undefined, and the statement is one about the barrier alone.
- `vsomeip/README.md:74` speaks of one calibration context per radar. The code keeps one per slot and request id, and so
  does the model.

## Model

| member | source | states |
|---|---|---|
| Clock.SignedOfWire | opendds/src/ecu_subscriber.cpp:741-743 | a 32-bit stamp cast to `int` is the true time less 2^32 per sign window passed |
| Clock.MsTruncates | opendds/src/ecu_subscriber.cpp:37-43 | a reading in milliseconds is the clock in nanoseconds rounded down |
| Clock.IntDifferenceExact | opendds/src/ecu_subscriber.cpp:741-743 | the OpenDDS latency is the true one if and only if both stamps lie in one sign window and the difference fits an `int` |
| Clock.WrappedDifferenceExact | vsomeip/src/adas_subscriber.cpp:1077-1079 | the vsomeip latency is the true one if and only if the true difference fits 32 signed bits, also across a wrap |
| Clock.LatenciesTelescope | vsomeip/src/adas_subscriber.cpp:1077-1079 | L1 + L2 + L3 is the ECU's round trip modulo 2^32 for any four stamps |
| Clock.E2eOfTrueTimes | vsomeip/src/adas_subscriber.cpp:641-641 | the measured end-to-end delay overshoots by 2^32 per wrap of the sender's stamp, so it is exact precisely while the sending time is below 2^32 and violates every limit afterwards |
| Calibration.CountedSnoc | opendds/src/ecu_subscriber.cpp:781-871 | the summary counts the ACKs stored exactly; storing a RESP that was counted before keeps its counters above what the tables have seen |
| Calibration.PostsBacked | opendds/src/ecu_subscriber.cpp:734-871 | an event that closes an entry only with its ACK and RESP adds at most one to rows plus waiting ACKs (RESPs), and only if it is one |
| CalibrationCallbacks.CallbacksStoreFirst | zenoh/src/adas_ecu.py:559-613 | in every interleaving of the callbacks and the sender no close runs ahead of its store, and a key is at rest exactly when none of its callbacks is between its two lock regions |
| CalibrationCallbacks.TraceIsHistory | zenoh/src/adas_ecu.py:559-643 | in every interleaving the requests in the trace are those published, in order, up to the last recorded one, and there is one callback for every delivery, with its half |
| CalibrationCallbacks.StoresAreHalves | zenoh/src/adas_ecu.py:559-608 | every half occurs in the trace exactly as often as callbacks carrying it have passed their first lock region |
| CalibrationCallbacks.InTimeIsInTime | zenoh/src/adas_ecu.py:559-643 | "recorded in time" holds of the trace if and only if some callback of the key took its storing step after the sender had recorded a request it had published under that id |
| CalibrationCallbacks.SettledCounts | zenoh/src/adas_ecu.py:559-613 | once the callbacks of a key have ended, the trace holds as many of its ACKs and RESPs as were delivered, and the key is at rest |
| CalibrationCallbacks.TracesExactly | zenoh/src/adas_ecu.py:559-643 | a sequence of lock regions is the trace of some run if and only if no close of any key runs ahead of its store |
| JoinOnce.JoiningKept | zenoh/src/adas_ecu.py:510-613 | under the rules of either joiner, with at most one ACK and one RESP so far, there is either no row and the joined entry waits, or exactly the row of the complete joined entry and no entry |
| JoinOnce.NothingReadyIsLeft | zenoh/src/adas_ecu.py:510-613 | under either rules and any duplication, an entry that could be closed does not outlive the callbacks of its key |
| JoinOnce.JoinsOnce | zenoh/src/adas_ecu.py:510-613 | so at rest one ACK and one RESP have become exactly one row, or wait in an incomplete entry |
| JoinOnce.JoinedIs | zenoh/src/adas_ecu.py:559-608 | what the entry holds is the two messages applied in their order, each with the request recorded last before it |
| OpenDdsEcu.StepPosts | opendds/src/ecu_subscriber.cpp:734-871 | every lock region pays for a row with the ACK and the RESP of the entry it closes |
| OpenDdsEcu.StepBacked | opendds/src/ecu_subscriber.cpp:734-871 | one lock region adds a row or a waiting half only if an ACK (a RESP) of that selection pays for it |
| OpenDdsEcu.RowsBackedByMessages | opendds/src/ecu_subscriber.cpp:734-871 | with duplicates and id collisions, rows plus waiting ACKs (RESPs) of a key or a radar never exceed the ACKs (RESPs) processed |
| OpenDdsEcu.EcuSubscriber.constructor | opendds/src/ecu_subscriber.cpp:734-757 | the tables start empty, with an empty trace |
| OpenDdsEcu.EcuSubscriber.RecordRequest | opendds/src/ecu_subscriber.cpp:907-911 | the in-place table update is the Record event of the specification and keeps rows, entries and counters tied to the trace |
| OpenDdsEcu.EcuSubscriber.TakeAck | opendds/src/ecu_subscriber.cpp:790-811 | counting and storing an ACK is exactly one Ack event |
| OpenDdsEcu.EcuSubscriber.AnswerResp | opendds/src/ecu_subscriber.cpp:829-843 | the ECU-ACK echoes d1, d3, d4 with the receive time, and is counted before the half is stored |
| OpenDdsEcu.EcuSubscriber.StoreResponse | opendds/src/ecu_subscriber.cpp:845-864 | storing an answered RESP is exactly one Resp event |
| OpenDdsEcu.EcuSubscriber.FinalizeTransaction | opendds/src/ecu_subscriber.cpp:734-757 | the early returns and the erase amount to one Finalize event |
| OpenDdsEcu.EcuSubscriber.DrainAck | opendds/src/ecu_subscriber.cpp:781-818 | one drained ACK is an Ack event followed by a Finalize event of its key |
| OpenDdsEcu.EcuSubscriber.DrainResp | opendds/src/ecu_subscriber.cpp:820-871 | one drained RESP returns the ECU-ACK and is a Resp event followed by a Finalize event of its key |
| OpenDdsEcu.EcuSubscriber.RowsWithinCounters | opendds/src/ecu_subscriber.cpp:734-871 | per radar, rows <= ack_recv = the ACKs stored, and rows <= ecu_ack_sent <= resp_recv, after any calls |
| OpenDdsExactlyOnce.FollowsRules | opendds/src/ecu_subscriber.cpp:734-871 | the OpenDDS tables evolve by its rules, with the latest recorded request where the code looks into its table |
| OpenDdsExactlyOnce.JoinsOnce | opendds/src/ecu_subscriber.cpp:734-871 | with one ACK and one RESP, at rest: the joined entry has become exactly one row if it is complete, and otherwise still waits |
| OpenDdsExactlyOnce.JoinedIs | opendds/src/ecu_subscriber.cpp:795-864 | that entry, field by field, from the two messages and the requests in the table when each was stored |
| OpenDdsExactlyOnce.RowExactly | opendds/src/ecu_subscriber.cpp:734-871 | there is exactly one row, with exactly those fields, and no entry if the four stamps are non-zero; otherwise no row and a left-over entry, whatever requests are recorded |
| OpenDdsExactlyOnce.RowExactlyInEveryRun | opendds/src/ecu_subscriber.cpp:734-911 | the same after every interleaving of callbacks and sender with no callback of the key half-way |
| OpenDdsExactlyOnce.MixesExactly | opendds/src/ecu_subscriber.cpp:795-864 | the row carries the request in the table at the later store, unless the ACK came first and found another, non-zero send time; then, and only then, that send time comes with the later request's words |
| OpenDdsExactlyOnce.ExactlyOnce | opendds/src/ecu_subscriber.cpp:734-911 | with one send time per id: one row and no entry if and only if the request was recorded in time and the send time and the ACK, RESP and ECU-ACK stamps are non-zero |
| OpenDdsProtocol.PerformTimed | opendds/src/radar_publisher.cpp:316-347 | every step of the system keeps all clock readings of requests, handlers and the main loop in causal order, with the work delay in between |
| OpenDdsProtocol.PerformSourced | opendds/src/ecu_subscriber.cpp:734-911 | every step keeps each stored field traceable to one request, one ACK and one RESP actually made |
| OpenDdsProtocol.ExecuteKeeps | opendds/src/ecu_subscriber.cpp:734-911 | both invariants hold in every run |
| OpenDdsProtocol.RowsAreCausal | opendds/src/ecu_subscriber.cpp:734-911 | in every run with loss, reordering, duplication and overlap, a row with a unique request id carries the request really sent and four stamps taken in causal order by its own radar, by handlers that had sent the ACK and the RESP |
| OpenDdsProtocol.RowsAreTimed | opendds/src/ecu_subscriber.cpp:741-757 | within one sign window the three latencies of such a row are defined, L1 and L3 are non-negative, they add up to ecu_ack - ecu_send, and L2 is at least min(calib_ms_min, calib_ms_max) when one handler served the request |
| OpenDdsProtocol.WorkIsDone | opendds/src/radar_publisher.cpp:333-347 | whatever work time within the configured range is drawn, the RESP is stamped at least that long after the ACK |
| OpenDdsProtocol.DuplicatedRequestBreaksL2 | opendds/src/radar_publisher.cpp:316-356 | for every work time that leaves room for a row, a request delivered twice can give a row with L2 = -1, or one ms short of the work done |
| OpenDdsProtocol.LongWorkHasNoRows | opendds/src/radar_publisher.cpp:333-336 | with a work time of 2^31 ms or more no row falls within one sign window |
| OpenDdsProtocol.WorkTimeExactly | opendds/src/radar_publisher.cpp:316-356 | L2 >= the minimum work time in every run that delivers a request at most n times to a radar if and only if n <= 1 or that time is at least 2^31 ms |
| OpenDdsRuns.RunsAreTraces | opendds/src/ecu_subscriber.cpp:734-911 | every run of the distributed system is a trace of the ECU in which no close runs ahead of its store, a key is at rest exactly unless the main loop is about to close it, and only requests really made are recorded |
| OpenDdsRuns.RunsServeDeliveries | opendds/src/radar_publisher.cpp:316-377 | in every run the handlers are those of the deliveries performed, in order, each for the radar and the request delivered; the requests are those made, and the clock ran as long as it was let run |
| OpenDdsRuns.RunsAreBacked | opendds/src/ecu_subscriber.cpp:734-871 | in every run rows plus waiting ACKs (RESPs) of a key or a radar never exceed the ACKs (RESPs) taken |
| OpenDdsRuns.RunsJoinOnce | opendds/src/ecu_subscriber.cpp:734-911 | in every run, a request with a unique id whose ACK and RESP from a radar were each taken once has exactly one row and no entry if it was recorded in time and no stamp is zero, and else no row and a left-over entry |
| OpenDdsRuns.DeliveredOnce | opendds/src/radar_publisher.cpp:316-356 | if one handler served it, within one sign window, that row carries the request's words and the handler's data, and its latencies are the true ones: ACK after sending, RESP at least the minimum work time after the ACK, answer after the RESP |
| OpenDdsReachability.ServiceRendered | opendds/src/radar_publisher.cpp:316-347 | from any quiet state a recorded request can be delivered to a radar, acknowledged, worked on, responded to and answered at any times in causal order, and this adds exactly the row with those times and words |
| OpenDdsReachability.EveryDeliveryCanBeJoined | opendds/src/ecu_subscriber.cpp:734-911 | for any list of requests with distinct ids and any list of deliveries of them to radars, some run ends with one row per delivery, in order, with the words and send time of the request delivered, and no entry left |
| OpenDdsReachability.DuplicatesLeaveEntries | opendds/src/ecu_subscriber.cpp:781-871 | some run of one request, one handler and one row has an entry left after a duplicated ACK, and after a duplicated RESP |
| OpenDdsReachability.RequestCanBeForgotten | opendds/src/ecu_subscriber.cpp:886-911 | some run delivers a request once, takes its ACK and its RESP once and records it in the end, and has no row and a left-over entry |
| OpenDdsReachability.RowsExactly | opendds/src/ecu_subscriber.cpp:734-757 | within one sign window, for a unique request served by one handler, a row occurs in some run if and only if its id is its first word, its stamps are non-zero, L1 and L3 are not negative, L2 is at least the minimum work time and the round trip is defined |
| ZenohEcu.CompleteByGroups | zenoh/src/adas_ecu.py:510-541 | an entry passes the ten-field check exactly when it has the request, the ACK and the RESP |
| ZenohEcu.StepKeepsValid | zenoh/src/adas_ecu.py:510-613 | every lock region keeps the field groups of all entries whole |
| ZenohEcu.RunValid | zenoh/src/adas_ecu.py:510-613 | so they are whole in every run |
| ZenohEcu.StepPosts | zenoh/src/adas_ecu.py:510-613 | every lock region pays for a row with the ACK and the RESP of the entry it closes |
| ZenohEcu.RowsBackedByMessages | zenoh/src/adas_ecu.py:510-613 | with duplicates and id collisions, rows plus waiting ACKs (RESPs) of a key or a radar never exceed the ACKs (RESPs) processed |
| ZenohEcu.AdasEcu.constructor | zenoh/src/adas_ecu.py:500-508 | the tables start empty, with an empty trace |
| ZenohEcu.AdasEcu.RecordRequest | zenoh/src/adas_ecu.py:642-643 | the sender's lock region is exactly one Record event |
| ZenohEcu.AdasEcu.StoreAckHalf | zenoh/src/adas_ecu.py:559-573 | the ACK's lock region is exactly one Ack event |
| ZenohEcu.AdasEcu.AnswerResp | zenoh/src/adas_ecu.py:578-595 | the ECU-ACK echoes d1, d3, d4 with the receive time, and is counted before the half is stored |
| ZenohEcu.AdasEcu.StoreRespHalf | zenoh/src/adas_ecu.py:597-608 | the RESP's lock region is exactly one Resp event |
| ZenohEcu.AdasEcu.FinalizeTransaction | zenoh/src/adas_ecu.py:510-541 | `finalize_if_ready` is exactly one Finalize event |
| ZenohEcu.AdasEcu.OnRadarAck | zenoh/src/adas_ecu.py:559-577 | an undecodable ACK changes nothing, any other is an Ack event and a Finalize event |
| ZenohEcu.AdasEcu.OnRadarResp | zenoh/src/adas_ecu.py:578-613 | an undecodable RESP changes and answers nothing, any other is answered and is a Resp event and a Finalize event |
| ZenohEcu.AdasEcu.RowsWithinCounters | zenoh/src/adas_ecu.py:510-613 | per radar, rows <= ack_recv = the ACKs stored, and rows <= ecu_ack_sent <= resp_recv, after any callbacks |
| ZenohExactlyOnce.NothingReadyIsLeft | zenoh/src/adas_ecu.py:510-613 | on every trace in which no close runs ahead of its store, under any duplication, no entry that could be closed remains at rest |
| ZenohExactlyOnce.FollowsRules | zenoh/src/adas_ecu.py:510-643 | the Zenoh tables evolve by its rules, with the latest recorded request where the code looks into its table |
| ZenohExactlyOnce.NothingReadyIsLeftInAnyRun | zenoh/src/adas_ecu.py:559-613 | so after every interleaving of the callbacks none remains once no callback of the key is half-way |
| ZenohExactlyOnce.JoiningKept | zenoh/src/adas_ecu.py:510-643 | with at most one ACK and one RESP, what an entry holds is determined by which halves arrived and whether the request was recorded in time |
| ZenohExactlyOnce.ExactlyOnce | zenoh/src/adas_ecu.py:510-643 | with one ACK and one RESP, at rest: exactly one row and no entry if the request was recorded before one of them was stored, otherwise no row and a left-over entry |
| ZenohExactlyOnce.ExactlyOnceInEveryRun | zenoh/src/adas_ecu.py:510-643 | after every interleaving of callbacks and sender with no callback of the key half-way: one row and no entry if a half was stored after the sender had recorded a published request of that id, otherwise no row and a left-over entry |
| ZenohExactlyOnce.DeliveredOnceInEveryRun | zenoh/src/adas_ecu.py:510-643 | the same in terms of the schedule alone: one ACK and one RESP delivered, and their callbacks ended |
| ZenohExactlyOnce.RowExactly | zenoh/src/adas_ecu.py:510-643 | with one ACK and one RESP, at rest, whatever requests are recorded: exactly one row, with exactly the two halves' fields and all fields of the request the ACK found (or, if it came first and found none, the RESP), else no row and a left-over entry |
| ZenohExactlyOnce.RowExactlyInEveryRun | zenoh/src/adas_ecu.py:510-643 | the same after every interleaving of callbacks and sender with no callback of the key half-way |
| ZenohExactlyOnce.AtLeastOneRow | zenoh/src/adas_ecu.py:510-643 | at rest, with at least one ACK and one RESP, however often repeated, there is a row if the request was recorded in time |
| ZenohExactlyOnce.AtLeastOneRowInEveryRun | zenoh/src/adas_ecu.py:510-643 | the same after every interleaving with no callback of the key half-way, with the request recorded by the sender before some callback stored its half |
| ZenohExactlyOnce.RowsAreWhole | zenoh/src/adas_ecu.py:510-613 | even with colliding ids a row joins one ACK, one RESP and one recorded request of its key, and its id is the request's first word |
| DeliveredOnce.ZenohRow | zenoh/src/adas_ecu.py:510-643 | one request published under an id, one ACK and one RESP of it delivered, their callbacks ended: the Zenoh rows of the key are exactly the row of these three if a half was stored after the request was recorded, and none otherwise |
| DeliveredOnce.OpenDdsRow | opendds/src/ecu_subscriber.cpp:734-911 | the OpenDDS rows of the key are the same, but none if the send time or one of the three other stamps is zero |
| JoinerSimulation.JoinersAgree | zenoh/src/adas_ecu.py:510-613 | without zero stamps and with one request per id, the Zenoh and OpenDDS joiners emit the same rows in the same order and keep corresponding entries |
| JoinerSimulation.JoinersPartExactly | opendds/src/ecu_subscriber.cpp:734-871 | with one ACK and one RESP, at rest, the joiners differ in having the row if and only if the request was recorded in time but a stamp of the OpenDDS row is zero, and then it is OpenDDS that has none |
| JoinerSimulation.RowsAgreeExactly | opendds/src/ecu_subscriber.cpp:734-871 | with one ACK and one RESP, at rest, both joiners hold equal rows for the key if and only if: with the four OpenDDS stamps non-zero, not (the ACK came first and found a request with a zero send time or with words other than the RESP found); with one of them zero, the request was not recorded in time |
| JoinerSimulation.RowsAgreeExactlyInEveryRun | zenoh/src/adas_ecu.py:510-643 | the same after every interleaving of callbacks and sender with no callback of the key half-way, with "in time" read from the schedule |
| JoinerSimulation.ZeroTimestampDiverges | opendds/src/ecu_subscriber.cpp:734-740 | a witness: an ACK stamped 0 is lost by OpenDDS and not by Zenoh (JoinersPartExactly says when) |
| JoinerSimulation.CollidingIdDiverges | opendds/src/ecu_subscriber.cpp:845-864 | a witness without zero stamps: with a reused id the OpenDDS row has the first request's send time and the second's words, the Zenoh row is all the first's (RowsAgreeExactly says when) |
| JoinerSimulation.HalvesCommuteOpenDds | opendds/src/ecu_subscriber.cpp:734-871 | ACK before RESP and RESP before ACK end in the same OpenDDS state with one more row |
| JoinerSimulation.HalvesCommuteZenoh | zenoh/src/adas_ecu.py:510-613 | ACK before RESP and RESP before ACK end in the same Zenoh state with one more row |
| JoinerSimulation.LatenciesAgree | zenoh/src/adas_ecu.py:520-541 | the two programs' latency arithmetic agrees if and only if both stamps are on the same side of 2^31 |
| CalFrame.BSwap32Involution | vsomeip/src/adas_subscriber.cpp:105-108 | swapping twice gives the word back |
| CalFrame.MemoryIsBigEndian | vsomeip/src/adas_subscriber.cpp:109-126 | on a host of either byte order the swapped word lies in memory most significant byte first |
| CalFrame.FramesAgree | vsomeip/src/radar_publisher.cpp:113-121 | every host packs the same 16 bytes, those of the format ">IIII" |
| CalFrame.ReadersAgree | zenoh/src/common.py:174-196 | every host reads a 16-byte frame as the Zenoh decoder does |
| CalFrame.FrameRoundTrip | vsomeip/src/adas_subscriber.cpp:118-134 | what one host packs, a host of any byte order and the Zenoh decoder unpack to the same four words |
| CalFrame.FrameBytes | vsomeip/src/adas_subscriber.cpp:109-126 | the four words lie in the sixteen bytes one after the other, each most significant byte first |
| CalFrame.AnyFrameIsRead | vsomeip/src/adas_subscriber.cpp:118-134 | a frame of fewer than sixteen bytes is read as zeros, and of a longer one the first sixteen are read as the Zenoh decoder would |
| CalFrame.EncodeDecoded | zenoh/src/common.py:174-196 | encoding a decoded frame gives its bytes back |
| CalFrame.DecodesExactly | zenoh/src/common.py:174-196 | the Zenoh decoder returns a message if and only if the bytes are the encoding of that message |
| CalFrame.FrameIsDetermined | vsomeip/src/adas_subscriber.cpp:118-134 | packing an unpacked frame gives its bytes back on every host |
| VsomeipCalibration.RowsWithinInsertions | vsomeip/src/adas_subscriber.cpp:548-553 | per slot and request id, rows plus one if in flight never exceed the insertions, whatever is duplicated or collides |
| VsomeipCalibration.EntriesExplained | vsomeip/src/adas_subscriber.cpp:875-939 | a key is in flight exactly while an insertion is unanswered; its entry has the clock reading and the four words of the latest insertion, field by field, and the latest held ACK's time, or 0 |
| VsomeipCalibration.AnsweringIsComplete | vsomeip/src/adas_subscriber.cpp:920-939 | the listed RESPs are exactly those that find their request in flight |
| VsomeipCalibration.AnsweringIncreases | vsomeip/src/adas_subscriber.cpp:920-939 | they are listed in the order of arrival |
| VsomeipCalibration.RowsExplained | vsomeip/src/adas_subscriber.cpp:854-951 | one row per RESP that finds its request in flight, in that order, with the latest insertion's send time and words (so req_id = req_d1), the RESP's fields and the held ACK's time |
| VsomeipCalibration.DisjointHalves | vsomeip/src/adas_subscriber.cpp:419-421 | the bitwise or of a number shifted by n and one below 2^n is their sum |
| VsomeipCalibration.PackedHalves | vsomeip/src/adas_subscriber.cpp:419-421 | so the shifted slot or-ed with the id, in 64 bits, is slot * 2^32 + id, which is the key the map uses |
| VsomeipCalibration.CalKeyInjective | vsomeip/src/adas_subscriber.cpp:419-421 | different slots or ids never share a packed key |
| VsomeipCalibration.SlotOfInstance | vsomeip/src/radar_publisher.cpp:613-613 | the ECU takes what the publisher of a slot sends for that slot |
| VsomeipCalibration.InstanceOfSlot | vsomeip/src/adas_subscriber.cpp:854-862 | only the instances 0x8A00 to 0x8A05 are taken for a slot, each for the slot whose publisher offers it |
| VsomeipCalibration.RefinesUpdate | vsomeip/src/adas_subscriber.cpp:548-553 | writing under the packed key refines writing under the pair |
| VsomeipCalibration.RefinesErase | vsomeip/src/adas_subscriber.cpp:920-939 | erasing under the packed key refines erasing the pair |
| VsomeipCalibration.CalSubscriber.constructor | vsomeip/src/adas_subscriber.cpp:409-418 | the map and the rows start empty, with an empty trace |
| VsomeipCalibration.CalSubscriber.InsertInflight | vsomeip/src/adas_subscriber.cpp:548-553 | the broadcaster's update of the packed map is one Insert event of the pair-keyed table |
| VsomeipCalibration.CalSubscriber.HandleRadarAck | vsomeip/src/adas_subscriber.cpp:854-886 | a bad payload or slot is refused and changes nothing; any other is answered and is one Ack event with the unpacked words |
| VsomeipCalibration.CalSubscriber.HandleRadarResp | vsomeip/src/adas_subscriber.cpp:887-951 | a bad payload or slot is refused; any other is answered with a frame that decodes to id, receive time and the two words, and is one Resp event |
| ReadyBarrier.InvariantsHold | vsomeip/src/radar_publisher.cpp:345-368 | the counter, the causal chain and the broadcaster invariants hold in every run of both processes |
| ReadyBarrier.BarrierIsSafe | vsomeip/src/radar_publisher.cpp:345-368 | with duplicated READYs and the increment apart from the exchange, counter plus half-way handlers is the number of set flags, and a released worker proves every flag set |
| ReadyBarrier.BarrierOpensExactly | vsomeip/src/radar_publisher.cpp:662-665 | with no handler half-way the barrier is open if and only if every slot's flag is set |
| ReadyBarrier.NotificationsAreCaused | vsomeip/src/adas_subscriber.cpp:485-616 | before a calibration event goes to a slot its three services were up, READY was sent, the radar had set its flag and answered, and the ECU had seen that |
| ReadyBarrier.NobodyIsPassedOver | vsomeip/src/adas_subscriber.cpp:539-556 | a slot acknowledged before the k-th broadcast gets to it has its notification of that broadcast once the broadcaster is past it, in every interleaving |
| ReadyBarrier.ScanIsComplete | vsomeip/src/adas_subscriber.cpp:539-571 | when the broadcaster sleeps after its k-th broadcast, every slot acknowledged as it began has been notified |
| ReadyBarrier.StopIsHeeded | vsomeip/src/adas_subscriber.cpp:508-571 | a broadcaster that sees the stop flag between two broadcasts makes no further notification in any continuation |
| ReadyBarrier.HandlersAnswer | vsomeip/src/radar_publisher.cpp:345-368 | every handler of READY that is done has answered, also for a slot that was counted before |
| ReadyBarrier.SentOnlyBefore | vsomeip/src/adas_subscriber.cpp:485-496 | once READY is known to be sent for a slot, no attempt that starts later sends it again |
| ReadyBarrier.DuplicatesAreHarmless | vsomeip/src/adas_subscriber.cpp:508-589 | READY can be handled twice and answered twice with both answers taken, and one slot is counted and one broadcaster runs |
| ReadyBarrier.StreamsAreCaused | vsomeip/src/radar_publisher.cpp:662-665 | before any worker streams, every slot's services were up, READY was sent for it and its flag was set |
| ReadyBarrier.StartupCanComplete | vsomeip/src/adas_subscriber.cpp:485-616 | whatever the configuration, some run gets from boot to a calibration event |
| ReadyBarrier.BroadcastsCanComplete | vsomeip/src/adas_subscriber.cpp:508-571 | for every number of slots up to six, some run makes all planned broadcasts to all of them, in order, and ends the broadcaster; and if these are all the publisher's slots, every worker passes the barrier |
| ReadyBarrier.TooManySlotsBlock | vsomeip/src/adas_subscriber.cpp:297-306 | with more slots than the ECU's six the barrier never opens; about the barrier alone, since the publisher overruns `g_radar_log[6]` (radar_publisher.cpp:261, 621) before it gets there |
| ReadyBarrier.WorkersStreamExactly | vsomeip/src/radar_publisher.cpp:662-665 | some run of the barrier releases every worker if and only if there are at most six slots; beyond six the publisher's array overrun (radar_publisher.cpp:261, 621) comes first and is not modelled |
| ReadyBarrier.BroadcastsAreBounded | vsomeip/src/adas_subscriber.cpp:508-571 | one broadcaster at most, no iteration beyond the target, no slot notified twice in one broadcast, at most six notifications per iteration |
| FaultRuns.LeadingRunIs | vsomeip/src/adas_subscriber.cpp:739-760 | the leading run of a trace is its maximal initial run of bad messages |
| FaultRuns.TrailingRunIs | vsomeip/src/adas_subscriber.cpp:739-760 | the trailing run is the maximal final one |
| FaultRuns.FaultsOfRunsSnoc | vsomeip/src/adas_subscriber.cpp:739-760 | one more message adds a fault exactly when it is bad and brings its run to a multiple of three |
| FaultRuns.StreakSnoc | vsomeip/src/adas_subscriber.cpp:739-760 | a streak reset at three is the last run modulo three, and its resets are the faults and the group ends |
| FaultRuns.FaultIndicesCount | vsomeip/src/adas_subscriber.cpp:739-760 | as many positions complete a group of three as there are faults |
| FaultRuns.FaultIndicesAre | vsomeip/src/adas_subscriber.cpp:739-760 | they are exactly the positions whose run length is a positive multiple of three |
| FaultRuns.FaultIndicesIncrease | vsomeip/src/adas_subscriber.cpp:739-760 | they are listed in order |
| Streams.SharesAddUp | zenoh/src/adas_ecu.py:388-484 | the radars' shares of an interleaved trace add up to the trace |
| VsomeipMonitor.StateFollowsTrace | vsomeip/src/adas_subscriber.cpp:641-658 | a radar is primed exactly when a decodable message came, and the stored receive time is the last such message's |
| VsomeipMonitor.SamplesAreVerdicts | vsomeip/src/adas_subscriber.cpp:619-851 | one sample row per message, in order, with the fields and status that the trace up to that message determines, the limits being 5 and 1 ms for heartbeats, 25 and 5 ms for lists, at a period of 20 ms |
| VsomeipMonitor.CountersAreExplained | vsomeip/src/adas_subscriber.cpp:619-851 | total = ok + viol, rows = total + decode_err + (1 if primed), heartbeat faults are the violations, object and detection faults are the sum of length / 3 over maximal bad runs with the streak the last run modulo 3, fault rows are those of the group ends, maxima are attained |
| VsomeipMonitor.JitterExact | vsomeip/src/adas_subscriber.cpp:656-657 | the unsigned jitter is the true deviation if and only if the clock did not run backwards, and never less |
| VsomeipMonitor.SignedDelayExact | vsomeip/src/adas_subscriber.cpp:739-757 | the signed delay of a fault row is the true one if and only if that is below 2^63 |
| VsomeipMonitor.DriftIsBounded | vsomeip/src/adas_subscriber.cpp:656-663 | after n judged messages the last receive time is within n times max_jitter of prime + n periods |
| VsomeipMonitor.StreamMonitor.constructor | vsomeip/src/adas_subscriber.cpp:338-349 | the tables start empty |
| VsomeipMonitor.StreamMonitor.PushSample | vsomeip/src/adas_subscriber.cpp:424-430 | one row more for its radar, none for any other |
| VsomeipMonitor.StreamMonitor.PushFault | vsomeip/src/adas_subscriber.cpp:445-451 | one fault row more for its radar, none for any other |
| VsomeipMonitor.StreamMonitor.HandleHb | vsomeip/src/adas_subscriber.cpp:619-683 | for any interleaving each radar's state, counters and rows are those of the machine on its own messages |
| VsomeipMonitor.StreamMonitor.HandleList | vsomeip/src/adas_subscriber.cpp:685-851 | the same for the object and detection handlers |
| VsomeipMonitor.StreamMonitor.Prime | vsomeip/src/adas_subscriber.cpp:721-730 | priming moves its own radar's record by one step and leaves the others |
| VsomeipMonitor.StreamMonitor.JudgeHb | vsomeip/src/adas_subscriber.cpp:656-682 | so does judging a heartbeat |
| VsomeipMonitor.StreamMonitor.DecodeErrorInList | vsomeip/src/adas_subscriber.cpp:693-706 | so does an undecodable list |
| VsomeipMonitor.StreamMonitor.JudgeList | vsomeip/src/adas_subscriber.cpp:732-765 | so does judging a list |
| VsomeipMonitor.StreamMonitor.ViolationInList | vsomeip/src/adas_subscriber.cpp:739-757 | so does its violation branch, with the fault row at three |
| ZenohMonitor.StateFollowsTrace | zenoh/src/adas_ecu.py:388-484 | a radar is primed exactly when a decodable message came, and the stored receive time is the last such message's |
| ZenohMonitor.SamplesAreVerdicts | zenoh/src/adas_ecu.py:388-484 | one sample per message, in order, with the fields and status that the trace up to that message determines, with the same limits |
| ZenohMonitor.CountersAreExplained | zenoh/src/adas_ecu.py:377-484 | total = ok + viol + decode_err = samples, heartbeat faults are viol + decode_err with one event per violation, list faults are the sum of length / 3 plus one for a late priming message with one event each, in order, maxima are attained |
| ZenohMonitor.EcuMonitor.constructor | zenoh/src/adas_ecu.py:371-375 | the tables start empty |
| ZenohMonitor.EcuMonitor.AccountingCloses | zenoh/src/adas_ecu.py:388-484 | the receive counter = the number of sample rows = the sum of `total` over the expected radars |
| ZenohMonitor.EcuMonitor.PushSample | zenoh/src/adas_ecu.py:377-386 | one sample more for its radar, none for any other |
| ZenohMonitor.EcuMonitor.PushEvent | zenoh/src/adas_ecu.py:377-386 | one fault event more for its radar, none for any other |
| ZenohMonitor.EcuMonitor.HbCallback | zenoh/src/adas_ecu.py:388-414 | an unexpected radar changes nothing; for any other interleaving each radar's record is that of the machine on its own messages |
| ZenohMonitor.EcuMonitor.ListCallback | zenoh/src/adas_ecu.py:416-484 | the same for the object and detection callbacks |
| ZenohMonitor.EcuMonitor.Prime | zenoh/src/adas_ecu.py:377-386 | `count_primed` moves its own radar's record by one step and leaves the others |
| ZenohMonitor.EcuMonitor.DecodeErrorInHb | zenoh/src/adas_ecu.py:395-398 | so does an undecodable heartbeat |
| ZenohMonitor.EcuMonitor.JudgeHb | zenoh/src/adas_ecu.py:404-414 | so does judging a heartbeat |
| ZenohMonitor.EcuMonitor.DecodeErrorInList | zenoh/src/adas_ecu.py:423-430 | so does an undecodable list |
| ZenohMonitor.EcuMonitor.JudgeList | zenoh/src/adas_ecu.py:435-449 | so does judging a list |
| ZenohMonitor.EcuMonitor.ViolationInList | zenoh/src/adas_ecu.py:438-445 | so does its violation branch, with the fault event at three |
| MonitorAgreement.VerdictsAgree | zenoh/src/adas_ecu.py:388-484 | with a clock that does not run backwards, the Zenoh and vsomeip monitors give every message the same verdict and figures |
| MonitorAgreement.MonitorsAgree | zenoh/src/adas_ecu.py:377-484 | their streaks are equal and their fault counts differ by exactly one for a late priming message and, for heartbeats, the undecodable messages |
| AsyncLogger.DrainTakes | vsomeip/src/adas_subscriber.cpp:258-267 | a drain takes the shortest prefix of the queue that exceeds 262144 bytes, or all of it, and at least one line if there is one |
| AsyncLogger.LinesOfFlatten | vsomeip/src/adas_subscriber.cpp:258-267 | splitting what was written for lines without line feeds gives exactly these lines |
| AsyncLogger.LosslessAndOrdered | vsomeip/src/adas_subscriber.cpp:237-278 | in every interleaving file, batch and queue hold the pushed lines in order; unless a batch is held, splitting the file at its line feeds gives exactly the lines that have left the queue, and after the exit these include every line pushed before the stop flag |
| AsyncLogger.ExitIsFinal | vsomeip/src/radar_publisher.cpp:170-231 | after the worker's exit the file never changes again |
| AsyncLogger.WrittenExactly | vsomeip/src/adas_subscriber.cpp:246-277 | in every run in which the worker ends, splitting the file gives the lines that left the queue, and a line pushed at some moment is among them, at its place, if and only if the worker had not ended by then |
| AsyncLogger.LateLineIsLost | vsomeip/src/adas_subscriber.cpp:246-277 | a witness: a caller that found the file open pushes after the worker's last check, and the line is never written (WrittenExactly says when) |
| AsyncLogger.LeavesAfterSeeingFlag | vsomeip/src/adas_subscriber.cpp:256-277 | the worker leaves only in a round whose critical section saw the flag: with the flag down and no drain since, it stays |
| AsyncLogger.LineAfterStopIsWritten | vsomeip/src/adas_subscriber.cpp:246-277 | a witness: a line whose caller comes after the flag was raised is still written if the worker has not drained since |
| AsyncLogger.AsyncFileLogger.constructor | vsomeip/src/adas_subscriber.cpp:230-235 | the logger starts empty, open and not stopping |
| AsyncLogger.AsyncFileLogger.Log | vsomeip/src/adas_subscriber.cpp:246-253 | a line is appended exactly if the file is open |
| AsyncLogger.AsyncFileLogger.TakeBatch | vsomeip/src/adas_subscriber.cpp:258-268 | the loop with its break computes the drain of the specification, and the lines of the batch and the rest of the queue are the queue as it was |
| AsyncLogger.AsyncFileLogger.NothingIsLost | vsomeip/src/adas_subscriber.cpp:246-277 | the file's lines followed by the queue are the accepted lines, after any calls |
| AsyncLogger.AsyncFileLogger.WorkerRound | vsomeip/src/adas_subscriber.cpp:256-277 | with any lines pushed between critical section and check, a round keeps file lines plus queue equal to what was accepted, takes at least one waiting line, and leaves exactly when stopping with an empty queue |
| AsyncLogger.AsyncFileLogger.Stop | vsomeip/src/adas_subscriber.cpp:237-244 | stopping terminates despite the batch limit and finitely many lines pushed meanwhile, and splitting the file gives every line pushed until the worker's end, in order |
| Pacing.RunSender | opendds/src/ecu_subscriber.cpp:886-930 | next_deadline = t0 + (sent + 1) periods, sent never exceeds the target, a pass sends exactly when its deadline has come, and the loop ends only by the flag or the target |
| Pacing.SendsFollowClock | opendds/src/ecu_subscriber.cpp:917-929 | after every pass sent <= elapsed / period, with equality if and only if no deadline is due |
| Pacing.SenderCatchesUp | opendds/src/ecu_subscriber.cpp:917-929 | n passes that see m periods elapsed leave at least min(n, m) sends done |
| Pacing.PublishUntil | vsomeip/src/radar_publisher.cpp:694-831 | the cycles start at the times of the kept schedule, all before the end, stop only at the end, and are at most one per started period |
| Pacing.CalibrateUntil | zenoh/src/adas_ecu.py:630-652 | the calibration sender's cycles start at the times of the schedule with resets, all before the end, stop only at the end, and are at most one per started period |
| Pacing.NeverEarly | opendds/src/radar_publisher.cpp:468-471 | in either kind of loop the k-th lap from zero starts no earlier than k periods after the first was due |
| Pacing.CyclesDoNotOverlap | opendds/src/radar_publisher.cpp:468-471 | in either kind of loop a cycle starts only after the body of the one before it has ended |
| Pacing.LoopsPartWhenLate | zenoh/src/radar.py:326-332 | from the same point both loops start the next cycle at the same time, and their schedules differ only if the body ended at or after the deadline, when one restarts from the second clock reading |
| Pacing.LatenessShrinks | vsomeip/src/radar_publisher.cpp:828-830 | with bodies of equal length the kept schedule loses the slack of one period of lateness per cycle, down to none |
| Pacing.KeepingNeverLags | zenoh/src/radar.py:326-332 | on the same delays the kept schedule is never behind the one that is reset |
| Pacing.ResettingNeverBursts | zenoh/src/radar.py:326-332 | after a late cycle the schedule restarts at the second clock reading and never catches up: each later cycle takes at least a full period |
| Pacing.CyclesAreBounded | opendds/src/radar_publisher.cpp:308-359 | at most one cycle per started period fits in a run, in either kind of loop |
| Pacing.PunctualLaps | vsomeip/src/radar_publisher.cpp:828-830 | cycles that end within their period keep exactly to the schedule |
| Pacing.PunctualRunIsFull | vsomeip/src/radar_publisher.cpp:694-831 | such a run makes exactly run / period cycles, rounded up |
| ArrayCodec.WordRoundTrip | zenoh/src/common.py:53-67 | reading the little-endian bytes of a word gives the word |
| ArrayCodec.WordIsLittleEndian | zenoh/src/common.py:43-67 | the four bytes of a word are its digits to base 256, least significant first, whatever integer is given |
| ArrayCodec.PayloadSizes | zenoh/src/common.py:43-51 | an object takes 57 bytes and a detection 77, an array 1140 and 1540 |
| ArrayCodec.RecordRoundTrip | zenoh/src/common.py:53-67 | parsing a packed record gives every word modulo 2^32 and the type modulo 2^8, for any integers |
| ArrayCodec.RecordBytes | zenoh/src/common.py:53-67 | packing a parsed record gives its bytes back |
| ArrayCodec.RecordAt | zenoh/src/common.py:69-73 | in the filled buffer each record's bytes lie at its own multiple of the record size |
| ArrayCodec.ArrayRoundTrip | zenoh/src/radar.py:303-315 | parsing the payload at any such offset gives that record's masked fields |
| ArrayCodec.AssignSlice | zenoh/src/common.py:72-72 | a slice assignment replaces exactly its slice |
| ArrayCodec.PackArray | zenoh/src/radar.py:273-287 | filling the buffer slice by slice produces the concatenation of the packed records |
| ArrayCodec.HeaderIsCommon | zenoh/src/common.py:75-81 | a payload is accepted exactly if it holds twenty records, and then the common time and number are read; otherwise the sizes are reported |
| ArrayCodec.ClearTypes | zenoh/src/radar.py:303-307 | the loop over byte indices zeroes the last byte of each record and nothing else |
| ArrayCodec.ClearingUntypes | zenoh/src/radar.py:303-315 | clearing a packed array equals packing the same records with type zero, so no other field changes |

## Left out

- OpenDdsProtocol.RowsAreTimed: says nothing of rows whose request id was drawn twice in the protocol model; what such a
  row may carry is stated by OpenDdsExactlyOnce.MixesExactly for one ACK and one RESP.
- Pacing.CyclesAreBounded: takes a positive period; `--period-ms` is not checked by the programs and with 0 there is no bound.
- Middleware: discovery, QoS, sessions, loans and wait sets. Messages are delivered, delayed, repeated or dropped.
- Excel and CSV output, console summaries, byte and bit-rate meters, log texts, wall-clock strings.
- Command lines, environment variables, run directories, configuration files, shell scripts.
- Random numbers: request ids and data words are arbitrary, with distinctness assumed only where a lemma says so.
- The READY barrier's atomics are values of a state machine, not fields updated in place: its steps belong to two
  processes and many threads. Whether a waiting worker is always woken is not stated, because `on_ready` notifies without
  the mutex.
- In the READY model a response always reports success.
- The vsomeip radar's calibration thread (`on_cal_req`) and its wait for a free serializer.
- That a vsomeip row always has an ACK time: an ACK delivered before the request is inserted is dropped, and
  RowsExplained then gives 0.
- OpenDDS calibration requests addressed to one radar; the ECU only broadcasts.
- OpenDDS batches (`take_w_condition`, invalid samples) and the OpenDDS stream monitors: these are the vsomeip machine
  on traces in which every message decodes.
- A failing publication in the Zenoh callbacks: it leaves only the counters raised before it, as a prefix of
  `AnswerResp` does.
- Ordering of Zenoh calibration stamps: they come from the wall clock, which may be set back.
- The `last_seq` fields and the separate fault counters kept for log lines: the former are never read, the latter equal
  `faults`.
- The faults of the three vsomeip streams share one list; here each stream has its own.
- Counters of 64 bits and `int` counters do not wrap in the model, nor do the deadlines computed as `(k + 1) * 1000`.
- Data races on Zenoh's plain counters and on the logger's unlocked `is_open()` and `q_.empty()`; each of the latter two
  is one atomic read here, apart from the push.
- Loops that run for a given number of cycles (`zenoh/src/radar.py`) rather than until an end time: their count is fixed
  and their timing is that of the schedule with resets.
- The time unit of the pacing loops: any integer unit, without the rounding of Python's floating-point seconds.
- Python integers beyond 64 bits as receive times, and object and detection field values as such.
