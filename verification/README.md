# Protocol and ingest core of the IoT platform, in Dafny

The platform collects readings from field devices and turns them into messages and alarms. Its correctness rests on a
few small protocols and planners, argued in the source by comments. This project models them and proves what those
comments promise. Each module stands for one component and says at its top which files it models.

- `RtuCrc`, `ReadPlan`, `ModbusWire`, `ModbusDecode`, `ModbusFrames`, `ModbusTables`, `ModbusValues`: the Modbus path
  from a point table to values. The planner merges points into read blocks; the plan is gap-free, complete and has the
  fewest blocks possible. A conforming device (a memory, its reading of a request, its answer) is the partner of the wire
  code: requests mean what was meant, answers pass the checks, slicing points out of a block gives what reading each point
  alone gives, and a number held by the device is the number reported. The RTU check detects every burst of sixteen bits.
- `Lease`, `LeaseProtocol`: execution leases as timed steps of any number of nodes with lost replies, slow calls and late
  timers. Mutual exclusion holds if and only if the slack covers the environment.
- `DurableQueue`, `QueueRuns`, `QueueDelivery`: the on-disk queue over a directory with a crash model, where every I/O
  call may fail. An accepted message survives everything but its own `Ack` and is handed out when its turn comes; the byte
  count is exact except in one named case.
- `Framing`, `FramingSessions`, `FramingCuts`, `SessionCommand`, `SessionCompletion`, `SessionSequence`, `Connections`,
  `BusLock`: listener sessions. Frames are what the package claimed and the session accepted, however TCP cuts the stream;
  command replies reach only their own command; connection counts, takeover and the reference-counted bus lock are safe
  under every interleaving.
- `Outbox`, `OutboxDelivery`, `RetryLoop`: raw ingest with a failure possible at each call, what an undisturbed ingest
  comes to, and the loop that publishes what is pending.
- `ComponentAlarm`: component alarms converge under reordering and repetition, and open alarms follow their components.
- `RuleAlarms`, `AlarmPaging`: closing the alarms of a rule terminates, touches only those, and misses none exactly when
  no alarm can be on two pages. `Listing` is about listings of a set by a key with ties.
- `Gb26875`, `RateLimit`: the GB/T 26875.3 frame codec with its stream reader, and the request limiter.

Code that changes state step by step is a class or a method with loops, proved against a specification function; what the
source promises is then proved about these functions and about runs of steps. Runs are sequences of steps, one step per
critical section or per call into a database, a disk or a bus, in any order.

## What turned out differently

Where a promise does not hold of the code as it is, the project keeps the code, proves exactly when the promise holds, and
gives a run or an input that breaks it otherwise.

- Two nodes can execute at once if a timer is late by the 2 s slack, if a `Claim` call succeeds only after 10 s, or if a
  release takes effect after its call was given up and its node has claimed again: the token is then unchanged, so the
  release frees a lease in use (`LeaseProtocol.ExclusiveExactlyWhenSafe`).
- `used` misses an entry that was renamed into place when both the directory flush and the following `Stat` fail; a later
  `Put` can then pass the byte limit (`QueueRuns.StepAccounting`, `QueueRuns.UncountedEntryBreaksLimit`).
- One point that does not decode loses the message of its whole block: a bit index on anything but an unsigned integer
  (`bits` among them), a type wider than its registers, which is a run-time panic, or an unknown type. Every message of a
  plan arrives for every memory if and only if no register point of the table is such
  (`ModbusTables.PlanDecodesExactlyWhen`, `ModbusTables.NeighbourIsLost`).
- Coils are decoded up to the end of the last data byte, so a coil polled with another interval can be reported off
  although it is on. The coil values of a message are right for every memory if and only if the table has no coil in that
  padding (`ModbusDecode.CoilValuesAreRightExactlyWhen`, `ModbusDecode.NeighbouringCoilIsMisread`).
- Framing needs more of a package than answers that do not change: the cuts TCP makes do not matter if and only if a read
  that is rejected is rejected alike when it brings more at once; a package that claims bytes it has not seen can break
  this (`FramingCuts.CutsDoNotMatterExactlyWhen`, `Framing.ClaimingUnseenBytesBreaksChunking`).
- A late reply never satisfies another command on one connection. On UDP the next session of the same address takes it for
  the answer to a command with the same correlation id, and only then (`SessionSequence.LateReplyNeedsReuse`,
  `SessionSequence.ReusedIdTakesLateReply`).
- A frame of the old session that is past its check when a new session registers writes the old session back, and both
  are closed. A takeover lasts if and only if no such frame is in progress (`Connections.TakeoverLastsExactlyWhenAlone`,
  `Connections.LateFrameUndoesTakeover`).
- Pending messages that cannot be read or published keep younger ones from being retried: 200 strictly older ones for
  ever, 200 no younger ones possibly (`RetryLoop.CanDrainExactlyWhen`, `RetryLoop.DrainsExactlyWhen`).
- `SetAlarmStatus` reads and writes in two calls, and video fusion lists active alarms and writes its copies back: either
  can overlap a recovery and open the alarm of a normal component. Open alarms stay current if and only if nothing writes
  an open copy over an alarm that is not (`ComponentAlarm.OpenIsCurrentExactlyWhen`,
  `ComponentAlarm.StaleAcknowledgementReopens`, `ComponentAlarm.VideoFusionReopens`). A message id reused for another time
  can lose the later state (`ComponentAlarm.ReusedIdIsLost`).
- Pages of alarms are sorted by one time stamp; rows with equal times may change places between two calls, and then
  closing can succeed and miss an alarm. It closes all of a status in every order of ties if and only if no alarm m of the
  rule has A / 1000 != (A + B) / 1000, where A alarms of other rules have a later time and B the same
  (`AlarmPaging.PassClosesAllExactlyWhen`, `AlarmPaging.EqualTimesHideAnAlarm`).
- The frame reader loses a frame behind garbage in which an '@' is last or stands before another '@'
  (`Gb26875.ResyncsExactlyWhenClean`).
- The limiter keeps a little more than its bound: fewer than 20 (k + 1) requests in k seconds
  (`RateLimit.AcceptsAreBounded`).

## Model

| member | source | states |
|---|---|---|
| RtuCrc.Crc | internal/modbusframe/rtu.go:9-22 | the byte-wise loop computes the bit-serial register of the standard |
| RtuCrc.KnownAnswer | internal/modbusframe/rtu.go:9-26 | the standard's worked example: the bytes 02 07 are followed by 41 12 |
| RtuCrc.AppendCrc | internal/modbusframe/rtu.go:23-26 | the frame is the data followed by its check, low byte first |
| RtuCrc.Validate | internal/modbusframe/rtu.go:27-35 | accepts exactly frames of legal length whose trailer is the check of the rest, and names the failing test |
| RtuCrc.TrailerBits | internal/modbusframe/rtu.go:25 | the two trailer bytes are fed to the register as the sixteen bits of the check, lowest first |
| RtuCrc.ResidueIsZero | internal/modbusframe/rtu.go:31 | the check of a whole frame is zero if and only if its trailer is the check of its body |
| RtuCrc.AcceptedMeansZero | internal/modbusframe/rtu.go:27-35 | a frame is accepted if and only if its length is legal and its own check is zero |
| RtuCrc.FramedIsAccepted | internal/modbusframe/rtu.go:23-35 | appending the check makes an accepted frame of a body if and only if the body has 3 to 254 bytes |
| RtuCrc.FeedIsLinear | internal/modbusframe/rtu.go:13-19 | the register is linear over exclusive-or in its start and its input |
| RtuCrc.BurstIsRejected | internal/modbusframe/rtu.go:27-35 | every corruption confined to sixteen consecutive bits of an accepted frame is rejected |
| RtuCrc.WiderBurstIsAccepted | internal/modbusframe/rtu.go:27-35 | sixteen is the limit: at every position of every accepted frame some corruption of seventeen consecutive bits is accepted |
| ReadPlan.PlanGroup | internal/core/point_table.go:226-251 | for one group: every point whole in a block, every address used, blocks within the limit if and only if all points are, and no competing plan is shorter |
| ReadPlan.GroupPoints | internal/core/point_table.go:207-218 | groups by function code and interval, in table order; fails exactly on an unsupported function code |
| ReadPlan.CompileModbusReadBlocks | internal/core/point_table.go:206-254 | the plan of every group is good in that sense, and nothing else is planned |
| ReadPlan.LeadersNeedOwnBlocks | internal/core/point_table.go:240-250 | the first points of two emitted blocks fit into no common legal gap-free block |
| ReadPlan.CompetitorIsNoShorter | internal/core/point_table.go:240-251 | so every plan without gaps, within the limit and covering the points has at least as many blocks |
| ReadPlan.SamePointsSamePlan | internal/core/point_table.go:227 | a good plan stays good for the points in any other order |
| ModbusWire.BuildReadRequest | internal/protocolruntime/modbus.go:344-363 | succeeds exactly for function codes 1 to 4 and blocks of at most 2000 coils or 125 registers within 65536 addresses, and a conforming device understands the twelve bytes as that query |
| ModbusWire.BuildRtuRequest | internal/protocolruntime/modbus.go:241-247 | the same on a serial line, with a valid check |
| ModbusWire.ReadResponse | internal/protocolruntime/modbus.go:364-396 | takes exactly one response off the stream if and only if it starts with a complete response to this request, and otherwise names the first thing wrong or the exception of the device |
| ModbusWire.ReadRtuResponse | internal/protocolruntime/rtu_tcp.go:50-78 | the same for serial frames, which must pass the check even to report an exception |
| ModbusWire.ValidateReadByteCount | internal/protocolruntime/rtu_tcp.go:80-100 | accepts exactly frames whose byte count and length are those the query calls for |
| ModbusWire.PlanIsRequestable | internal/protocolruntime/modbus.go:344-355 | all blocks of a plan are accepted if and only if every point fits the limit and the 16-bit address range |
| ModbusWire.TcpAnswerIsAccepted | internal/protocolruntime/modbus.go:364-396 | the answer of a conforming device is taken off whole, whatever follows it, and matches the query |
| ModbusWire.RtuAnswerIsAccepted | internal/protocolruntime/rtu_tcp.go:50-100 | so is its serial answer |
| ModbusFrames.RequestBytes | internal/protocolruntime/modbus.go:355-362 | where each field of a query stands in a request that a device understands as it |
| ModbusFrames.SerialRequestBytes | internal/protocolruntime/modbus.go:241-247 | the same on a serial line |
| ModbusFrames.AnswerBytes | internal/protocolruntime/modbus.go:364-396 | where header, registers and coils of a device stand in its answer |
| ModbusFrames.ParsesExactlyWhen | internal/parser/modbus_tcp.go:36-115 | a frame is parsed if and only if it has the header of an answer, the start address is known, no point in it fails and one is found; an exception is reported by its code |
| ModbusDecode.DecodeModbusRegisterValue | internal/parser/modbus_tcp.go:155-228 | swapping in place, reordering and interpreting compute the value of the point, which the `ModbusValues` rows pin down; the caller's bytes are untouched |
| ModbusDecode.OrderRoundTrip | internal/parser/modbus_tcp.go:156-162 | decoding undoes the byte and word order of the device, for every order and width |
| ModbusValues.OnWireIsSent | internal/parser/modbus_tcp.go:206-228 | the one byte sequence in which every byte stands where the letters of the order, and the byte order within registers, put it |
| ModbusValues.OrderIsUndone | internal/parser/modbus_tcp.go:156-162 | from that sequence the parser gets the value back, most significant byte first |
| ModbusValues.IntegerIsRead | internal/parser/modbus_tcp.go:164-203 | an integer of any of the six types, big-endian and in two's complement, reads as n * scale + offset, a scale of 0 counting as 1 |
| ModbusValues.BitIsRead | internal/parser/modbus_tcp.go:189-195 | with a bit index it reads as whether that bit of n is set, or is refused if n is negative |
| ModbusValues.WordIsRead | internal/parser/modbus_tcp.go:165-168 | a status word reads as whether it is not zero, or as its sixteen bits; a bit index on it is refused |
| ModbusValues.FloatIsRead | internal/parser/modbus_tcp.go:177-182 | a float reads as the number of its first four or eight bytes in order, scaled and shifted |
| ModbusValues.TextIsRead | internal/parser/modbus_tcp.go:183-184 | a string reads without the zeros and blanks at its end, and with everything else |
| ModbusDecode.ParsePoints | internal/parser/modbus_tcp.go:68-110 | the loop collects the values of the matching points and stops at the first that fails |
| ModbusDecode.ParseTcp | internal/parser/modbus_tcp.go:36-115 | the checks in their order, then the values of the points |
| ModbusDecode.ParseRtu | internal/parser/modbus_rtu.go:22-42 | a valid serial frame parses as the TCP frame it is dressed as, any other is an error |
| ModbusDecode.RtuEqualsTcp | internal/parser/modbus_rtu.go:27-36 | the same answer gives the same message on both transports |
| ModbusDecode.RegisterSliceIsExact | internal/parser/modbus_tcp.go:93-101 | a register point is sliced out of a block if and only if it lies whole inside, and then reads as it does alone |
| ModbusDecode.CoilSliceIsExact | internal/parser/modbus_tcp.go:86-91 | a coil is reported up to the end of the last byte, and reads as off past the block |
| ModbusDecode.CoilIsRightExactlyWhen | internal/parser/modbus_tcp.go:88-91 | a reported coil is right if and only if the block asked for it or it is off |
| ModbusDecode.BlockRefinesPoint | internal/parser/modbus_tcp.go:71-103 | inside a block every point reads as alone and as in a block of its own |
| ModbusDecode.CollectedMeaning | internal/parser/modbus_tcp.go:71-110 | the message fails if and only if a matched point fails, and otherwise holds exactly the values of the matched points |
| ModbusDecode.AnswerParses | internal/parser/modbus_tcp.go:36-60 | the answer to a readable block passes every header check |
| ModbusTables.DecodesExactlyWhen | internal/parser/modbus_tcp.go:155-204 | a point decodes from whatever its registers hold, or fails at least on all ones, according to its type, width and bit index |
| ModbusTables.ArrivesExactlyWhen | internal/parser/modbus_tcp.go:92-113 | a message arrives if and only if no register point in its block fails, and then has every point of the block right |
| ModbusTables.BlockDecodesExactlyWhen | internal/parser/modbus_tcp.go:92-113 | for every memory, if and only if every register point in the block is decodable |
| ModbusTables.EveryBlockHoldsAPoint | internal/core/point_table.go:236-251 | no block of a plan could be left out, so each holds a whole point |
| ModbusTables.PlanReadsEveryPoint | internal/parser/modbus_tcp.go:71-110 | for any memory every planned point is read by a block of its group, whose message arrives with the value the point has when read alone, given decodable points in the block |
| ModbusValues.PlannedNumberArrives | internal/parser/modbus_tcp.go:71-110 | a number held in the registers of a planned point arrives, scaled, in the message of a block of its group, given decodable points in the block |
| ModbusTables.PlanDecodesExactlyWhen | internal/parser/modbus_tcp.go:92-113 | every message of a plan arrives for every memory if and only if every register point of the table is decodable |
| ModbusTables.NeighbourIsLost | internal/core/point_table.go:119-133 | a table of two points, each accepted, in which one takes the other with it for every memory |
| ModbusTables.OneNameOneMessage | internal/protocolruntime/modbus.go:104-121 | blocks that share a name, and so a poll timer, have the same message |
| ModbusDecode.RegisterValuesAreNeverWrong | internal/parser/modbus_tcp.go:92-103 | no message of any block carries a register value that differs from reading the point alone |
| ModbusDecode.CoilValuesAreRightExactlyWhen | internal/parser/modbus_tcp.go:71-110 | the message of a coil block is right for every memory if and only if the table has no coil in the padding past the block |
| ModbusDecode.PaddingIsMisread | internal/parser/modbus_tcp.go:86-91 | a coil in the padding is reported off whenever it is on |
| ModbusDecode.NeighbouringCoilIsMisread | internal/parser/modbus_tcp.go:86-110 | of two neighbouring coils with different intervals, the message of the block of the first reports the second off whenever it is on |
| Lease.Coordinator.Claim | internal/protocolruntime/coordinator.go:33-50 | a live session is only touched; otherwise a grant starts one with a deadline 8 s after the start of the call, and anything else changes nothing |
| Lease.Coordinator.Tick | internal/protocolruntime/coordinator.go:72-94 | a session stays exactly if it is live, was touched within 3 s and the database granted its own token, and then its deadline moves; exactly the tokens of the untouched and cancelled are handed back |
| LeaseProtocol.StepKeepsInv | internal/protocolruntime/coordinator.go:33-96 | every step keeps each live deadline before the database lease that backs it |
| LeaseProtocol.ExclusiveExactlyWhenSafe | internal/protocolruntime/coordinator.go:20-96 | in every run at most one node executes, if and only if the slack covers timer lag and call time and no release arrives late |
| LeaseProtocol.LostRenewalEnds | internal/protocolruntime/coordinator.go:81-89 | in every run a renewal that is lost, denied or answered with another token ends the session |
| LeaseProtocol.RenewalKeepsExecuting | internal/protocolruntime/coordinator.go:89-92 | one that is granted keeps it executing until 8 s after the renewal was started, whatever other nodes and the database do |
| LeaseProtocol.ClaimKeepsExecuting | internal/protocolruntime/coordinator.go:41-48 | so does the grant of a claim |
| LeaseProtocol.RenewalSucceeds | internal/protocolruntime/coordinator.go:81-92 | an undisturbed renewal of an executing session is granted, in every run |
| LeaseProtocol.ClaimsAtOnce | internal/protocolruntime/coordinator.go:41-48 | a lease that is free or its own is granted at once to a node that does not execute |
| LeaseProtocol.LateTimerOverlaps | internal/protocolruntime/coordinator.go:41-48 | a run with two executing nodes for every environment without that slack |
| LeaseProtocol.LateReleaseOverlaps | internal/protocolruntime/coordinator.go:74-79 | a run with two executing nodes when a release arrives late |
| LeaseProtocol.TokenGrowsWithOwner | internal/adapters/postgres/execution.go:11-33 | no step lowers the token or raises it by more than one, and it grows when the owner changes |
| LeaseProtocol.TokensAlongRun | internal/adapters/memory/execution.go:10-56 | the same between any two moments of a run |
| LeaseProtocol.SuccessorsAreFenced | internal/protocolruntime/coordinator.go:81-92 | later sessions never carry a smaller token, those of another node a larger one |
| LeaseProtocol.ValidateFences | internal/protocolruntime/coordinator.go:97-111 | when a node validates no other node executes, and an executing node always validates |
| DurableQueue.TotalWithout | internal/durablequeue/queue.go:50-60 | the sum of file sizes does not depend on the order of adding |
| DurableQueue.Queue.OpenQueue | internal/durablequeue/queue.go:33-62 | opening succeeds exactly with positive limits, a free lock and readable entries, and counts all entries |
| DurableQueue.Queue.Put | internal/durablequeue/queue.go:76-150 | the new directory history, count and outcome for every combination of failing calls |
| DurableQueue.Queue.Store | internal/durablequeue/queue.go:111-150 | quarantine, conflict, completion of an earlier flush, limits and accounting of one entry |
| DurableQueue.Queue.AtomicFile | internal/durablequeue/queue.go:243-266 | the entry appears whole or not at all; success means it is flushed |
| DurableQueue.Queue.Next | internal/durablequeue/queue.go:165-221 | the answer and the new directory for every combination of failing calls; the `QueueDelivery` rows say what they are |
| DurableQueue.Queue.Ack | internal/durablequeue/queue.go:222-241 | removes the entry and its bytes from the count; a second call succeeds without a flush |
| DurableQueue.Queue.Reject | internal/durablequeue/queue.go:269-280 | renames the entry aside and keeps its bytes |
| DurableQueue.Queue.RetryRejected | internal/durablequeue/queue.go:295-318 | makes rejected entries active one by one until one cannot be |
| QueueRuns.StepKeepsOrder | internal/durablequeue/queue.go:81-318 | no operation, failure or crash puts an identity in two places |
| QueueRuns.PutIsDurable | internal/durablequeue/queue.go:81-150 | a `Put` that returns nil has its exact bytes on disk for certain, also when it only completes a flush |
| QueueRuns.RetransmissionIsRecognised | internal/durablequeue/queue.go:91-124 | an identical `PutReceived` later keeps the first time stamp, succeeds and changes nothing |
| QueueRuns.StepKeepsSecured | internal/durablequeue/queue.go:81-318 | whatever the disk comes back with holds a stored message, unless the step is an `Ack` that finds it active and removes the file |
| QueueRuns.SecuredExactlyUnlessRemoved | internal/durablequeue/queue.go:222-241 | and only such an `Ack` takes it away |
| QueueRuns.AcceptedMessageSurvives | internal/durablequeue/queue.go:76-318 | the same over whole runs with failures, crashes and reopenings; the entry is never quarantined as corrupt |
| QueueDelivery.PutSucceedsExactlyWhen | internal/durablequeue/queue.go:81-150 | without failures `Put` stores exactly new messages with room, completes repeated ones, and names why it refuses the others, which changes nothing |
| QueueDelivery.NextHandsOut | internal/durablequeue/queue.go:165-221 | a secured entry whose turn it is comes back as the message decoded from its bytes, with its own identity, and stays |
| QueueDelivery.EmptyExactlyWhen | internal/durablequeue/queue.go:169-175 | the queue calls itself empty if and only if it is open, can be listed and holds no active entry |
| QueueDelivery.OnlySoundIsHandedOut | internal/durablequeue/queue.go:189-220 | only an entry under the name of its own message is handed out |
| QueueDelivery.UnsoundIsSetAside | internal/durablequeue/queue.go:203-219 | an unsound entry ends as exactly its bytes in the quarantine of its name, and nothing else changes |
| QueueDelivery.ReceivedIsDelivered | internal/durablequeue/queue.go:76-221 | a new message with room is stored and, after every run that does not remove it, handed out with its identity and reception time when its turn comes |
| QueueDelivery.AckRemoves | internal/durablequeue/queue.go:222-241 | `Ack` removes the one entry and its bytes from the count; the second finds nothing to do |
| QueueDelivery.RejectionIsUndone | internal/durablequeue/queue.go:269-318 | a rejected message lies aside with its bytes and its identity is refused; the retry of an operator restores the directory |
| QueueRuns.StepAccounting | internal/durablequeue/queue.go:128-150 | the limits hold, and the byte count stays exact if and only if no new entry was neither flushed nor measured |
| QueueRuns.AccountingIsExact | internal/durablequeue/queue.go:128-150 | over every run without that case `used` is the size of all entries and a queue opened within its limits stays so |
| QueueRuns.CountedThroughoutExactlyWhen | internal/durablequeue/queue.go:141-147 | the count is exact in every state of a run if and only if that case never occurs |
| QueueRuns.UncountedEntryBreaksLimit | internal/durablequeue/queue.go:141-147 | a run in which twice the byte limit is stored |
| Framing.ReceiveTcp | internal/protocolruntime/listeners.go:359-395 | for every package the buffer stays within its maximum and the loop does what its reads come to; for a stable one that is what the stream comes to at once |
| Framing.TakeFrames | internal/protocolruntime/listeners.go:380-394 | the inner loop takes frames until one is incomplete or rejected |
| Framing.FedAppend | internal/protocolruntime/listeners.go:380-394 | more bytes only continue where framing stopped |
| Framing.ErrorsAreFinalExactlyWhen | internal/protocolruntime/listeners.go:567-569 | for a package with unchanging answers, parts of every length may be framed on their own if and only if what is rejected stays rejected |
| FramingCuts.ReadsAreByByte | internal/protocolruntime/listeners.go:375-395 | reads of any legal sizes do what reading byte by byte does |
| FramingCuts.CutsDoNotMatterExactlyWhen | internal/protocolruntime/listeners.go:359-395 | for a package with unchanging answers all legal ways of reading a stream agree, if and only if a rejected read is rejected alike when it brings more at once |
| FramingCuts.StableRejectsAlike | internal/protocolruntime/listeners.go:567-569 | if what is rejected stays rejected under any number of bytes, no cut matters |
| FramingCuts.LongClaimIsHarmless | internal/protocolruntime/listeners.go:375 | a package whose rejections do not stay, and for which no cut matters, because one read brings at most 16384 bytes |
| Framing.ChunkingDoesNotMatter | internal/protocolruntime/listeners.go:359-395 | two ways of cutting a stream give the same frames, session, leftover and error |
| Framing.FramesAreTheStream | internal/protocolruntime/listeners.go:380-394 | frames and leftover are the stream: nothing lost, doubled or reordered |
| FramingSessions.EveryFrameIsAccepted | internal/protocolruntime/listeners.go:534-634 | for every package and all reads each frame is one that the package claimed with a hex reply and the session accepted for its device, in the state the package last gave; framing stops only on a package that waits for more than it has, or on a refusal |
| FramingSessions.SessionKeepsItsDevice | internal/protocolruntime/listeners.go:574-583 | a session that has its device keeps it, whatever the package answers |
| Framing.ClaimingUnseenBytesBreaksChunking | internal/protocolruntime/listeners.go:567-569 | a package whose answers never change, yet whose rejections do not stay and for which the cuts matter |
| SessionCommand.ListenerSession.Command | internal/protocolruntime/listeners.go:763-819 | a command is written and waits, fails after taking the busy flag, or is refused without a trace |
| SessionCommand.ListenerSession.Frame | internal/protocolruntime/listeners.go:635-650 | an ingested frame answers the pending command with its correlation id, and no other |
| SessionCommand.ListenerSession.Close | internal/protocolruntime/listeners.go:331-344 | closing answers every pending command once and unlists it |
| SessionCommand.StepKeepsInv | internal/protocolruntime/listeners.go:721-845 | the session invariant survives every step of every goroutine |
| SessionCommand.OneOutstandingCommand | internal/protocolruntime/listeners.go:763-807 | in every run at most one command is pending, and its channel is empty |
| SessionCommand.SendNeverBlocks | internal/protocolruntime/listeners.go:635-650 | every send finds its one-place channel empty |
| SessionCommand.SuccessFollowsTheCommand | internal/protocolruntime/listeners.go:635-650 | a success comes from a frame ingested after this very command was written with the same id |
| SessionCommand.LateRepliesSatisfyNobodyElse | internal/protocolruntime/listeners.go:836-842 | after a timeout the session writes no further command and a late reply reaches no other call |
| SessionCommand.CloseWakesEveryWaiter | internal/protocolruntime/listeners.go:331-344 | on a closed session every waiting call has a result to receive |
| SessionSequence.LateReplyNeedsReuse | internal/protocolruntime/listeners.go:402-437 | over all sessions of an address, a reply to a command that timed out reaches another call only by datagram and only if a later session reuses the correlation id |
| SessionSequence.ConnectionsTakeNoLateReply | internal/protocolruntime/listeners.go:836-842 | on connections it reaches no other call |
| SessionSequence.ReusedIdTakesLateReply | internal/protocolruntime/listeners.go:402-437 | two sessions of one address in which it does |
| SessionCommand.TimedOutCallReadsNothing | internal/protocolruntime/listeners.go:836-842 | a call that has left its wait never returns to it |
| SessionCompletion.MatchingReplyCompletes | internal/protocolruntime/listeners.go:763-845 | a ready session takes any new call; the first matching frame after any others is its one result, and the session is ready again |
| SessionCompletion.UncorrelatedReturns | internal/protocolruntime/listeners.go:819-824 | a command without a correlation id, or one that fails, leaves the session ready |
| SessionCompletion.TimeoutCloses | internal/protocolruntime/listeners.go:836-842 | from every reachable state a waiting call can time out, which closes the session and leaves nothing pending |
| Connections.Reporter.ReportConnection | internal/protocolruntime/connections.go:14-44 | counts up or down, and reports only the first up and the last down |
| Connections.ReportFollows | internal/protocolruntime/connections.go:14-44 | one session more or less moves count, key and edges together |
| Connections.StepKeepsInv | internal/protocolruntime/listeners.go:331-357 | counts, edges and the device table stay right through every step of every session |
| Connections.CountIsExact | internal/protocolruntime/connections.go:14-44 | the count of a device is the number of its sessions reported up and not yet down, and no key holds zero |
| Connections.EdgesAlternate | internal/protocolruntime/connections.go:20-35 | reported edges alternate, and the last one tells whether the device has a session |
| Connections.ClosingRemovesOnlyItself | internal/protocolruntime/listeners.go:345-351 | closing a session leaves every entry of another session alone |
| Connections.EntriesHaveOwners | internal/protocolruntime/listeners.go:615-628 | a table entry belongs to a session of that listener and device that has not left the table |
| Connections.DrainedMeansEmpty | internal/protocolruntime/listeners.go:331-357 | when all sessions are gone nothing is left in the table or the counts |
| Connections.TakeoverLasts | internal/protocolruntime/listeners.go:541-548 | an owner with no other frame in progress keeps its device through every continuation, until it closes or another session of the listener identifies |
| Connections.TakeoverLastsExactlyWhenAlone | internal/protocolruntime/listeners.go:541-548 | and only then: the takeover of an owner lasts if and only if no other frame is between its check and its table update |
| Connections.TakeoverBegins | internal/protocolruntime/listeners.go:615-628 | registering makes a session the owner, for good if and only if no other frame was then in progress |
| Connections.LateFrameUndoesTakeover | internal/protocolruntime/listeners.go:541-548 | a run in which the older session takes the device back and both are told to close |
| Connections.SessionComesAndGoes | internal/protocolruntime/listeners.go:331-357 | from every reachable state a new session can identify, own its device and leave; it is reported up and down exactly if it was alone |
| BusLock.Buses.Enter | internal/protocolruntime/rtu_tcp.go:24-32 | the caller gets the bus of its key, made if missing, with one more reference |
| BusLock.Buses.ReleaseRef | internal/protocolruntime/rtu_tcp.go:33-40 | one reference less, and the entry goes with the last |
| BusLock.StepKeepsInv | internal/protocolruntime/rtu_tcp.go:24-48 | tokens, counts and entries stay right through every step of every caller |
| BusLock.OneHolderPerEndpoint | internal/protocolruntime/rtu_tcp.go:41-44 | at most one caller of an endpoint holds the bus |
| BusLock.EntryLivesWithItsReferences | internal/protocolruntime/rtu_tcp.go:26-40 | a key is in the map if and only if a caller refers to it, and the count is the number of these callers |
| BusLock.OneLiveBusPerEndpoint | internal/protocolruntime/rtu_tcp.go:26-40 | two callers share a bus if and only if they name the same endpoint |
| BusLock.CleanupAlwaysPossible | internal/protocolruntime/rtu_tcp.go:33-48 | returning a token or a reference never fails, and a caller that cannot acquire waits for a holder |
| BusLock.NewcomerGetsTheBus | internal/protocolruntime/rtu_tcp.go:24-48 | from every reachable state a new caller holds the endpoint it asked for as soon as its holder, if any, has returned |
| Outbox.Repository.ReserveRawMessage | internal/adapters/memory/raw_reservation.go:13-31 | the first message of a key fixes the snapshot, a retransmission gets it back, another message conflicts |
| Outbox.Repository.SaveRawIndex | internal/adapters/memory/repository.go:339-348 | the first row of a key stays |
| Outbox.Repository.MarkRawPublished | internal/adapters/memory/repository.go:373-388 | the time is set only without an error text |
| Outbox.CallKeepsSane | internal/core/engine.go:72-189 | every call, working or failing, undoes nothing and keeps reservations, archive, index and bus consistent |
| Outbox.StepKeepsInv | internal/core/engine.go:72-189 | and so does every interleaving of ingests and retries |
| Outbox.PublicationsAgree | internal/core/engine.go:149-162 | all publications of a key are one and the same message, snapshot included |
| Outbox.PublishedMeansStored | internal/core/engine.go:110-146 | what is published is reserved, archived and indexed |
| Outbox.ReservationDecides | internal/adapters/memory/raw_reservation.go:20-27 | the snapshot reserved at any earlier moment is the one published |
| Outbox.SuccessIsPublishedOrPending | internal/core/engine.go:92-146 | a successful ingest has its message on the bus or on the pending list |
| Outbox.RetryPublishes | internal/core/engine.go:164-189 | from every reachable state one undisturbed retry publishes a pending message and takes it off the list |
| OutboxDelivery.IngestPublishesExactlyWhen | internal/core/engine.go:72-162 | from every reachable state an undisturbed ingest succeeds if and only if no other message is reserved under its key; the message first reserved is then archived, indexed and marked, and has gone out once more exactly if it was not published before |
| OutboxDelivery.NewKeyIsPublished | internal/core/engine.go:110-146 | for a key without a row, reserved before or not |
| OutboxDelivery.KnownKeyIsPublished | internal/core/engine.go:92-109 | for a retransmission: a pending row is published from the archive, a published one is left |
| OutboxDelivery.OtherMessageIsRefused | internal/core/engine.go:92-114 | another message under the key fails and changes nothing |
| OutboxDelivery.FailureIsNoted | internal/core/engine.go:149-157 | a publication that fails leaves the row pending or published as it was, with the error noted |
| OutboxDelivery.PublishedStaysPublished | internal/adapters/memory/repository.go:373-388 | a published row never comes back to the pending list, whatever fails later |
| RetryLoop.Tick | internal/core/engine.go:171-187 | one sweep publishes all but the stuck among the first 200 listed and leaves the rest in order |
| RetryLoop.TickSweeps | internal/core/engine.go:171-187 | so what is pending afterwards is what was pending without the published rows |
| RetryLoop.CanDrainExactlyWhen | internal/adapters/memory/repository.go:389-400 | the loop can ever publish a message if and only if fewer than 200 strictly older pending messages are stuck |
| RetryLoop.DrainsExactlyWhen | internal/core/engine.go:164-189 | it does within as many ticks as there are rows, whatever the order among equal times, if and only if fewer than 200 messages archived no later are stuck |
| ComponentAlarm.Repository.ApplyComponentAlarm | internal/adapters/memory/component.go:8-31 | the new watermark, alarm and event |
| ComponentAlarm.StepIsJoinExactlyWhen | internal/model/component.go:87-94 | the watermark becomes the larger of the two unless a larger observation carries the watermark's own message id |
| ComponentAlarm.WatermarkIsLargest | internal/model/component.go:87-94 | after every run with consistent ids the watermark is the lexicographic maximum of time and flag |
| ComponentAlarm.OrderAndRepetitionDoNotMatter | internal/adapters/memory/component.go:8-31 | the same observations in any order and number end the same |
| ComponentAlarm.ReusedIdIsLost | internal/model/component.go:88 | two observations under one id whose order decides |
| ComponentAlarm.ReplayRepeatsTheEvent | internal/adapters/memory/component.go:17-19 | a replay changes nothing and returns the event again |
| ComponentAlarm.TransitionFacts | internal/model/component.go:97-121 | the alarm ends open if and only if the component is active, and an event says when that changed |
| ComponentAlarm.NewerObservationDecides | internal/model/component.go:97-121 | a newer observation raises the candidate, repeats an open alarm, which keeps its status, counts one more and takes time, trigger and details, or recovers it at its own time |
| ComponentAlarm.AcknowledgementStands | internal/model/component.go:97-121 | as long as nobody writes an alarm back, an acknowledged one stays so until it recovers, and one that is not open is never touched again |
| ComponentAlarm.StepKeepsOpenExactlyWhen | internal/core/engine.go:1157-1180 | from open alarms that are current a step leads to such again if and only if it does not write an open copy over one that is not |
| ComponentAlarm.OpenIsCurrentExactlyWhen | internal/core/engine.go:1157-1180 | the same throughout a run |
| ComponentAlarm.InStepExactlyWhen | internal/model/component.go:97-121 | throughout a run components are active exactly when they have an open alarm, if and only if in addition nobody closes a current alarm |
| ComponentAlarm.OpenMeansActive | internal/model/component.go:97-121 | an open alarm has an active watermark that names it, so there is at most one |
| ComponentAlarm.LifecycleFollowsTheComponent | internal/model/component.go:97-121 | under these conditions active means open and the events alternate |
| ComponentAlarm.StaleAcknowledgementReopens | internal/core/engine.go:1157-1180 | a run in which an acknowledgement opens the alarm of a normal component |
| ComponentAlarm.StaleAcknowledgementMayBeHarmless | internal/core/engine.go:1157-1180 | a run in which an acknowledgement is out of date and everything stays in step |
| ComponentAlarm.VideoFusionReopens | internal/core/engine.go:980-1020 | a run in which video fusion writes an active copy back after the recovery and no operator acts |
| RuleAlarms.Repository.ListAlarms | internal/adapters/memory/repository.go:740-752 | a page of some listing of the alarms with the status, latest first, in any order among equal times |
| RuleAlarms.UpdateMakesProgress | internal/core/engine.go:815-823 | recovering one alarm changes just it and takes it out of its status and into none that is open |
| RuleAlarms.CloseStatus | internal/core/engine.go:801-835 | the paging loop terminates, although its updates shrink what it pages through, and is a pass over the status whatever the listings |
| RuleAlarms.CloseRuleAlarms | internal/core/engine.go:798-842 | each closed alarm was reported once, exactly their devices are synchronised, nothing else changes, and no open alarm of the rule is left if none could be on two pages |
| AlarmPaging.LatestIsHit | internal/core/engine.go:804-835 | in every listing an alarm of the rule stands among the places its latest one can have |
| AlarmPaging.PassClosesAll | internal/core/engine.go:804-835 | if no alarm can be on two pages, a pass that succeeds leaves none of the rule, whatever its listings |
| AlarmPaging.Escapes | internal/adapters/postgres/repository.go:924 | an alarm that can be on two pages survives some pass that succeeds |
| AlarmPaging.PassClosesAllExactlyWhen | internal/core/engine.go:798-835 | so a pass closes all alarms of the rule in every order of ties if and only if none can be on two pages |
| AlarmPaging.EqualTimesHideAnAlarm | internal/adapters/memory/repository.go:750 | a successful pass of three calls over 1001 alarms of one time that leaves the one of the rule |
| Gb26875.TimeRoundTrip | internal/parser/gb26875.go:233-254 | a time comes back with its century replaced, so exactly the years 2000 to 2099 come back unchanged |
| Gb26875.BuildFrame | internal/parser/gb26875.go:307-325 | the array written field by field is marker, body, checksum and end marker |
| Gb26875.WireFormat | internal/parser/gb26875.go:307-331 | every field of a built frame at its place: numbers low byte first, the time in decimal digits from the seconds up, the sum of the bytes modulo 256 |
| Gb26875.DecodeFrame | internal/parser/gb26875.go:82-112 | the checks in their order, then the fields |
| Gb26875.DecodesWhatWasBuilt | internal/parser/gb26875.go:82-112 | decoding a built frame succeeds if and only if the data fits in 512 bytes, and returns what went in |
| Gb26875.OneByteIsDetected | internal/parser/gb26875.go:97-106 | any one byte replaced makes a valid frame invalid |
| Gb26875.ExchangeIsNotDetected | internal/parser/gb26875.go:100-106 | two bytes exchanged outside the length field are never noticed |
| Gb26875.Reader.ReadFrame | cmd/gb26875-gateway/main.go:368-400 | the reader returns the next frame and leaves exactly the bytes behind it |
| Gb26875.ReadsFrame | cmd/gb26875-gateway/main.go:386-399 | a frame at the front is read whole, whatever it contains and whatever follows |
| Gb26875.ResyncsExactlyWhenClean | cmd/gb26875-gateway/main.go:369-385 | a frame behind garbage is found if and only if the garbage is clean |
| Gb26875.ConcatenationIsReadBack | cmd/gb26875-gateway/main.go:368-400 | a concatenation of frames is read back frame by frame |
| Gb26875.StreamRoundTrip | internal/parser/gb26875.go:307-325 | messages built, sent over a stream, read and decoded arrive unchanged |
| RateLimit.Service.Allow | internal/onboarding/service.go:120-144 | the new table and the answer, eviction included |
| RateLimit.RunKeepsSane | internal/onboarding/service.go:124-143 | each bucket counts the last accepted requests of its key, and every earlier window is over |
| RateLimit.AcceptsAreBounded | internal/onboarding/service.go:120-144 | every k whole seconds hold fewer than 20 (k + 1) accepted requests of a key |
| RateLimit.RefusalIsJustified | internal/onboarding/service.go:128-130 | with room in the table a key is refused only after 20 accepted requests within the last second |
| RateLimit.RefusedExactlyWhen | internal/onboarding/service.go:120-144 | a request is refused if and only if its window is spent, or it has no recent bucket while 10000 keys have one; no recent bucket is lost |
| RateLimit.TableIsBounded | internal/onboarding/service.go:131-140 | the table never exceeds 10000 entries |

## Left out

- ReadPlan.CompileModbusReadBlocks: the order of the groups in the plan, and the block names, which leave out the interval and key the poll timers (`ModbusTables.OneNameOneMessage` says what sharing one means); the polling itself is not part of this model. The sort by address is one of the outcomes `sort.Slice` allows.
- ModbusDecode.DecodeModbusRegisterValue: a float keeps its IEEE bytes with scale and offset beside it, integers are scaled over the reals, and type and order names are taken as already lower-cased and trimmed; a read past the slice, a run-time panic in the source, is the error `TooFewBytes`.
- ModbusDecode.ParsePoints: alarm mapping and the event fields it sets.
- ModbusDecode.ParseRtu: the archived payload and the transport field of the message.
- ModbusDecode.ParseTcp: hex and JSON decoding of the payload, the start address in metadata or configuration, alarm mapping and the message envelope; an empty point table is reported as no matched points.
- ModbusWire: dialling, deadlines and retries; a response is read from the bytes the peer sends.
- LeaseProtocol: one resource, one clock without drift, whole milliseconds; the configuration part of `Validate`. An abandoned acquire may take effect at any time, which is more than the database does.
- DurableQueue.Queue.Next: which active entry sorts first is a parameter, since entries are named by hashes. The JSON codec is only asked to keep identity and time stamp, the hash to be injective. Temporary files, the lock file, entries that are not regular files and Windows, where the directory flush does nothing, are not part of this model.
- Framing.ReceiveTcp: read deadlines, `selectRelease`, child devices and datagrams; a session is neither closed nor replaced while it frames, which `Connections` covers.
- SessionCommand.ListenerSession.Command: the choice of a session and the refusals before the busy test (a frame in progress, the device, the release, the lease), command encoding and the child device of a command; a failed write is not a written command.
- Connections: tenant and product of a device, the session table by remote address, and a failing reporter, whose error the source only logs.
- Outbox: normalising and validating a message, gateway children, the protocol binding lookup and the REINGEST mode; a payload stands for its hash. The per-process ingest locks are left out, so runs of several nodes are included.
- RetryLoop.Tick: nothing new arrives, no retransmission publishes a pending message, and a message is either always stuck or never; other failures are in `Outbox`.
- ComponentAlarm: parsing of component lists, which fixes positive time stamps, and the alarm fields that only describe the device or that video fusion adds; every candidate has a new id, as the engine gives it.
- RuleAlarms.CloseRuleAlarms: other writers during the call, and the two publications of a recovered alarm, which are one report.
- Gb26875.TimeRoundTrip: the instant that `time.Date` makes of the fields.
- Gb26875.DecodeFrame: application data, address text and the conversion of a civil time to an instant (where February 30 becomes a day in March); years before 2000 and after 2099 lose their century. Negative years are not part of this model.
- RateLimit.Service.Allow: the zero time of a missing bucket is the absence of the key.
- HTTP handlers, MQTT, Kafka and database adapters, JavaScript and expression evaluation, video, knowledge and report features: outside the protocols above.
