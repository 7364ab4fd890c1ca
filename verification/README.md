# Verified model of the MultiBus firmware's hardware-free layer

The firmware polls MODBUS channels, keeps the results, reports them over LoRaWAN in the payload
format of FPort 85, stores them across power loss, and obeys a binary command stream from the
network. This project models that layer in Dafny and proves what it is there for. `dafny verify
dfyconfig.toml` checks all of it.

Each module follows one component. A component that updates fields or buffers is a class or a
method over arrays, proved against a function on values; the main results are lemmas about those
functions.

| modules | component |
|---|---|
| Words, Crc | machine words, little- and big-endian fields, reflected CRCs |
| Channel, RtuCodec, WireTypes, RtuDevice, RtuMaster, RtuExchange | the MODBUS RTU codec, its wire types by name, a conforming server (MODBUS Application Protocol V1.1b3, sections 6.1-6.6 and 6.12), the byte-at-a-time framer, and what the verdicts on answers mean |
| Uplink, ReportPacking, ReportScheduler, ReportStream, ReportStart | values on the radio, packing of a report, the report scheduler, its runs, and when reports start |
| HistoryRing, HistoryImage, HistoryStore, HistoryRecord, HistoryStorage, HistoryDelivery, HistoryLoss, HistoryQuery | history: ring, image, A/B journal, records, snapshots, retransmission, loss of the network, queries |
| Calendar, LocalTime | closed-form calendar and daylight-saving rules, with C's truncating division |
| RuleCondition | the timed condition of a rule, over whole traces of polls |
| Downlink, DownlinkLayout | the command decoders and their parse loop, and the byte layout of every command |
| EventRing | the event ring and its lossy consumer |
| Polling, PollingComponent, PollDelivery | the polling component's channels, cache, turn and transaction in flight, and its points against the server's registers |

Bytes are integers from 0 to 255. Widths, wrap-around and truncation are written out. Floats are bit
patterns; the processor's two conversions between float and double are a parameter `Fpu`, about which
the main results assume nothing. Clocks, serial bytes, the radio's answers, and what a flash write
leaves behind are parameters, so that results hold for all of them.

## What the proofs found

- A torn *first* save makes every load after it report failure (`HistoryStore.TornFirstSaveIsReachable`).
  Loading is part of start-up (`include/core/Application.h:151-154`), and after a failed start-up the
  application never runs (`src/main.cpp:22-31`): after a restart no save follows, and the failure is
  permanent. `HistoryStore.LoadFailsExactlyOnTornFirstSave` shows it is the only way to get there.
- Immediate requests can shift the periodic schedule: a report still unsent at the deadline delays the
  periodic one (`ReportStream.ImmediateReportCanShiftSchedule`). They never do exactly when no deadline
  passes while a report is still being sent (`ReportStream.RequestsKeepScheduleExactlyWhenPunctual`).
- Daylight time can change at New Year without a transition there, because each year is judged by its
  own two transitions (`LocalTime.DstCanChangeAtNewYear`). `DstChangesAtNewYear` gives the exact condition.
- A rule that never fired looks locked for half of every 2^32 ms of uptime, from 2^31 ms on
  (`RuleCondition.FreshRecordLock`).
- The downlink accepts channel conditions that can never execute: the reserved mode 5, times above a
  day, limits that are not finite (`Downlink.AcceptedConditionIsExecutable`).
- The inner overflow status of `preparePacket` cannot occur (`ReportPacking.FillNeverTooLarge`).
- A poll result waiting to be collected survives a change of its channel; only removing the channel
  discards it. The model keeps this: a waiting result is a reading of the channel it names.
- Removing a channel that stands earlier in the list costs the channel at turn its turn: the index stays
  and the list moves up (`PollDelivery.TurnAfterRemoval`).
- After a write to a float32 register the cache holds the value as it was asked for, not the rounded one
  the server stores, until the next poll (`PollDelivery.WriteKeepsTracking` gives the exact condition).

## Model

| member | source | states |
|---|---|---|
| Crc.StepInjective | include/modbus/ModbusRtuCodec.h:54-59 | one bit step of the CRC register is injective for every polynomial whose top bit is set, so no register state is reached from two others |
| Crc.BurstBreaksCodeword | include/modbus/ModbusRtuCodec.h:49-62 | for a CRC of n bytes, a message with its appended checksum stops matching when at most n neighbouring bytes change, wherever they are, the checksum bytes included |
| Crc.FirmwarePolynomials | include/history/HistoryImageCodec.h:79-88 | both reflected polynomials of the firmware (0xA001 and 0xEDB88320) meet the hypotheses of the burst theorem |
| Crc.Crc16 | include/modbus/ModbusRtuCodec.h:49-62 | the in-place loop computes the CRC-16 register function over the first bytes of the buffer |
| Crc.Crc32 | include/history/HistoryImageCodec.h:79-88 | the in-place loop computes the complemented CRC-32 register function |
| RtuCodec.OrderIsInvolution | include/modbus/ModbusRtuCodec.h:454-502 | every byte order of every wire type undoes itself: ordering twice gives the bytes back |
| RtuCodec.OrderBytes | include/modbus/ModbusRtuCodec.h:454-502 | accepts width 2 and 8 for every type and width 4 for the types of that width, shuffles by the order table, and touches nothing otherwise |
| RtuCodec.RegisterValueRoundTrip | include/modbus/ModbusRtuCodec.h:305-443 | a value that encodes to register bytes decodes from them as itself; a float32 decodes as its nearest float |
| RtuCodec.WriteBackIsIdentity | include/modbus/ModbusRtuCodec.h:305-443 | writing back what a register reads as leaves its bytes unchanged, for a float32 register if and only if the processor narrows the widened float to its bits |
| RtuCodec.SetInteger | include/modbus/ModbusRtuCodec.h:418-443 | sign extension gives the two's complement value of the bytes for signed channels and the plain value otherwise |
| RtuCodec.EncodeRegisterValue | include/modbus/ModbusRtuCodec.h:305-365 | accepts exactly the scalars of the channel's kind that fit the width, given room for it, and writes their wire bytes |
| RtuCodec.DecodeRegisterValue | include/modbus/ModbusRtuCodec.h:367-416 | gives the scalar the wire bytes of a value stand for; refuses boolean channels and wrong lengths |
| RtuCodec.BuildReadRequest | include/modbus/ModbusRtuCodec.h:94-121 | builds the read frame with function, address, quantity and CRC, or refuses with the code's status and leaves the buffer alone |
| RtuCodec.BuildWriteRequest | include/modbus/ModbusRtuCodec.h:133-199 | builds the single-coil, single-register or multiple-register frame for a value and index, or refuses with the code's status |
| RtuCodec.AcceptedResponseIsReading | include/modbus/ModbusRtuCodec.h:245-296 | a response that is accepted yields exactly quantity values, each of the kind of the channel's type |
| RtuCodec.DamagedResponseRejected | include/modbus/ModbusRtuCodec.h:253-260 | any change of at most two neighbouring bytes of a frame with a valid CRC is reported as a CRC mismatch |
| RtuCodec.DecodeReadResponse | include/modbus/ModbusRtuCodec.h:245-296 | status, values, count and exception code are those of the response function, in the code's order of checks |
| RtuDevice.ReadDeliversDeviceValues | include/modbus/ModbusRtuCodec.h:94-121 | the read frame, executed by a conforming server, is answered with a response that decodes to the device's own values |
| RtuDevice.WriteIsExecuted | include/modbus/ModbusRtuCodec.h:133-199 | the write frame, executed by a conforming server, changes exactly the coil or registers of the written position |
| RtuDevice.WriteIsAcknowledged | include/modbus/ModbusRtuCodec.h:201-243 | the server's answer to an executed write frame is accepted by the write response decoder |
| RtuDevice.WriteReadRoundTrip | include/modbus/ModbusRtuCodec.h:94-199 | for every writable type, byte order, index and encodable value: write, execute, read back. The written position holds the value, the other is unchanged, the write is acknowledged |
| RtuMaster.ExtentIsStable | include/modbus/ModbusRtuMaster.h:258-275 | where a response ends does not change once more bytes follow it |
| RtuMaster.SplitDoesNotMatter | include/modbus/ModbusRtuMaster.h:247-289 | for every split of the received bytes over polls before the timeout, polling ends at the announced length with exactly what the whole-frame decoder gives on those bytes, and the rest stays queued |
| RtuMaster.NoDecisionBeforeEnd | include/modbus/ModbusRtuMaster.h:247-289 | as long as the end is not visible in the bytes received, every poll stays pending |
| RtuMaster.Master.StartRead | include/modbus/ModbusRtuMaster.h:140-175 | starts exactly when the bus is started and free, the request builds and the serial driver takes it; counts a failure otherwise; leaves a running transaction alone |
| RtuMaster.Master.StartWrite | include/modbus/ModbusRtuMaster.h:177-214 | the same for writes |
| RtuMaster.Master.StartRaw | include/modbus/ModbusRtuMaster.h:216-245 | the same for pass-through requests of 1 to 242 bytes |
| RtuMaster.Master.PollRead | include/modbus/ModbusRtuMaster.h:247-289 | one poll does what the framing function says of the bytes held and queued: waits, or ends the transaction, counts it once and reports the decoder's outcome |
| RtuMaster.Master.PollWrite | include/modbus/ModbusRtuMaster.h:291-322 | the same for write responses |
| RtuMaster.Master.PollRaw | include/modbus/ModbusRtuMaster.h:324-370 | a pass-through response ends when the line is idle or at the timeout, and is delivered unchanged unless the caller's buffer is too small |
| RtuMaster.Master.CancelTransaction | include/modbus/ModbusRtuMaster.h:372-380 | ends the transaction without counting it and drains the line |
| RtuMaster.Master.FinishDecode | include/modbus/ModbusRtuMaster.h:426-450 | ends the transaction, counts it as success or failure, and keeps status and exception code |
| Uplink.FieldRoundTrip | include/lorawan/FPort85ModbusUplink.h:63-122 | a scalar that fits its channel's field is read back from its little-endian bytes, sign included; of a float32 the nearest float |
| Uplink.EncodeScalarBytes | include/lorawan/FPort85ModbusUplink.h:63-116 | writes the uplink bytes of a scalar; the status is the code's, a short buffer reported ahead of a wrong kind |
| Uplink.EncodePollSuccess | include/lorawan/FPort85ModbusUplink.h:15-49 | appends one frame per value; on an error reports it, with the frames before the failing value left in the buffer |
| Uplink.EncodePollFailure | include/lorawan/FPort85ModbusUplink.h:51-60 | writes the collection exception of the slot |
| Uplink.EncodePeriodicValue | include/lorawan/FPort85Codec.h:800-841 | writes one value frame: header, slot and sign bits, value bytes; refuses invalid channels, positions and data lengths and short buffers |
| Uplink.FramesLength | include/lorawan/FPort85ModbusUplink.h:15-49 | the frames of a reading take quantity * (4 + width) bytes, at most 24 |
| Uplink.FramesAreReceived | include/lorawan/FPort85ModbusUplink.h:15-49 | a receiver that splits frames by their type field recovers what the fields carry of the value list, whatever follows it |
| Uplink.FieldbusToRadio | include/lorawan/FPort85ModbusUplink.h:15-122 | on any processor, every value list the response decoder accepts is encoded without error in quantity * (4 + width) <= 24 bytes, and a receiver reads back what the fields carry: the same values, for float32 channels if narrowing and widening a widened float leaves it alone |
| ReportPacking.FillHoldsWholeSlots | include/lorawan/FPort85ReportScheduler.h:96-146 | a filled packet is the encodings of a run of whole slots, at most 51 bytes, and stops only before a slot that does not fit |
| ReportPacking.FillNeverTooLarge | include/lorawan/FPort85ReportScheduler.h:124-127 | the inner overflow status is unreachable: one channel always fits into an empty packet |
| ReportPacking.PacketsConcatenate | include/lorawan/FPort85ReportScheduler.h:96-146 | the packets of a report concatenate to the slot-order encoding of its samples |
| ReportPacking.PacketIsLong | include/lorawan/FPort85ReportScheduler.h:124-127 | a packet that is not the last holds at least 28 bytes |
| ReportPacking.GreedyIsOptimal | include/lorawan/FPort85ReportScheduler.h:96-146 | no in-order partition of the samples into payloads of at most 51 bytes has fewer parts |
| ReportScheduler.Scheduler.Begin | include/lorawan/FPort85ReportScheduler.h:24-32 | the new state: interval or its default, first deadline, nothing in progress, no request |
| ReportScheduler.Scheduler.ApplySettings | include/lorawan/FPort85ReportScheduler.h:34-39 | takes a valid interval and restarts the deadline, refuses others unchanged |
| ReportScheduler.Scheduler.RecordPoll | include/lorawan/FPort85ReportScheduler.h:47-61 | replaces the slot's sample; values of a failed poll stay |
| ReportScheduler.Scheduler.ClearSlot | include/lorawan/FPort85ReportScheduler.h:63-67 | removes the slot from the samples and from the running snapshot |
| ReportScheduler.Scheduler.FillPacket | include/lorawan/FPort85ReportScheduler.h:96-132 | the filling loop computes the greedy filling from the cursor |
| ReportScheduler.Scheduler.PreparePacket | include/lorawan/FPort85ReportScheduler.h:69-147 | status, output bytes and new state are those of the specification function, in every branch |
| ReportScheduler.Scheduler.MarkPacketSent | include/lorawan/FPort85ReportScheduler.h:149-159 | moves the cursor past the sent packet and ends the report at the last slot |
| ReportScheduler.Scheduler.MarkPacketFailed | include/lorawan/FPort85ReportScheduler.h:161-164 | keeps the packet and sets its retry time |
| ReportScheduler.Scheduler.AbortReport | include/lorawan/FPort85ReportScheduler.h:166-171 | drops packet and report |
| ReportStream.ReportStreamIsExact | include/lorawan/FPort85ReportScheduler.h:69-164 | over any interleaving of polls, settings, immediate requests and failures, each completed report is its snapshot: whole channels in slot order, each once, 1 to 51 bytes a packet, a minimal number of packets |
| ReportStream.RetryIsIdentical | include/lorawan/FPort85ReportScheduler.h:69-82 | until sent, the pending packet is offered again byte for byte, exactly when its retry time has come |
| ReportStream.WrappingClockRefines | include/lorawan/FPort85ReportScheduler.h:69-164 | as long as compared times are less than 2^31 ms apart, the 32-bit scheduler gives the same status and payload at every call as one on an unbounded clock |
| ReportStream.DeadlineFollowsSchedule | include/lorawan/FPort85ReportScheduler.h:84-94 | one operation keeps the deadline of the periodic schedule exactly when the deadline does not pass while a report is still being sent; a request alone never moves it |
| ReportStream.PunctualRunKeepsSchedule | include/lorawan/FPort85ReportScheduler.h:84-94 | a whole run of such operations keeps the periodic schedule, whatever immediate requests it contains |
| ReportStream.ImmediateReportCanShiftSchedule | include/lorawan/FPort85ReportScheduler.h:84-94 | a concrete run in which an immediate report, unsent at the deadline, shifts the next periodic report by a second |
| ReportStream.FieldbusToReceiver | include/lorawan/FPort85ReportScheduler.h:69-164 | on any processor, with polls the codec accepted, no encoding failure or overflow is ever reported, and the packets of each completed report tell a receiver exactly what the fields carry of the snapshot; where that differs from the snapshot's values |
| HistoryRing.RingKeepsTheLast | include/lorawan/FPort85History.h:103-112 | after any number of pushes the ring shows exactly the last min(n, capacity) records |
| HistoryRing.Ring.Push | include/lorawan/FPort85History.h:103-112 | the observed sequence is the old one with the record appended and, when full, the oldest dropped, at every internal rotation |
| HistoryRing.Ring.Oldest | include/lorawan/FPort85History.h:114-117 | the record at an index counted from the oldest, or none |
| HistoryImage.ImageRoundTrip | include/history/HistoryImageCodec.h:20-76 | the image of a ring decodes to its records and generation exactly when every record is stamped 21 CE, and to nothing otherwise |
| HistoryImage.DamagedImageRejected | include/history/HistoryImageCodec.h:50-76 | changing at most four neighbouring bytes of an accepted image makes it unacceptable |
| HistoryImage.Encode | include/history/HistoryImageCodec.h:20-48 | writes the image of the ring at any rotation; refuses a short buffer |
| HistoryImage.Decode | include/history/HistoryImageCodec.h:50-76 | accepts exactly the images of the specification; the ring is replaced only on success |
| HistoryStore.Store.Load | include/history/PersistentHistoryStore.h:22-44 | ring, generation and result are those of the two slots' contents |
| HistoryStore.Store.Save | include/history/PersistentHistoryStore.h:46-59 | writes the successor generation into its slot only, whatever the write leaves there |
| HistoryStore.ConsistentGenerations | include/history/PersistentHistoryStore.h:79-81 | slot A holds even generations, B odd ones; two readable ones differ by exactly one modulo 2^32 and the signed comparison picks the later |
| HistoryStore.JournalSurvivesPowerLoss | include/history/PersistentHistoryStore.h:22-59 | over every run of saves, torn or interrupted saves and restarts from blank flash: once a save returned true every load succeeds, with the ring last saved or loaded or one attempted since |
| HistoryStore.InterruptedSaveLoads | include/history/PersistentHistoryStore.h:22-59 | the load after a save cut short gives one of those rings or the one being saved |
| HistoryStore.SaveSparesCurrentSlot | include/history/PersistentHistoryStore.h:46-59 | a save never touches the slot of the current generation |
| HistoryStore.LoadFailsExactlyOnTornFirstSave | include/history/PersistentHistoryStore.h:30-34 | load reports failure if and only if slot A was never written and slot B holds something that does not decode |
| HistoryStore.TornFirstSaveIsReachable | include/history/PersistentHistoryStore.h:30-34 | a first save that is torn leads to that state: the next load fails |
| HistoryRecord.RecordReadsBack | include/lorawan/FPort85History.h:15-67 | a record of values that fit their fields reads back as its poll: time, slot, sign, type, outcome, quantity and what the fields carry of the values |
| HistoryRecord.EncodeModbusRecord | include/lorawan/FPort85History.h:15-67 | writes the 25 bytes of the record, or refuses exactly where the specification does or the buffer is short |
| HistoryStorage.SnapshotReadsBack | include/core/Application.h:1414-1438 | the records of a snapshot read back as its poll results, each slot once, in slot order |
| HistoryStorage.SnapshotIsStorable | include/core/Application.h:1414-1446 | a snapshot turns a ring that meets the journal's requirements (within capacity, every record stamped) into one that does |
| HistoryStorage.Recorder.PushSnapshot | include/core/Application.h:1414-1438 | the slot loop pushes exactly the records that encode |
| HistoryStorage.Recorder.ProcessHistoryStorage | include/core/Application.h:1401-1448 | when a snapshot is taken, what the ring and the journal hold afterwards for every outcome of the write; the ring changes only if it was stored |
| HistoryDelivery.DeliveryIsExact | include/core/Application.h:828-916 | within one connected session, under any send and save failures and any new records, the accepted payloads are exactly the snapshot's records since the loss, in order, each once, two to a packet; pending clears only after all |
| HistoryDelivery.GoodTurnMovesOn | include/core/Application.h:828-916 | a turn whose send and save succeed moves on by one packet and clears pending exactly at the end |
| HistoryDelivery.Retransmission.ProcessHistoryNetworkState | include/core/Application.h:792-826 | when a loss is recorded and when a session begins |
| HistoryDelivery.Retransmission.TakeSnapshot | include/core/Application.h:839-849 | copies the ring and places the cursor on the first record not older than the loss |
| HistoryDelivery.Retransmission.ProcessHistoryRetransmission | include/core/Application.h:828-916 | new state, offered payload and result are those of the specification, in every branch |
| HistoryQuery.BetweenIsExact | include/core/Application.h:986-997 | a range query selects each record of the range as often as it is stored and no other |
| HistoryQuery.BetweenKeepsOrder | include/core/Application.h:986-997 | a selection keeps the stored order |
| HistoryQuery.ClosestIsNearest | include/core/Application.h:957-977 | a point query finds nothing exactly when nothing is within tolerance; otherwise a stored timestamp that none is closer than, the earliest stored of equals |
| HistoryQuery.QueryDeliversSelection | include/core/Application.h:935-1064 | for every query, which reply code answers it; after an accepted one that nothing interrupts, the accepted payloads are exactly the records of the range, or those at the nearest timestamp within tolerance, in stored order, so far, and it ends exactly when all were accepted; otherwise nothing is sent |
| HistoryQuery.Service.FindClosest | include/core/Application.h:957-977 | the search loop computes that timestamp |
| HistoryQuery.Service.ApplyHistoryQueryCommand | include/core/Application.h:935-1014 | reply bytes, result and new state for every command, empty selection, bad range and failed reply |
| HistoryQuery.Service.ProcessHistoryQuery | include/core/Application.h:1016-1064 | one turn: offered payload, result and new state |
| Calendar.CalendarRefinesDayByDay | include/time/LocalTime.h:17-34 | for every day number in range the closed form gives the real date reached by stepping day by day from 1970-01-01, and its inverse gives the number back |
| Calendar.CivilOfDays | include/time/LocalTime.h:68-95 | on every real date the two closed forms are inverse to each other |
| Calendar.ClosedFormSteps | include/time/LocalTime.h:17-24 | the closed form numbers consecutive days consecutively, across month ends, leap days and eras |
| LocalTime.WeekdayAdvances | include/time/LocalTime.h:36-41 | the ISO weekday advances by one modulo 7 from each day to the next |
| LocalTime.EpochWasThursday | include/time/LocalTime.h:36-41 | 1970-01-01 is a Thursday |
| LocalTime.NthWeekday | include/time/LocalTime.h:43-59 | for every year and valid transition, weeks 1 to 4 give the k-th such weekday of the month, week 5 the last, and there always is one |
| LocalTime.EpochSplits | include/time/LocalTime.h:68-95 | seconds before and after 1970 split into the day and the time of day they fall in |
| LocalTime.TransitionReadsBack | include/time/LocalTime.h:61-66 | the second of a transition reads back as its date, hour and minute |
| LocalTime.DstChangesAtTransitions | include/time/LocalTime.h:97-114 | within a standard-time year the daylight flag changes exactly at the two transitions, the end taken in daylight wall time: on at the start, off at the end |
| RuleCondition.Runtime.EvaluateChannelCondition | include/rules/RuleExecution.h:306-389 | result and runtime record are those of the evaluation function, in every mode |
| RuleCondition.LockIsLastFire | include/rules/RuleExecution.h:306-389 | over any trace the lock is that of the last fire |
| RuleCondition.FiresAreSpaced | include/rules/RuleExecution.h:306-389 | fires are never closer than the lock time, in every mode and however long the uptime |
| RuleCondition.FiresExactlyWhen | include/rules/RuleExecution.h:347-389 | when a threshold rule fires, as an if-and-only-if over the polls and the fires before |
| RuleCondition.HeldThroughWindow | include/rules/RuleExecution.h:372-388 | a fire while the threshold holds follows a window of at least the hold time in which it held at every usable poll |
| RuleCondition.FalsePollSeparatesFires | include/rules/RuleExecution.h:354-376 | between two such fires there is a usable poll on which the threshold did not hold |
| RuleCondition.EndOfShortStretch | include/rules/RuleExecution.h:354-366 | a mode 0 fire with positive time occurs only on a false poll that ends a stretch shorter than that time |
| RuleCondition.ChangeFiresExactlyWhen | include/rules/RuleExecution.h:313-345 | when a change rule fires, as an if-and-only-if over the polls and the fires before: difference to its baseline, interval and time since the last fire |
| RuleCondition.FreshRecordLock | include/rules/RuleExecution.h:348-353 | a rule that never fired is locked exactly while the wrapped uptime is at least 2^31 ms |
| Downlink.DecodeIsLocal | include/core/Application.h:1552-1722 | an accepted command depends only on the bytes it consumes, 3 to 57 of them, inside the payload |
| Downlink.ParseIsCompositional | include/core/Application.h:1552-1722 | if a payload parses, any payload behind it parses as it would alone, and the command lists join; in both directions |
| Downlink.UniquelyDecodable | include/lorawan/FPort85Codec.h:220-798 | two sequences of command encodings with the same bytes are the same sequence |
| Downlink.WordsParse | include/core/Application.h:1552-1722 | a sequence of command encodings parses to its commands |
| Downlink.ParseHasWords | include/core/Application.h:1552-1722 | every payload that parses is such a sequence |
| Downlink.TextNeverParses | include/rules/RuleExecution.h:67-80 | a text that may trigger rules is never also a command payload |
| Downlink.Handler.ParsePayload | include/core/Application.h:1552-1722 | the parse loop computes the parse of the payload |
| Downlink.Handler.HandleDownlink | include/core/Application.h:1524-1787 | no command is applied unless the whole payload parses; then commands are applied in order up to the first refused one |
| Downlink.ReplyRoundTrip | include/lorawan/FPort85Codec.h:678-727 | the settings in an enquiry reply, sent back, parse to the same settings; serial settings if and only if the board supports them |
| Downlink.AcceptedConditionIsExecutable | include/lorawan/FPort85Codec.h:500-604 | which accepted channel conditions can ever execute: not the reserved mode 5, times of at most a day, finite limits |
| EventRing.EventBus.Emit | include/core/EventBus.h:44-66 | an acceptable event is appended to the log under the next number, overwriting the oldest slot; others change nothing |
| EventRing.EventBus.Read | include/core/EventBus.h:90-101 | gives the event emitted under a number exactly while it is retained |
| EventRing.EventBus.Next | include/core/EventBus.h:103-114 | the next retained event behind a cursor |
| EventRing.Publisher.PublishPendingEvents | include/services/MqttService.h:450-467 | one publishing round: cursor, missed count and published events |
| EventRing.EventsAreConserved | include/services/MqttService.h:450-467 | over any interleaving with any failures: published + missed = cursor <= latest, numbers strictly increase, and each published event is the one emitted under its number |
| EventRing.LossMeansOverrun | include/core/EventBus.h:83-88 | events are missed exactly by as many as the cursor lags beyond the capacity |
| EventRing.KeepingUpLosesNothing | include/services/MqttService.h:450-467 | a consumer within the capacity misses nothing and publishes the next events of the log in order |
| Polling.UpsertKeepsCoherent | include/components/Components.h:223-239 | adding or replacing a channel keeps slots distinct and every valid cache entry a reading of its configured channel |
| Polling.RemoveKeepsCoherent | include/components/Components.h:241-258 | so does removing one |
| Polling.FinishKeepsCoherent | include/components/Components.h:701-759 | so does finishing a poll attempt, and the published poll is genuine |
| Polling.PointsAreWhole | include/components/Components.h:504-541 | a point that reads has its channel's kind, and then all positions of that channel read |
| Polling.WriteIsReadBack | include/components/Components.h:681-699 | after a confirmed write every readable point reads as before, except the written one, which reads as the written value |
| Polling.PollsGoRound | include/components/Components.h:701-759 | whatever fails, published polls go round the channels in order, at most maxRetries + 1 attempts each |
| Polling.NoChannelStarves | include/components/Components.h:701-759 | n * (maxRetries + 1) attempts publish a poll of every one of n channels |
| PollingComponent.ModbusComponent.UpsertChannel | include/components/Components.h:223-239 | the edit, the cleared cache entry, and nothing left queued or in flight, pass-through requests included; an invalid channel changes nothing |
| PollingComponent.ModbusComponent.RemoveChannel | include/components/Components.h:241-258 | the edit, with cache entry, poll result and turn adjusted |
| PollingComponent.ModbusComponent.SetChannelName | include/components/Components.h:260-263 | changes the name only; transactions in flight and queued writes still fit their channel |
| PollingComponent.ModbusComponent.ApplyRs485SerialSettings | include/components/Components.h:152-166 | takes settings the board supports, restarts the bus while it is polled and forgets everything queued or in flight; others change nothing |
| PollingComponent.ModbusComponent.ApplyModbusMasterSettings | include/components/Components.h:172-188 | takes valid settings, restarts the bus with their timeout and forgets everything queued or in flight; others change nothing |
| PollingComponent.ModbusComponent.ReadPoint | include/components/Components.h:504-541 | reads the cache of a configured channel, only while serving |
| PollingComponent.ModbusComponent.WritePoint | include/components/Components.h:543-578 | queues a write exactly when serving, none is queued or in flight, and its request builds for the configured channel |
| PollingComponent.ModbusComponent.FinishPollAttempt | include/components/Components.h:701-733 | cache, retry count, published poll and turn after an attempt |
| PollingComponent.ModbusComponent.LoopRead | include/components/Components.h:333-354 | a read in flight belongs to the channel whose turn it is; its decoded outcome, and nothing else, ends the attempt |
| PollingComponent.ModbusComponent.LoopWrite | include/components/Components.h:315-331 | a confirmed write goes into the cache and is counted once; a write forgotten meanwhile is not |
| PollingComponent.ModbusComponent.LoopRaw | include/components/Components.h:295-314 | a finished pass-through request is reported with its origin and bytes |
| PollingComponent.ModbusComponent.StartPoll | include/components/Components.h:421-431 | polls the channel whose turn it is exactly when it is due, the bus is open, the request builds and the driver takes it; a due poll that does not start counts as a failed attempt |
| PollingComponent.ModbusComponent.Loop | include/components/Components.h:291-432 | the whole effect of one step: the transaction in flight is polled, else an unsolicited frame taken, else the queued pass-through request sent, else (unless the bus is passed through both ways) the queued write, else the due poll; what is not named stays |
| RuleCondition.DecodedPlanIsValid | include/rules/RuleExecution.h:222-261 | an executable plan has a channel from 1 to 32, a continue mode of 0 or 1 and times of at most a day |
| EventRing.EventBus.OldestSequence | include/core/EventBus.h:78-81 | the number of the oldest retained event |
| EventRing.EventBus.MissedSince | include/core/EventBus.h:83-88 | how many events behind a cursor are no longer retained |
| Polling.RenameKeepsCoherent | include/components/Components.h:260-263 | a new name keeps every cache entry and the slots' distinctness |
| Polling.WriteThroughKeepsCoherent | include/components/Components.h:681-699 | a confirmed write keeps every valid cache entry a reading of its channel |
| PollingComponent.ModbusComponent.Begin | include/components/Components.h:197-221 | when the component becomes active, with the bus opened at the configured rate and the first poll due at once |
| PollingComponent.ModbusComponent.ClearPendingWrite | include/components/Components.h:637-647 | nothing is queued, in flight or waiting afterwards |
| PollingComponent.ModbusComponent.QueueRaw | include/components/Components.h:620-635 | takes a request exactly when the bus is served, its length is 1 to 242 and none is queued or in flight |
| PollingComponent.ModbusComponent.QueueRawRequest | include/components/Components.h:434-437 | and only with pass-through enabled |
| PollingComponent.ModbusComponent.TakeCompletedPoll | include/components/Components.h:457-462 | hands over the waiting poll once; a successful one is a reading of the channel it names |
| PollingComponent.ModbusComponent.ApplySuccessfulWriteToCache | include/components/Components.h:681-699 | the cache after a confirmed write |
| PollingComponent.ModbusComponent.StartQueuedRaw | include/components/Components.h:385-399 | sends the queued request exactly when the bus is open, its length is 1 to 242 and the driver takes it; otherwise reports its failure with its origin |
| PollingComponent.ModbusComponent.StartQueuedWrite | include/components/Components.h:405-419 | sends the frame of the queued write exactly when the bus is open, it builds and the driver takes it; otherwise counts a failed write |
| RtuMaster.Master.Begin | include/modbus/ModbusRtuMaster.h:76-92 | starts unless the baud rate or the response timeout is zero |
| RtuMaster.Master.Reconfigure | include/modbus/ModbusRtuMaster.h:135-138 | cancels what runs and starts again with the new baud rate and timeout |
| RtuMaster.Master.FinishWriteDecode | include/modbus/ModbusRtuMaster.h:399-424 | ends a write transaction with the write decoder's verdict and counts it once |
| RtuMaster.Master.FinishFailure | include/modbus/ModbusRtuMaster.h:452-458 | ends the transaction as a failure with that status |
| ReportScheduler.Scheduler.RequestImmediateReport | include/lorawan/FPort85ReportScheduler.h:43-45 | remembers the request and changes nothing else |
| ReportScheduler.Scheduler.EncodeSample | include/lorawan/FPort85ReportScheduler.h:105-121 | the encoding of a slot's sample, success or failure |
| Uplink.WriteLittleEndian | include/lorawan/FPort85ModbusUplink.h:118-122 | the low bytes of a value, least significant first |
| HistoryRing.Ring.Clear | include/lorawan/FPort85History.h:94-97 | shows nothing afterwards |
| HistoryStore.Store.LoadSlot | include/history/PersistentHistoryStore.h:69-77 | reads a slot exactly when its content decodes |
| HistoryQuery.Service.Select | include/core/Application.h:979-997 | the copy loop collects the records of a range in order |
| HistoryDelivery.Retransmission.FillPayload | include/core/Application.h:864-878 | the packing loop takes the next two records, or the last one |
| HistoryImage.PutRecords | include/history/HistoryImageCodec.h:36-42 | lays the records out oldest first behind the header |
| HistoryImage.DecodeRecords | include/history/HistoryImageCodec.h:63-71 | pushes the stored records into a fresh ring, up to the first without its stamp |
| RtuMaster.WaitsForAnnouncedLength | include/modbus/ModbusRtuMaster.h:247-289 | every poll before the announced length has arrived stays pending |
| Uplink.ResponseIsFromWire | include/modbus/ModbusRtuCodec.h:245-296 | every value of an accepted response fits its channel's uplink field, and a float32 is a widened float |
| ReportStream.OnScheduleIsPunctual | include/lorawan/FPort85ReportScheduler.h:84-94 | a run is on the periodic schedule after each of its operations if and only if no deadline passes while a report is still being sent |
| ReportStream.RequestsKeepScheduleExactlyWhenPunctual | include/lorawan/FPort85ReportScheduler.h:84-94 | compared with the same run without its immediate requests, where that is punctual, the deadlines agree at every point if and only if no deadline passes while a report is still being sent |
| HistoryStore.LoadedIsStorable | include/history/PersistentHistoryStore.h:22-44 | whatever the slots hold, a loaded ring meets the journal's requirements for saving |
| HistoryStorage.TakeIsStorageStep | include/core/Application.h:1401-1448 | a snapshot in a run of the firmware leaves flash, generation and ring as ProcessHistoryStorage does |
| HistoryStorage.FirmwareRunsAreLegal | include/core/Application.h:1401-1448 | every run of starts, snapshots and power losses saves only rings the journal accepts, and is a legal run of the journal |
| HistoryStorage.FirmwareHistorySurvives | include/core/Application.h:1401-1448 | so over every such run from blank flash, once a snapshot was stored every load gives the ring last stored or loaded, or one attempted since |
| LocalTime.DstAtNewYear | include/time/LocalTime.h:97-114 | the flag on both sides of New Year: on before it exactly when the old year's end does not come after its start, on after it exactly when the new year starts it at that second or runs it over New Year to an end still to come |
| LocalTime.DstChangesAtNewYear | include/time/LocalTime.h:97-114 | the exact condition under which the flag changes at New Year although no transition lies there |
| LocalTime.DstCanChangeAtNewYear | include/time/LocalTime.h:97-114 | accepted settings for which it does: daylight time ends at midnight of New Year 2025, half an hour after its rule |
| RuleCondition.LockedMeans | include/rules/RuleExecution.h:348-353 | the wrapped lock holds exactly while less than the lock time has passed since the last fire, and before the first fire in the upper half of the wrapped uptime |
| EventRing.EventsAreConservedFromStart | include/services/MqttService.h:450-467 | conservation holds over every run from the empty ring and the cursor 0 |
| PollingComponent.ModbusComponent.SetRtuSerialConfig | include/components/Components.h:148-150 | takes the configuration the next begin opens the bus with |
| PollingComponent.ModbusComponent.SetMode | include/components/Components.h:143-146 | the component is inactive until it begins in the new mode |
| ReportStart.ReportStartsExactlyWhen | include/lorawan/FPort85ReportScheduler.h:69-94 | over any run, a call starts a report if and only if none is under way (some start since which neither restart, abort, last confirmation nor empty rest came), the buffer has room, and the deadline is due or a request came since the last start or restart; requests and reports under way are read off the operations, not off the fields |
| ReportStart.HistoryTells | include/lorawan/FPort85ReportScheduler.h:84-94 | the scheduler remembers a request exactly while no start or restart has used it up, and a report exactly from its start to its end |
| ReportStart.ReportsAreAskedFor | include/lorawan/FPort85ReportScheduler.h:84-94 | reports started never exceed requests plus due deadlines |
| ReportStart.ReportRateIsBounded | include/lorawan/FPort85ReportScheduler.h:84-94 | while the settings stay, n reports beyond the requests need n - 1 intervals after the first deadline |
| ReportStart.StartsAreCompleted | include/lorawan/FPort85ReportScheduler.h:84-159 | without restarts, aborts and cleared slots every report started is one completed report, or the one under way |
| ReportStart.RetryWaits | include/lorawan/FPort85ReportScheduler.h:76-82 | after a failed transmission the same bytes are offered again from 5000 ms later on, and not before |
| ReportStart.SamplesAreLatestPolls | include/lorawan/FPort85ReportScheduler.h:47-67 | over any run the sample of a slot is the last poll recorded for it, values in their positions, or absent once cleared |
| ReportStart.ReportIsFrozen | include/lorawan/FPort85ReportScheduler.h:47-67 | from one start to the next no poll changes the running report; a cleared slot leaves it |
| ReportStart.RestartIsIdle | include/lorawan/FPort85ReportScheduler.h:24-32 | a restart drops report, packet and request, and the first report is due one valid interval, or 1200 s, later |
| WireTypes.CodecFollowsNames | include/modbus/ModbusChannel.h:13-75 | function code, width, register count, kind, writability and uplink type of every wire type are what the enumerator's name says |
| WireTypes.OrderedFollowsName | include/modbus/ModbusRtuCodec.h:454-502 | the byte at each place of the wire goes where its letter in the enumerator's name says, in both directions |
| WireTypes.RegisterValueFollowsName | include/modbus/ModbusRtuCodec.h:367-443 | a register value is the number its letters spell, most significant byte first, as its format and the channel's signedness say; the upper and lower halves are the first and second register |
| RtuExchange.ReadsAreBuiltExactlyWhen | include/modbus/ModbusRtuCodec.h:94-121 | a read request is built exactly for a valid channel whose registers lie in the bank, with room for 8 bytes, and names that bank and span |
| RtuExchange.WritesAreBuiltExactlyWhen | include/modbus/ModbusRtuCodec.h:123-199 | a write request is built exactly for a position of a writable channel inside its bank and a value that fits |
| RtuExchange.ValueFitsExactlyWhenReadable | include/modbus/ModbusRtuCodec.h:305-365 | an integer fits a register type if and only if some register content reads as it; a float always does |
| RtuExchange.WriteVerdictExactlyWhen | include/modbus/ModbusRtuCodec.h:201-243 | of all byte strings exactly one is accepted as the answer to a write, the checksummed echo of its first six bytes; exactly the checksummed refusals are exceptions, each with its code |
| RtuExchange.ExceptionReplyIsReported | include/modbus/ModbusRtuCodec.h:220-226 | a conforming server's exception reply to a write is reported as exception with its code |
| RtuExchange.DamagedWriteAnswerRejected | include/modbus/ModbusRtuCodec.h:209-216 | changing at most two neighbouring bytes of any checksummed answer to a write gives a CRC mismatch |
| RtuExchange.AcceptedWriteWasExecuted | include/modbus/ModbusRtuCodec.h:201-243 | an accepted verdict means that a server with the channel's address executed a write of that kind at that place, whatever frame reached it; the request itself if it is a single write or at most two neighbouring bytes were damaged |
| RtuExchange.ReadVerdictExactlyWhen | include/modbus/ModbusRtuCodec.h:245-296 | exactly the checksummed frames of the channel's server, function and data length are accepted as answers to a read; exactly the exception frames are exceptions |
| RtuExchange.RefusedReadIsReported | include/modbus/ModbusRtuCodec.h:263-270 | a conforming server's exception reply to a read is reported with its code |
| RtuExchange.TimeoutAcceptsNothing | include/modbus/ModbusRtuMaster.h:247-322 | an incomplete response at the timeout ends as a fault, never as values, an exception or an acknowledgement |
| RtuExchange.WriteSplitDoesNotMatter | include/modbus/ModbusRtuMaster.h:291-322 | however the answer to a write is split over polls, there is no verdict before its last byte, and then it is that of the whole answer |
| RtuExchange.WriteAnswerIsBooked | include/modbus/ModbusRtuMaster.h:291-322 | a write answered in any pieces ends as Ok if the server executed it and as the server's exception if it refused it |
| RtuExchange.RawAnswerIsWhole | include/modbus/ModbusRtuMaster.h:324-370 | a pass-through answer is delivered whole and in order, whatever its pieces, unless it exceeds the receive buffer or the caller's room |
| PollDelivery.GoodPollIsReadBack | include/components/Components.h:701-759 | after a good poll position k reads as the k-th polled value, the published poll carries the same values and time, and every other point reads as before |
| PollDelivery.BadPollSpoilsItsChannelOnly | include/components/Components.h:701-759 | a failure that may be retried changes no point; the last one makes its channel unreadable, leaves all others alone and publishes the reason |
| PollDelivery.UpsertForgetsItsSlot | include/components/Components.h:223-239 | a channel configured anew reads as nothing until it is polled; all other points stay |
| PollDelivery.RemoveForgetsItsSlot | include/components/Components.h:241-258 | a removed channel reads as nothing and its uncollected poll is dropped; all other points stay |
| PollDelivery.RenameKeepsPoints | include/components/Components.h:260-263 | a new name changes no point |
| PollDelivery.TurnAfterRemoval | include/components/Components.h:241-258 | whose turn it is after a removal; one earlier in the list costs the channel at turn its turn |
| PollDelivery.UpsertKeepsTurn | include/components/Components.h:223-239 | adding or replacing a channel passes no turn on |
| PollDelivery.PollReachesPoints | include/components/Components.h:333-354 | from registers to points: a server's answer to a poll, in any pieces, makes every point of the channel read as the server's value in the bank, width and byte order its type names, and changes no other |
| PollDelivery.WriteKeepsTracking | include/components/Components.h:681-699 | after a confirmed write the points still agree with the server if and only if the value survives storing, which only a float32 register may not grant |
| DownlinkLayout.ParsesExactlyEncodings | include/lorawan/FPort85Codec.h:220-798 | a payload parses to a sequence of commands if and only if every command is one the firmware takes, with its ranges, and the payload is their byte layouts one after the other |
| DownlinkLayout.EncodedDecodes | include/lorawan/FPort85Codec.h:220-798 | the layout of every acceptable command, written from its fields, decodes to it and is consumed whole |
| DownlinkLayout.DecodedIsEncoded | include/lorawan/FPort85Codec.h:220-798 | whatever decodes as one command is acceptable and is that command's layout, byte for byte |
| DownlinkLayout.RuleDecodes | include/lorawan/FPort85Codec.h:500-604 | the frame of every kind of condition and action, written from its fields, decodes to that rule, slot and frame |
| DownlinkLayout.RuleIsEncoded | include/lorawan/FPort85Codec.h:500-604 | every accepted rule frame is the layout of some condition or action within its bounds |
| DownlinkLayout.ReplyIsLayout | include/lorawan/FPort85Codec.h:678-727 | a settings reply is its four-byte header and the layout of the settings command |
| HistoryQuery.BetweenPicks | include/core/Application.h:986-997 | the records of a range are those at exactly the positions with timestamps in it, in stored order |
| HistoryQuery.SelectionIsChosen | include/core/Application.h:957-997 | a range query chooses exactly the records of its range, a point query all records at the nearest timestamp within tolerance, or nothing if there is none |
| HistoryQuery.TurnsAreSpaced | include/core/Application.h:1016-1064 | after a payload was handed to the radio, the next one follows at the first turn with a link at or after the interval's end, and at none before |
| HistoryLoss.PendingTellsLastLoss | include/core/Application.h:792-826 | over any run, what is pending is the last recorded loss of the network with the time it was noticed, or what was pending before, and it stays until a step that may clear it |
| HistoryLoss.ReturnDeliversSinceLoss | include/core/Application.h:792-916 | when the network comes back after a recorded loss, the accepted payloads are the records not older than the time of that loss |
| HistoryLoss.OffersAreSpaced | include/core/Application.h:828-916 | after a payload was handed to the radio, the next one follows at the first turn with a link at or after the interval's end, and at none before |
| RuleCondition.ThresholdFollowsFrame | include/rules/RuleExecution.h:222-304 | what each mode number of a stored frame waits for, in terms of its limits: false, true, below, above, within, or a change |
| RuleCondition.PlanFollowsFrame | include/rules/RuleExecution.h:222-261 | channel, continue mode, hold time, lock time and change interval are the fields of the frame |
| RuleCondition.ThresholdsPartition | include/rules/RuleExecution.h:284-304 | a usable reading is below, within or above limits in order, exactly one of them; a truth value is true or false, a number neither |
| RuleCondition.ChangeIsEitherWay | include/rules/RuleExecution.h:313-345 | a change is measured in either direction |
| EventRing.RoundIsExact | include/services/MqttService.h:450-467 | one round publishes the retained events behind the cursor in order up to the first that fails; that one stays for the next round, and only overwritten events are counted as missed |
| EventRing.OnlyOverwrittenEventsAreLost | include/services/MqttService.h:450-467 | over any interleaving with any failures, every event behind the cursor was published or has been overwritten |
| LocalTime.DstFollowsLatestTransition | include/time/LocalTime.h:97-114 | at any second: off when disabled or invalid; otherwise the year's latest transition decides, and before the first one the order of the two |
| ReportStart.FreshPacketIsReady | include/lorawan/FPort85ReportScheduler.h:76-82 | a packet just filled is offered again at once, until it is sent or a transmission fails |
| WireTypes.KindsFollowNames | include/modbus/ModbusChannel.h:98-160 | the kind of a channel's values and the sign bit of its uplink frames are what the name and the signedness say; a float is signed |
| RtuExchange.RefusalsAreNamed | include/modbus/ModbusRtuCodec.h:94-199 | the status of a refused request: a short buffer only if nothing else is wrong, and never for a coil |
| RtuExchange.FirstFaultIsNamed | include/modbus/ModbusRtuCodec.h:245-296 | an answer to a read that is refused is refused for the first thing wrong with it: length, checksum, server, function, announced length |
| RtuExchange.FirstWriteFaultIsNamed | include/modbus/ModbusRtuCodec.h:201-243 | the same for an answer to a write |
| RtuExchange.LongAnswerIsRefused | include/modbus/ModbusRtuMaster.h:258-275 | an answer that announces more than 237 data bytes, and no other, is refused as soon as it says so, in any pieces |
| Uplink.PollEncodesExactlyWhen | include/lorawan/FPort85ModbusUplink.h:15-60 | a poll result encodes exactly with a valid channel, its number of values of its kind, and room for quantity * (4 + width) bytes; a failure with room for three |
| HistoryRecord.RecordsExactlyWhen | include/lorawan/FPort85History.h:15-67 | there is a record exactly for a valid channel with the count its outcome calls for and values of its kind |
| HistoryQuery.OffersAreCounted | include/core/Application.h:1016-1064 | every payload handed to the radio is counted once, as sent or as failed |
| HistoryLoss.OffersAreCounted | include/core/Application.h:828-916 | the same for retransmission, over any run |
| EventRing.AcceptableMeans | include/core/EventBus.h:44-66 | source and kind have 1 to 31 characters, the detail at most 127 |
| Downlink.AllowedMeans | include/rules/RuleExecution.h:67-72 | a text may hold letters, digits, comma, period, space and exclamation mark |

## Left out

- Null pointer arguments: the model has none.
- UART timing, direction control, guard delays and the collector of unsolicited frames: its answer
  is a parameter of the polling loop.
- Reading the clock several times within one loop step: the model reads it once.
- Rounding of floating-point numbers: rule thresholds compare reals, the codec moves bit patterns.
- Preferences calls other than the history slots, and reads of those that fail: reads return what
  was stored, and only a write may fail or tear.
- Atomicity of the two-key retransmission state store: its save is a yes or no.
- A downlink dispatched from within a send, which re-enters the application: history results are for
  sends whose downlink carries no history command.
- HistoryDelivery.DeliveryIsExact: does not cover a second loss of the network, because the code then
  overwrites the time of loss and starts over with a new snapshot.
- HistoryQuery.QueryDeliversSelection: covers turns that no further query or stop command interrupts,
  because those replace the selection.
- Downlink.Handler.HandleDownlink: does not model what each command does once applied, because those
  belong to the components; whether the k-th is accepted is a parameter.
- EventRing.EventsAreConserved: event numbers are unbounded, where the code has 64 bits, and `clear`
  is not an action.
- LocalTime.DstChangesAtTransitions: stays within one year; DstAtNewYear covers the step between two.
- The local-time conversion on top of the daylight flag: it only adds the offsets.
- ReportStream.FieldbusToReceiver: leaves out restarts, aborts and cleared slots, which drop a report
  on purpose.
- ReportStream.ReportStreamIsExact: leaves out restarts, aborts and cleared slots in the same way.
- ReportStream.RequestsKeepScheduleExactlyWhenPunctual: compares with a request-free run that is
  punctual, because otherwise that run does not keep the schedule either.
- Calendar.CalendarRefinesDayByDay: covers day numbers whose 32-bit intermediate values stay in range,
  because beyond them the code's signed arithmetic is undefined.
- RuleCondition.FiresExactlyWhen: covers traces of non-decreasing times that span less than 2^31 ms,
  as do the results on windows and stretches, because the code compares wrapped times by their signed difference.
- ReportStream.WrappingClockRefines: covers comparisons of times less than 2^31 ms apart, for the same
  reason.
- Server messages, time conditions and the actions of rules: matching of stored frames without state.
- Point identifiers of the polling component: slot and register index stand for the parsed text.
- Wi-Fi, web pages, sessions, backup, LoRaWAN session storage, GNSS and Victron, the command bus and
  the registries: I/O, library calls or easy members.
