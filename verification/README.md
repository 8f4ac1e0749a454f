# EtherDOG: a verified model

EtherDOG is an EtherCAT master service. Per master it runs a bus thread, a
monitor thread and a control thread over shared atomics, exchanges process data
with a client in sequence-numbered datagrams, checks modular station
configurations, publishes where each PDO entry sits in the image, tunes the
network interface, keeps a log ring, and speaks line-framed JSON. This project
models those parts in Dafny and proves what they keep over every input and every
run. The SOEM library, sockets, clocks and ethtool are parameters of the model: a
working counter, an AL reply or a miss, slave states, a queue of datagrams, the
bytes of one receive.

Code that changes fields, arrays or files in place is a class or a method proved
against a specification function; the theorems are about those functions or about
all runs of them. The thread protocol and the crash protocol are state machines
whose steps are single atomic accesses or single system calls, with a thread's
locals or a call's progress in the state.

`dafny verify dfyconfig.toml` checks everything.

| file | subject |
|---|---|
| `Basics.dfy` | byte and word types, optional values |
| `Bits.dfy` | bits, masks and shifts of unbounded integers |
| `AlPoll.dfy` | the one-frame AL status poll |
| `BusProtocol.dfy` | bus, monitor and control thread as interleaved atomic steps |
| `Frame.dfy` | the frame header and the wrapping sequence number |
| `DataSession.dfy` | the output session: drain, safe state, watchdog |
| `SafeState.dfy` | whole runs of a data session |
| `Station.dfy` | modular station validation |
| `Ewma.dfy` | averages kept as a sum |
| `BitAccess.dfy` | the client's bit reads and writes |
| `Layout.dfy` | the published layout |
| `EndToEnd.dfy` | from a client's `set` to the output region |
| `LineFraming.dfy` | control lines out of a byte stream |
| `LogRing.dfy` | the log ring and paging |
| `JsonText.dfy`, `Json.dfy`, `JsonBuffers.dfy` | JSON strings, values, and the loops and buffers that print and parse them |
| `JsonDoc.dfy`, `JsonAccepts.dfy` | documents of RFC 8259: all are read as what they mean, and nothing else is accepted |
| `StateFile.dfy`, `NicRecovery.dfy` | the interface state file, and crash recovery of interface settings |

## Where a promise does not hold everywhere

- The one-frame AL poll relies on valid AL states. For arbitrary status words it disagrees
  with reading every slave exactly when all slaves answered with OP or with all state and
  error bits clear, and there is one of each (`AlPoll.PollWrongExactly`,
  `AlPoll.InvalidStateHides`); with valid states it never does.
- `validate_station` accepts exactly when the pointwise least assignment meets every
  minimum. With overlapping definitions, or with an empty slot, it refuses stations
  that have a valid assignment (`Station.OverlapIsRefused`, `Station.EmptySlotIsRefused`);
  `Station.CompleteWhenUnambiguous` gives the condition under which it refuses none.
- `ecat_bus_start` accepts ERROR without joining the threads of the last start, and may find
  both alive (`BusProtocol.RestartFromErrorFindsThreads`). Between commands no thread is left,
  and a start keeps single ownership of the state, exactly when `bus_running` and
  `monitor_running` are both clear (`BusProtocol.StartIsCleanExactly`); the runs of the thread
  protocol take a start under that condition only.
- Paging delivers every matching entry exactly when no page comes too late for a matching
  entry that has left the ring, and no page comes back empty with a matching entry logged
  before the next id is read (`LogRing.NothingMissed`, `LogRing.SlipLosesAnEntry`).
- The original interface settings are lost exactly when the process dies after tuning
  has changed something and before the state file is renamed into place
  (`NicRecovery.KeptExactly`, `NicRecovery.CrashInWindowLoses`).
- Printing then parsing JSON is refused exactly for values nested deeper than 1000
  (`JsonDoc.PrintThenParse`).
- The JSON parser reads `\u` followed by four bytes that are not all hexadecimal digits as NUL
  (`JsonAccepts.LenientLiteral`); of texts without that, exactly the documents of RFC 8259 are
  accepted, up to the nesting limit and numbers aside (`JsonDoc.DocumentParses`,
  `JsonAccepts.AcceptedIsDocument`).
- `src/iface_state.h` lists a migration of an older file format as the first step of
  apply; the code has no such step, and neither has the model.

## Model

| member | source | states |
|---|---|---|
| `AlPoll.HealthyMask` | src/master.h:224-228 | the mask test is the reading "working counter full, low bits OP, error bit clear" |
| `AlPoll.CounterFull` | src/master.h:224-228 | the working counter is full exactly when every slave answered |
| `AlPoll.OredBits` | src/bus.c:809-810 | a bit of the returned status is set exactly when some answering slave has it set |
| `AlPoll.HealthyExactly` | src/master.h:224-228 | for any number of slaves and arbitrary status words, healthy means that every slave answered with OP or nothing in its state and error bits, and some slave with OP |
| `AlPoll.PollWrongExactly` | src/bus.c:809-816 | the poll and reading every slave disagree if and only if, besides, some slave has all those bits clear |
| `AlPoll.PollAgreesWithReadingAll` | src/bus.c:809-816 | for any number of slaves with valid AL states, one OR-ed word with the counter is healthy if and only if every slave answered and is in OP without error, which is what justifies marking all slaves operational unread |
| `AlPoll.InvalidStateHides` | src/master.h:224-228 | an invalid AL state can hide behind a healthy slave |
| `BusProtocol.ProtocolAlways` | src/bus.c:334-387 | ownership, trigger and recovery invariants hold together after every interleaving of the three threads' atomic steps |
| `BusProtocol.NoStoreIsLost` | src/bus.c:422-452 | every store of `bus_state` in every run finds the value its thread read; the bus thread only moves OPERATIONAL to RECOVERING, after three short cycles or three faulty replies in a row; the monitor only moves RECOVERING to OPERATIONAL in a pass where every slave read OP, or to ERROR after five passes |
| `BusProtocol.OwnerSeesItsState` | src/bus.c:836-925 | while a bus cycle that read OPERATIONAL is under way the state is OPERATIONAL, and likewise a monitor pass and RECOVERING, although both read early and write late |
| `BusProtocol.ThreadsLeaveErrorAlone` | src/bus.c:422-452 | neither thread ever leaves ERROR or any other state in which no frames are exchanged |
| `BusProtocol.TriggerIsPrompt` | src/bus.c:908-925 | no stay in OPERATIONAL goes past its third consecutive short cycle or third consecutive faulty reply, misses skipped: at the third the bus thread is committed to RECOVERING |
| `BusProtocol.RepliesAreJudged` | src/bus.c:801-819 | in every run, each counted reply is the one the latest exchange received and counts as faulty exactly when `ecat_al_poll_healthy` refuses it for the number of slaves on the bus; each finished cycle is tallied with what that exchange brought back |
| `BusProtocol.FaultMeansNotAllInOp` | src/bus.c:809-816 | for replies made of slaves' answers with valid states, the recorded fault means exactly that not every slave answered in OP without error |
| `BusProtocol.RecoveryIsBounded` | src/bus.c:437-451 | OPERATIONAL implies zero attempts; at pass boundaries RECOVERING implies as many attempts as passes, fewer than five, and none that read every slave as OP; no stay in RECOVERING takes more than five passes |
| `BusProtocol.WatchedAlways` | src/bus.c:801-819 | the relation between counted faults, counted replies and the monitor's readings after every interleaving |
| `BusProtocol.CoveringPass` | src/bus.c:425-434 | every fault counted between the initial reading and a pass was picked up by a pass that read all slaves |
| `BusProtocol.NoHiddenFault` | src/bus.c:414-434 | every faulty reply after the initial fault reading forces a full state read no later than the first OPERATIONAL pass that counts the reply |
| `BusProtocol.CleanStart` | src/bus.c:1226-1237 | in every run, IDLE and STOPPED, the states other than ERROR that start accepts, have no thread left |
| `BusProtocol.StartIsCleanExactly` | src/bus.c:1226-1237 | between commands, in every run, no thread is left if and only if both running flags are clear, and the first store of a start keeps the ownership invariant if and only if they are |
| `BusProtocol.StartTakenExactly` | src/bus.c:1226-1237 | between commands the model takes a start from IDLE, STOPPED and ERROR with both flags clear, and only then |
| `BusProtocol.StopLeavesNothing` | src/bus.c:707-798 | when a stop ends, in every run, no thread is left, flags and counts are clear and the state is STOPPED |
| `BusProtocol.RestartFromErrorFindsThreads` | src/bus.c:1232-1237 | a run exists that reaches ERROR, accepted by start, with both threads alive |
| `Frame.PutLe` | include/etherdog_protocol.h:58-74 | writes the little-endian digits of a value and nothing else |
| `Frame.GetLe` | include/etherdog_protocol.h:76-95 | reads the value of little-endian digits |
| `Frame.LeThenFrom` | include/etherdog_protocol.h:58-95 | reading what was written gives the value modulo the width, for every value |
| `Frame.FromThenLe` | include/etherdog_protocol.h:58-95 | writing what was read gives the same bytes |
| `Frame.EncodeHeader` | include/etherdog_protocol.h:97-112 | fills the 24 header bytes and leaves the rest of the buffer |
| `Frame.DecodeHeader` | include/etherdog_protocol.h:118-138 | the header of a received prefix or its refusal |
| `Frame.ParseEncoded` | include/etherdog_protocol.h:97-138 | an encoded header before any payload decodes to itself exactly when version, payload limit and true length are right, and is refused otherwise |
| `Frame.EncodeParsed` | include/etherdog_protocol.h:118-138 | whatever decodes is the encoding of what it decodes to, with the declared length |
| `Frame.HeaderLayout` | include/etherdog_protocol.h:97-112 | the position of every field, byte by byte |
| `Frame.ParsedBytes` | include/etherdog_protocol.h:118-138 | which datagrams have a header and what it says, by the bytes of the datagram |
| `Frame.NewerIsSerialOrder` | include/etherdog_protocol.h:140-144 | the signed-difference test is the order of section 3.2 of RFC 1982 with 32 bits |
| `Frame.NewerExactly` | include/etherdog_protocol.h:140-144 | for unbounded indices, newer means a distance between 0 and 2^31 modulo 2^32 |
| `Frame.NewerIsSentLater` | include/etherdog_protocol.h:140-144 | within 2^31 - 1 of each other, newer is exactly a larger true index |
| `Frame.HalfwayIsNotNewer` | include/etherdog_protocol.h:140-144 | the window cannot be widened: half way round is not newer |
| `DataSession.TimeoutCycles` | src/data.c:162-167 | as many whole cycles as fit into 100 ms at the configured cycle time, but at least 3 |
| `DataSession.CutChangesNothing` | src/data.c:45-47 | cutting an oversized datagram to the buffer size never turns a refused one into an accepted one, or the reverse |
| `DataSession.FrameParses` | tools/etherdog_client.py:179-184 | an output frame with any flags decodes to its own fields and payload and is addressed to its session |
| `DataSession.AddressedBytes` | src/data.c:201-203 | an output frame of the session, by its bytes: magic, version, kind, master, session, length and sender |
| `DataSession.AcceptedExactly` | src/data.c:200-214 | exactly which datagrams are accepted, and all that an arrival changes, by the bytes of the datagram |
| `DataSession.Session.constructor` | src/data.c:20-70 | buffers of the needed sizes, a closed session and a zero region |
| `DataSession.Session.CloseSession` | src/data.c:106-114 | not open, no session, nothing seen; everything else kept |
| `DataSession.Session.OpenSession` | src/data.c:124-160 | closes first, so a failed open leaves a closed session; otherwise a fresh session that has seen nothing |
| `DataSession.Session.Judge` | src/data.c:195-207 | what the receive buffer shows decides exactly as the whole datagram would |
| `DataSession.Session.Drain` | src/data.c:189-215 | the loop over a whole queue, against applying each datagram on arrival |
| `DataSession.Session.ApplyOutputs` | src/data.c:169-233 | one call leaves region, last sequence, flags and counters as if every datagram had been judged and applied on arrival; nothing changes when the lock is taken |
| `SafeState.ArriveAllFacts` | src/data.c:194-215 | every datagram of every queue is counted exactly once |
| `SafeState.SafeAlways` | src/data.c:148-230 | over all runs of opens, closes, cycles and missed locks: zeroed means an all-zero region; an open session is zeroed once more than the timeout in lock-holding cycles has passed, whatever the 32-bit counter wrapped to; the watchdog trips never earlier and at most once per quiet period |
| `SafeState.ClosedGoesSafe` | src/data.c:106-114 | after a close or a failed open, until the next open that succeeds: not open, no datagram counted or applied, no watchdog trip; the outputs stay until the first lock-holding cycle and are zero from then on |
| `SafeState.DrainOrigin` | src/data.c:194-225 | after a drain the region is as before, zero, or the payload of a valid frame of that queue accepted on arrival |
| `SafeState.RegionOrigin` | src/data.c:177-230 | over all runs the region is zero or the payload of an accepted valid frame of that run |
| `SafeState.SentIsTaken` | src/data.c:201-214 | one arriving datagram, whatever the region holds, is accepted exactly when it is a frame of the client with a larger true index than the last accepted one |
| `SafeState.DrainInStep` | src/data.c:194-215 | the same over a whole queue that mixes the client's frames, VALID or not, with any other datagrams |
| `SafeState.TakenRises` | src/data.c:201-209 | the accepted indices rise strictly, so each is applied at most once |
| `SafeState.SendOrder` | src/data.c:169-233 | over a whole session after any earlier run, through any number of cycles, quiet spells, missed locks and refused opens, with any datagrams of other sessions, masters, senders or formats in the queues: under loss, repetition and reordering within the window, it accepts exactly what unbounded numbers would, across any number of wraps, and nothing else; region, zero flag and watchdog trips are determined exactly |
| `Station.SlotAccepts` | src/config.c:1275-1288 | true exactly when the definition has no rules, lists the ident, or lists the module's non-empty class |
| `Station.RulesAdmit` | src/config.c:1275-1288 | what each further rule admits: no rule admits all, an ident its module, a non-empty class its modules |
| `Station.AdvanceIsForced` | src/config.c:1320-1326 | where the fill leaves a definition, every assignment respecting acceptance and maximums has left it too |
| `Station.LeastBeginsGreedily` | src/config.c:1317-1342 | a least valid assignment begins with what the greedy fill has placed |
| `Station.RefusedHasNoLeast` | src/config.c:1333-1340 | a module refused while the minimum is not met rules out a least valid assignment |
| `Station.FindDefinition` | src/config.c:1320-1326 | the definition found for a slot is at or below that of every relaxed assignment |
| `Station.FillSlots` | src/config.c:1314-1342 | the fill is pointwise least, and "past what the rules allow" means that no assignment respecting acceptance and maximums exists |
| `Station.CheckMinimums` | src/config.c:1343-1352 | passes exactly when the fill is a least valid assignment |
| `Station.CheckOrder` | src/config.c:1303-1313 | passes exactly when slots rise from 1 |
| `Station.RisingExactly` | src/config.c:1303-1313 | that order means positive slots that rise strictly |
| `Station.ValidateStation` | src/config.c:1293-1354 | accepts if and only if there is nothing to check, or rules are present, slots rise and a non-decreasing assignment exists that is accepted everywhere, has every count within min and max, and is least; each refusal says which part fails |
| `Station.CompleteWhenUnambiguous` | src/config.c:1293-1354 | when no two definitions accept a common configured module and no slot is empty, every valid assignment is the least one, so no valid station is refused |
| `Station.OneDefinition` | src/config.c:1314-1352 | with one definition, in order exactly when the number of slots is within min and max and every module is admitted |
| `Station.OverlapIsRefused` | src/config.c:1320-1326 | overlapping definitions: a valid assignment exists and the station is refused |
| `Station.EmptySlotIsRefused` | src/config.c:1290-1292 | an empty slot: a valid assignment exists and the station is refused |
| `Ewma.StepBounded` | src/bus.c:888-893 | one update keeps the sum within window times sample bound |
| `Ewma.SumBounded` | src/bus.c:1026-1030 | for every series of samples of magnitude at most M, the sum stays within N*M and the average within M |
| `Ewma.StepCloser` | src/bus.c:888-893 | a constant sample brings the sum strictly closer to a fixed band, and inside the band nothing moves |
| `Ewma.AverageReachesSample` | src/bus.c:1048-1052 | from any sum and for a sample of any sign, the average equals the sample after finitely many steps and stays so |
| `Ewma.NoOvershoot` | src/bus.c:888-893 | the sum moves monotonically and never past the far end of the band |
| `Ewma.AverageFormStalls` | src/bus.c:888 | the alternative form the comment rejects never moves while the difference is below the window |
| `Ewma.Window` | src/bus.c:640-647 | the samples of two seconds at the cycle time, at least 1 |
| `Ewma.Statistic.constructor` | src/bus.c:640-647 | that window, with no samples yet |
| `Ewma.Statistic.Record` | src/bus.c:889-893 | the stored sum is that of all samples recorded so far |
| `BitAccess.WriteInto` | tools/etherdog_client.py:104-111 | the loop over the image equals the bit-by-bit specification |
| `BitAccess.ReadFrom` | tools/etherdog_client.py:95-101 | the loop over the image equals the bit-by-bit specification |
| `BitAccess.WriteBitsBits` | tools/etherdog_client.py:104-111 | each bit of the range takes the value's bit, also for negative values; every other bit of the image is unchanged |
| `BitAccess.ReadBitsBits` | tools/etherdog_client.py:95-101 | each bit of the result is the image's bit |
| `BitAccess.ReadBackWritten` | tools/etherdog_client.py:95-111 | a written entry reads back as the value modulo 2^length |
| `BitAccess.ReadOtherUnchanged` | tools/etherdog_client.py:95-111 | a write leaves every disjoint entry's reading unchanged |
| `Layout.CountLayoutMax` | src/layout.c:103-114 | the number of configured entries of both directions, padding included |
| `Layout.Table.AddDirection` | src/layout.c:43-98 | appends exactly the direction's non-padding entries with their offsets, or reports a full table exactly when they do not fit |
| `Layout.FillTable` | src/layout.c:148-159 | stops at the first slave that is not on the bus, and reports a full table only where the rows do not all fit |
| `Layout.RowsBelowMax` | src/layout.c:100-114 | the capacity counted from the configuration holds every row |
| `Layout.Build` | src/layout.c:116-164 | the full-table branch is never taken; succeeds exactly when mapped, within the payload limit and with every slave found, and then publishes all rows slave by slave |
| `Layout.RowsInOrder` | src/layout.c:64-96 | rows of one slave and direction are ordered and pairwise disjoint |
| `Layout.RowOffsets` | src/layout.c:64-96 | exactly the entries that are not padding are published, in order |
| `Layout.EntryPublished` | src/layout.c:64-96 | the first entry sits at the start of the slice unless it is padding, and what follows is published as if the slice began behind it, padding or not; so an offset is the start plus all earlier lengths |
| `Layout.EmptyPdoPublished` | src/layout.c:67-69 | a PDO without entries takes no room |
| `Layout.NothingPublished` | src/layout.c:53-62 | no PDOs, or no data mapped: nothing published |
| `Layout.SlavePublished` | src/layout.c:148-159 | each slave adds its outputs at its mapped outputs, then its inputs at its mapped inputs |
| `Layout.SlavesApart` | src/layout.c:148-159 | rows of two slaves with disjoint slices do not overlap |
| `Layout.PublishedApart` | src/layout.c:116-164 | all published entries of a region are pairwise disjoint, outputs and inputs alike |
| `EndToEnd.Client.Set` | tools/etherdog_client.py:191-192 | changes the entry's bits in the client's image |
| `EndToEnd.Client.Get` | tools/etherdog_client.py:187-189 | reads an output entry from the client's image |
| `EndToEnd.Client.Send` | tools/etherdog_client.py:179-184 | the frame carries the next wrapping sequence number and the current image |
| `EndToEnd.PublishedInRegion` | src/layout.c:116-164 | every published output entry lies inside the output region |
| `EndToEnd.FrameReachesRegion` | src/data.c:194-225 | an open session applies the client's frame whole |
| `EndToEnd.SetReachesTheRegion` | src/layout.c:64-98 | given disjoint slave slices: set, encode, decode and apply make the entry read back from the output region as value modulo 2^length, with every other published entry as it was |
| `EndToEnd.SetAndApply` | src/data.c:189-225 | the same on the arrays: the client's set and send and the session's next cycle, in place |
| `LineFraming.ChunkingIsInvisible` | src/control.c:289-321 | for every byte stream, NUL bytes included, and every split into receives, handled lines, remaining bytes and the end of the connection are those of the stream taken at once |
| `LineFraming.EndIsFirstNewline` | src/control.c:302 | without NUL bytes, the search ends at the first newline |
| `LineFraming.RequestsArrive` | src/control.c:302-309 | requests sent with LF or CR LF and any empty lines between them arrive as exactly their texts, and a beginning of a next one is kept |
| `LineFraming.ShortLinesBegin` | src/control.c:316-319 | the lines before the first that is too long are a beginning of the newline split with one trailing CR removed and empty lines skipped, and all of it when none is too long |
| `LineFraming.HandledIsPrefix` | src/control.c:302-309 | where handling stops: the handled lines are the first of those, every response before the last was to go on, and unless all were handled the last was not |
| `LineFraming.EndsForAReason` | src/control.c:307-319 | how the connection ends: as the response to the last handled line says if that was not to go on; otherwise dropped if and only if some line is too long |
| `LineFraming.Client.constructor` | src/control.c:289-297 | an empty buffer and a live connection |
| `LineFraming.Client.Receive` | src/control.c:291-297 | appends the received bytes and terminates them |
| `LineFraming.Client.Terminate` | src/control.c:303-306 | the line with its newline and one CR cut off, without touching what follows |
| `LineFraming.Client.SplitLines` | src/control.c:299-309 | the in-place loop consumes the buffer as the specification consumes the bytes |
| `LineFraming.Client.KeepRest` | src/control.c:313-315 | the unfinished line moves to the front |
| `LineFraming.Client.ServiceClient` | src/control.c:289-321 | one receive, in place, refines the specification of one receive |
| `LogRing.Ring.constructor` | src/log.c:21-27 | an empty ring whose next id is 1 |
| `LogRing.Ring.Log` | src/log.c:101-130 | the ring still shows the newest 1000 entries of a log that never forgets; messages under the floor are dropped |
| `LogRing.LoggedExactly` | src/log.c:101-121 | of any series of messages, those at or above the floor are logged, in order, under consecutive ids |
| `LogRing.Oldest` | src/log.c:82-85 | the ring keeps the last 1000 entries, or all there are |
| `LogRing.Limit` | src/control.c:209-213 | the requested page size, brought into 1 to 1000 |
| `LogRing.Ring.OldestId` | src/log.c:82-85 | the oldest retained id |
| `LogRing.Ring.Query` | src/log.c:87-99 | the array receives exactly the first `max` retained entries at or above the level from the given id on |
| `LogRing.StoppedWalk` | src/log.c:92-96 | a walk stopped early or at the end holds the filtered log's first entries |
| `LogRing.KeptMembers` | src/log.c:92-96 | an entry is selected exactly when its id is in range and its level at or above the one asked for |
| `LogRing.Ring.Respond` | src/control.c:197-221 | page and next id, with arbitrary messages logged between query and next id |
| `LogRing.PagingIsExact` | src/control.c:217-221 | over all runs of log calls and pages, the client has received exactly the matching entries it paged past, once and in order, but for those overwritten first and those slipped |
| `LogRing.ReceivedOnce` | src/control.c:217-221 | entry by entry: received if and only if matching, paged past, not overwritten and not slipped; ids rise strictly |
| `LogRing.SlippedExactly` | src/control.c:217-221 | nothing slips if and only if no page of the run was empty with a matching message logged before the next id was read |
| `LogRing.OverwrittenExactly` | src/log.c:82-91 | no matching entry is overwritten first if and only if no page starts below the oldest retained id with a matching entry in between |
| `LogRing.CompleteExactly` | src/control.c:217-221 | the client has every matching entry between its first id and its cursor if and only if none was overwritten first and none slipped |
| `LogRing.NothingMissed` | src/control.c:214-221 | over every run and from any first id in the log, the default 0 included, the client has received every matching entry below its cursor if and only if no page came too late for a matching entry and none was overtaken between query and next id |
| `LogRing.AheadIsReset` | src/control.c:214-221 | a first id beyond the log gets an empty page and the next id to be assigned |
| `LogRing.PagingCatchesUp` | src/control.c:208-221 | while nothing is logged, one page more than there are matches reaches the next id, for any requested page size |
| `LogRing.SlipLosesAnEntry` | src/control.c:221 | a two-page run in which an entry is never delivered |
| `JsonText.QuotedReads` | src/cjson/cJSON.c:781-908 | every string of section 7 of RFC 8259, each character as it is, with any of the eight letters behind a backslash, or as a UTF-16 literal with digits in any case, is read as what it stands for |
| `JsonText.StringRoundTrip` | src/cjson/cJSON.c:781-1030 | every NUL-free string, whatever bytes and control characters it holds, is read back from what was printed |
| `JsonText.NulEnds` | src/cjson/cJSON.c:881-885 | an escaped NUL ends the C string, whatever follows |
| `JsonText.LiteralReads` | src/cjson/cJSON.c:658-776 | the literal of every Unicode scalar value, pairs included, yields bytes that a strict UTF-8 decoder reads as that value |
| `JsonText.LiteralIsWellFormed` | src/cjson/cJSON.c:658-776 | whatever the text, an accepted literal writes well-formed UTF-8 of one scalar value |
| `Json.SkipExactly` | src/cjson/cJSON.c:1047-1070 | skips bytes up to 32 and nothing else, and stops on a byte above 32 unless none is left |
| `JsonDoc.DocReads` | src/cjson/cJSON.c:1325-1377 | a document inside any buffer, at any depth, is read with the offset behind it, or refused exactly when it nests past the limit |
| `JsonDoc.ItemsRead` | src/cjson/cJSON.c:1489-1525 | the same for the elements of an array, with white space around every token |
| `JsonDoc.MembersRead` | src/cjson/cJSON.c:1644-1706 | the same for the members of an object |
| `JsonDoc.DocumentParses` | src/cjson/cJSON.c:1073-1143 | every RFC 8259 text without numbers parses to its meaning up to 1000 levels and fails beyond, with or without a byte order mark, any white space between tokens, and whatever follows |
| `JsonDoc.Tokens` | src/cjson/cJSON.c:1334-1372 | the bytes of the tokens |
| `JsonDoc.CompactPrints` | src/cjson/cJSON.c:1380-1843 | what is printed is the document of the value without white space |
| `JsonDoc.PrintIsClean` | src/cjson/cJSON.c:911-1030 | nothing below the space is printed, so a reply is one line |
| `JsonAccepts.StringBack` | src/cjson/cJSON.c:781-908 | an accepted string is spelled as RFC 8259 has it and read as spelled |
| `JsonAccepts.ValueBack` | src/cjson/cJSON.c:1325-1729 | an accepted value is a document and is read as what it means |
| `JsonAccepts.AcceptedIsDocument` | src/cjson/cJSON.c:1088-1143 | every accepted text, the hexadecimal leniency aside, is a document, and its value the document's meaning |
| `JsonAccepts.LenientLiteral` | src/cjson/cJSON.c:623-656 | the leniency: four bytes that are not all digits read as NUL |
| `JsonDoc.PrintThenParse` | src/cjson/cJSON.c:1325-1843 | for every tree of null, booleans, strings, arrays and objects, parsing the unformatted print gives the tree if it is nested at most 1000 deep and fails otherwise |
| `JsonDoc.ParsedFits` | src/cjson/cJSON.c:1454-1463 | whatever is accepted is within the nesting limit |
| `JsonDoc.ReprintIsStable` | src/cjson/cJSON.c:1104-1143 | any accepted text's value prints to a text with the same value |
| `JsonBuffers.Walk` | src/cjson/cJSON.c:796-809 | how many units the sizing loop counts over a stretch of any text |
| `JsonBuffers.StepFits` | src/cjson/cJSON.c:816-821 | each step of the copy loop leaves room for the rest, even where it falls out of step with the sizing loop |
| `JsonBuffers.WriteUtf8` | src/cjson/cJSON.c:734-770 | the backward loop writes the UTF-8 bytes and nothing before them |
| `JsonBuffers.ReadHex4` | src/cjson/cJSON.c:623-656 | four hexadecimal digits, or 0 |
| `JsonBuffers.WriteLiteral` | src/cjson/cJSON.c:660-776 | writes the literal's bytes inside the room that is left, or fails |
| `JsonBuffers.FindEnd` | src/cjson/cJSON.c:793-814 | finds the closing quote and the number of units before it |
| `JsonBuffers.CopyString` | src/cjson/cJSON.c:824-883 | for any text between the quotes, every write, the final NUL included, stays inside the buffer that was sized beforehand, and the buffer holds the unescaped text |
| `JsonBuffers.Parser.SkipWhitespace` | src/cjson/cJSON.c:1047-1070 | moves to the next byte above 32, or stays on the last byte |
| `JsonBuffers.Parser.ReadString` | src/cjson/cJSON.c:781-908 | accepts what the specification accepts, with the same text and offset |
| `JsonBuffers.Parser.ReadValue` | src/cjson/cJSON.c:1325-1377 | accepts what the specification accepts, with the same value and offset, and depth restored |
| `JsonBuffers.Parser.ReadArray` | src/cjson/cJSON.c:1454-1549 | the element loop with offset and depth against the specification |
| `JsonBuffers.Parser.ReadObject` | src/cjson/cJSON.c:1614-1729 | the member loop with offset and depth against the specification |
| `JsonBuffers.ParseText` | src/cjson/cJSON.c:1088-1143 | the whole parse, byte order mark and leading white space included |
| `JsonBuffers.CountEscapes` | src/cjson/cJSON.c:937-962 | the sizing loop counts exactly the bytes escaping adds |
| `JsonBuffers.FillString` | src/cjson/cJSON.c:911-1030 | both paths fill the buffer to its last byte with the printed string and its NUL |
| `JsonBuffers.Printer.WriteArray` | src/cjson/cJSON.c:1552-1611 | appends the array's text |
| `JsonBuffers.Printer.WriteObject` | src/cjson/cJSON.c:1732-1843 | appends the object's text |
| `JsonBuffers.PrintText` | src/cjson/cJSON.c:1380-1451 | the printed text of any value |
| `JsonBuffers.PrintAndParse` | src/cjson/cJSON.c:1325-1843 | the printing loops followed by the parsing loops return the value, or fail exactly for its depth |
| `StateFile.WriteText` | src/iface_state.c:247-258 | the writes produce the file's text |
| `StateFile.ReadFile` | src/iface_state.c:285-318 | the bounded line reads and key tests against the specification |
| `StateFile.DecimalReads` | src/iface_state.c:249-300 | every 32-bit integer is read back from its decimal text |
| `StateFile.PersistThenLoad` | src/iface_state.c:224-320 | for every valid interface name and everything capture can produce, loading the written text gives it back |
| `StateFile.LinesOfFullCapture` | src/iface_state.c:247-256 | the lines of the file |
| `StateFile.NamesByCharacter` | src/config.c:37-59 | valid names: a letter, then up to 14 letters, digits, `_` or `-` |
| `NicRecovery.Interface.Restore` | src/iface_state.c:177-213 | sets back the groups that were saved and no others |
| `NicRecovery.Interface.RecoverFromCrash` | src/iface_state.c:326-341 | rolls back what a leftover file describes and removes it |
| `NicRecovery.Interface.Persist` | src/iface_state.c:224-265 | the file holds the captured settings |
| `NicRecovery.Interface.Apply` | src/iface_state.c:347-378 | the whole call equals its sequence of crash-separable steps |
| `NicRecovery.Interface.Revert` | src/iface_state.c:380-391 | the whole call equals its sequence of crash-separable steps |
| `NicRecovery.RunKeeps` | src/iface_state.c:326-391 | over all runs of applies, repeated applies, reverts and crashes outside the window, the interface has its original settings, or the file holds them, or tuning is under way in a live process that remembers them |
| `NicRecovery.KeptExactly` | src/iface_state.c:369-377 | after any run with crashes anywhere, the originals can still be had if and only if no crash fell between the first change made by tuning and the rename |
| `NicRecovery.LostForever` | src/iface_state.c:369-377 | after such a crash no later run brings them back |
| `NicRecovery.CrashInWindowLoses` | src/iface_state.c:369-377 | the window is real: a five-event run that loses them |
| `NicRecovery.FinishedKeeps` | src/iface_state.c:347-391 | a call carried through: apply ends with both times 0 and all three offloads off and the captured originals in the file, revert ends with the originals in place and no file |
| `NicRecovery.ApplyThenRevert` | src/iface_state.c:347-391 | after any run without a losing crash, whatever it left behind, apply and then revert restore the originals |
| `NicRecovery.InvalidNameTouchesNothing` | src/iface_state.c:353-362 | under an invalid name no run changes the interface or the file |

## Left out

- SOEM, the startup phases of `src/master.c`, sockets, datagram endpoints, clocks and scheduling: their results are parameters.
- Weak memory: steps are sequentially consistent atomic accesses.
- 64-bit counters and log ids, 32-bit layout offsets and the 64-bit sums of the averages do not wrap in the model; `Ewma.SumBounded` gives the bound below which the sums fit.
- Counters that only feed diagnostics (misses, cycle counts, minima and maxima), log texts and mailbox handling in the thread loops.
- What two bus threads of one master do to each other after a start from ERROR with live threads.
- `ecat_data_publish_inputs`, the input half of the client's `step`, and the re-allocation of the image at a restart.
- JSON numbers and raw items: values have none, and the model's parser refuses a number where the source reads an IEEE double.
- JsonDoc.ParsedFits: says nothing of texts with numbers.
- JsonDoc.ReprintIsStable: says nothing of texts with numbers.
- JsonBuffers.Parser.ReadValue: refuses numbers.
- JsonBuffers.Parser.ReadArray: refuses arrays that hold numbers.
- JsonBuffers.Parser.ReadObject: refuses objects that hold numbers.
- JsonBuffers.ParseText: refuses texts with numbers.
- cJSON's linked lists, allocation failures and the growth of the print buffer: values are trees of sequences and the printer's output is a growing sequence, so sharing and in-place growth are not captured; the two string buffers are arrays of exactly the allocated sizes.
- Formatted printing, the error position after a failed parse, and `cJSON_ParseWithOpts` with required termination.
- ethtool output parsing; ethtool runs and file operations that fail, and partial captures, in the crash protocol.
- StateFile.ReadFile: does not model numbers outside 32 bits, for which C leaves the result of `atoi` open.
- The log sink thread, JSON command dispatch, status builders, authentication tokens and command line.
- Configuration parsing apart from the bounds on slot definitions; PDO and SDO validation.
