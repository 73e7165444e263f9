# ouispy firmware: a model of its protocols and codecs

This project models, in Dafny, the five stateful protocols of the firmware and the codecs they carry, and
proves what each of them is for.

* **Fleet OTA relay.** `OtaNode` is a node's transfer state and packet handlers, `OtaManager` the manager's
  progress table and rounds, `OtaRelay` the link between bitmap, count and flash, `OtaSystem` the runs of
  any number of nodes over a network that loses, repeats and reorders packets and acks.
* **Capture to phone.** `PcapCapture` (double buffer and splitter), `PcapFragments` and `PcapManager`
  (fragmenter and reassembler, as values and as arrays), `PcapPhone` (coalescing buffer), `PcapPipeline` (from
  the radio to the manager, over a queue that fills and a link that loses).
* **Engine registry with automatic captures.** `Registry` specifies every operation, `EngineRegistry` is the
  registry of arrays, one-byte masks and loops, `RegistryRuns` proves what whole runs keep, `RegistryCaptures`
  what runs and may be started beside a capture. `DedupRing` is the cooldown ring the registry shares with the
  engines.
* **Mesh bookkeeping.** `DetBatch` (detection batches), `CmdSend`, `CmdRetry` and `CmdReceive` (commands, their
  retries and duplicate suppression), `Slicing`, `WardriveNode` and `WardriveSettings` (channel slices, hop
  schedules, and the times of both).
* **Open Drone ID.** `OdidQuant` (field quantisers over the reals), `OdidMessages` (the six messages, section
  5.4.5 of ASTM F3411-22a), `OdidControl` (pack check and the mutually recursive decoders), `OdidPack` (pack
  builder and what a receiver makes of it), `NanFrame` and `NanCodec` (the action frame of sections 2.8.1 and
  2.8.2 of the Neighbor Awareness Networking Specification, as bytes and over a buffer), `OdidWire` (both byte by
  byte).
* **Updates and spool.** `Crc` and `CrcPoly` (CRC-32 of section 3.2.9 of IEEE 802.3), `Staging` (download to the
  scratch partition), `BleUpdate` (update over Bluetooth), `Spool` (offline detections).
* `Bytes` and `Bits` hold what several of these share.

Code that changes state in place is a class whose methods are proved equal to a function on values; the
properties are then lemmas about those functions over one step and over whole runs. Handlers are atomic
steps. What a driver or a radio answers is a parameter. Times are 32-bit counters where the code subtracts
them unsigned, and otherwise numbers that do not wrap.

## What the proofs found

* The relay's chunk count is cut to 16 bits. Announcement and coverage are right exactly for images of at most
  0x300000 bytes, the size of a slot (`OtaRelay.AcceptedExactlyWhenItFits`).
* A BEGIN handled by a node that has acknowledged progress, such as a repeated one that arrives late, restarts
  the node while the manager goes on using the resume point it heard before. Reports become unsafe exactly then
  (`OtaSystem.ReportsStaySafeExactly`), and it does happen (`OtaSystem.LateBeginOvertakesReport`).
* With more than four nodes, one node's fragments can take over another's slot and cost it what was held. Records
  come out exactly when one fragment completes what is held (`PcapFragments.EmittedExactly`); with five nodes a
  record of which every fragment arrives can be lost (`PcapFragments.TakeoverLosesRecord`).
* Records of frames of 2021 to 2324 bytes are captured, fragmented and reassembled, and then always dropped,
  because the buffer for the phone is 2048 bytes (`PcapPipeline.LongFramesStopAtTheManager`).
* The hand-over between WiFi engines never stops one: all four are declared to coexist
  (`Registry.NoLosers`), although the comment at src/engine_registry.cpp:21 says they are
  mutually exclusive.
* A closing window gives back every paused engine except in one family of cases, where the foxhunter's own
  start stops engines just restored or still running (`RegistryRuns.RestoresAllExactly`). Then an engine the user
  started stays off (`RegistryRuns.FoxhunterCostsDetector`).
* A start written to the configuration of a running capture stops no engine, but from then on enables are answered
  as if the capture were on the radio named there (`RegistryCaptures.StartChangesAnswers`).
* A stop written to the capture's configuration before the first tick leaves the window open until the user
  intervenes (`RegistryRuns.StoppedEarlyStaysOpen`).
* A denied engine can run: a detection starts the capture although it is denied (`RegistryRuns.DeniedCaptureRuns`;
  no manager sends such a mask), and a closing window gives back an engine denied while it was paused. Nothing else
  starts one (`RegistryRuns.DenyHoldsExactly`). The second happens under the mask a manager does send, and sending
  it again does not stop the engine (`RegistryRuns.DeniedEngineRuns`).
* A copy of a command passes a second time if it comes more than 5000 ms after the first, if the first came at
  millisecond 0, or if 32 other commands were recorded in between (`CmdReceive.RunsAgainExactly`,
  `CmdReceive.FloodForgets`). Callers ask for at most three retries, 300 ms apart; one slice and one mask for each
  of 16 nodes are 32 commands.
* A command whose first copy meets a phone connected to the node is lost, though all its copies are acknowledged
  (`CmdReceive.FirstCopyDecides`).
* A wardriving configuration of more than 26 bytes would reach no node (`WardriveNode.MessageArrives`); the
  manager's has at most 16.
* A spool file that does not open, or is cut short, counts as written (`Spool.SpoolStore.FlushIfDirty`,
  `Spool.ReloadsWhatWasWritten`).
* A channel range that starts at 12 to 14 with an unusable end is given the end 11, which is no range
  (`Slicing.RangeExactly`).
* The upper speed scale's code 0 and the lower scale's 255 mean the same speed, and only the latter is ever
  produced (`OdidQuant.SpeedCodesAgain`).

## Model

| member | source | states |
|---|---|---|
| `OtaNode.Receiver.BitTest` | src/mesh_espnow.cpp:418 | a chunk's bit is read from its byte and its place in the bitmap |
| `OtaNode.Receiver.BitSet` | src/mesh_espnow.cpp:419 | setting a chunk's bit sets that one and no other of the 16384 |
| `OtaNode.Receiver.FirstGap` | src/mesh_espnow.cpp:420-423 | the loop finds the first chunk below the total that has not arrived, or the total |
| `OtaNode.Receiver.HandleBegin` | src/mesh_espnow.cpp:434-456 | a BEGIN for 0 or more than 16384 chunks is refused, any other starts the transfer over with nothing received; the reply says which |
| `OtaNode.Receiver.HandleData` | src/mesh_espnow.cpp:457-476 | a chunk in range and not yet held is written at 192 times its index, marked and counted once; a failed write leaves it unmarked and uncounted, however much of it reached the flash; any other chunk changes nothing; an ack at most every 300 ms |
| `OtaNode.Receiver.HandleEnd` | src/mesh_espnow.cpp:477-500 | an END with the count short asks to resume at the first gap; with the count full the image is closed, the boot slot switched and DONE sent, or the flash call that failed is reported |
| `OtaManager.Initiator.Slot` | src/mesh_espnow.cpp:521-532 | a node's own progress slot, else the first unseen one, claimed for it, else none |
| `OtaManager.Initiator.OnAck` | src/mesh_espnow.cpp:533-541 | an ack overwrites status, count and resume point of its node's slot and of no other |
| `OtaManager.Initiator.SendChunk` | src/mesh_espnow.cpp:553-564 | chunk i carries the image's bytes from 192 i on, 192 of them or what is left |
| `OtaManager.Initiator.Stream` | src/mesh_espnow.cpp:613-616 | the chunks from a resume point to the last go out in order, each once |
| `OtaManager.Initiator.Announce` | src/mesh_espnow.cpp:569-589 | five BEGINs with the true size and chunk count, then every chunk in order |
| `OtaManager.Initiator.Scan` | src/mesh_espnow.cpp:599-608 | the scan of the progress table yields the least resume point among nodes not done, and whether there is any such node |
| `OtaManager.Initiator.Round` | src/mesh_espnow.cpp:592-618 | a round sends three ENDs and then exactly the chunks from the least pending resume point on |
| `OtaManager.StreamIsGenuine` | src/mesh_espnow.cpp:553-589 | every packet the manager streams carries the true bytes of its chunk |
| `OtaRelay.AcceptedExactlyWhenItFits` | src/mesh_espnow.cpp:570 | the node accepts the announced, 16-bit chunk count, and the chunks cover the image, exactly for images of at most 0x300000 bytes; the largest need all 16384 chunks |
| `OtaRelay.FullCount` | src/mesh_espnow.cpp:479-482 | pigeonhole: the count equals the total exactly when no bit below the total is clear |
| `OtaRelay.ChunksMakeImage` | src/mesh_espnow.cpp:462-464 | every chunk stored at its own offset is the whole image stored |
| `OtaRelay.PacketKeeps` | src/mesh_espnow.cpp:434-500 | whatever the flash driver answers and however far a failed write got, every handler keeps: the count is the number of bits set below the total, each set bit's chunk stands correct in flash, and each clear bit's region can still be written with its chunk, though writing only clears bits |
| `OtaRelay.DoneMeansImage` | src/mesh_espnow.cpp:477-500 | DONE is sent only by a node whose boot slot then holds the manager's image byte for byte, although no CRC is looked at |
| `OtaRelay.RunningSlotUntouched` | src/mesh_espnow.cpp:441-465 | no handler writes to the slot the node runs from; which slot that is changes only with a DONE |
| `OtaRelay.EndAsksForGap` | src/mesh_espnow.cpp:479-482 | an END heard while chunks are missing leaves the node as it was, and it asks to resume at the first chunk it lacks, with the number of chunks it holds |
| `OtaRelay.EndFinishes` | src/mesh_espnow.cpp:483-500 | an END heard when none is missing ends the transfer; the slots change and DONE is sent exactly if both flash calls work, else an error is told and what is held stays held |
| `OtaRelay.BeginStartsOver` | src/mesh_espnow.cpp:434-456 | a BEGIN of any image starts over with nothing held on erased flash, or fails with the driver, and is answered with which |
| `OtaRelay.DataIsAnswered` | src/mesh_espnow.cpp:457-476 | a chunk that is lacked is held afterwards if the write works; the ack, with the first gap and the number held, is sent exactly if the last is more than 300 ms old |
| `OtaRelay.FailureIsTold` | src/mesh_espnow.cpp:465-468 | a write that fails leaves the chunk missing and touches nothing but its 192 bytes, and is told with the first gap whatever the time |
| `OtaRelay.OtherwiseUnchanged` | src/mesh_espnow.cpp:434-480 | every other packet changes nothing: a BEGIN for an impossible number of chunks is refused, a chunk out of range or held and packets to an idle node get no answer |
| `OtaManager.MarkedIsCount` | src/mesh_espnow.cpp:599-608 | the two counts of a round are the number of nodes heard from and the number of those that are done |
| `OtaSystem.RelaySafety` | src/mesh_espnow.cpp:418-500 | in every reachable state, under any loss, repetition, reordering and flash failure, a node that has sent DONE runs from exactly the manager's image |
| `OtaSystem.DoneIsEarned` | src/mesh_espnow.cpp:533-541 | the manager's table shows a node done only if that node has finished |
| `OtaSystem.RecordedNextIsSafe` | src/mesh_espnow.cpp:420-423 | however stale or reordered the acks, the resume point recorded for a node that has handled no BEGIN since is at most its first gap now |
| `OtaSystem.ReceiveData` | src/mesh_espnow.cpp:457-476 | any DATA packets, in any order and number, add exactly their own bits to a transfer |
| `OtaSystem.LossFreeRound` | src/mesh_espnow.cpp:457-500 | once every chunk from a point no later than the first gap has arrived, the next END makes the node finish with the image |
| `OtaSystem.RoundCompletesPending` | src/mesh_espnow.cpp:592-618 | the manager's own resume point is early enough for every pending node whose report is of its current transfer: one round without loss completes it |
| `OtaSystem.RoundCompletes` | src/mesh_espnow.cpp:592-618 | the same for every pending node whose report does not go too far, whatever transfer it is from |
| `OtaSystem.EndReportsGap` | src/mesh_espnow.cpp:477-541 | whatever the manager has heard or missed: an END delivered to a node that lacks chunks, and its ack heard, leave the node pending in the table with its exact first gap |
| `OtaSystem.ResendFinishes` | src/mesh_espnow.cpp:457-618 | in any reachable state the chunks from a point no later than its first gap, in any order and number, and an END make a node run the image |
| `OtaSystem.EndThenResendFinishes` | src/mesh_espnow.cpp:592-618 | so no earlier report is needed: an END and its ack, the chunks from the table's least pending resume point, which is never too late, and one more END make any node that takes part run the image |
| `OtaSystem.ReportSpoiledExactly` | src/mesh_espnow.cpp:434-476 | a packet handled makes a safe resume point unsafe if and only if it is a BEGIN, the flash accepts it, and the point is not 0 |
| `OtaSystem.TooFarAfterExactly` | src/mesh_espnow.cpp:434-476 | what is recorded for a node goes too far, by any event but an ack heard, if and only if that is such a BEGIN delivered to it |
| `OtaSystem.ReportsStaySafeExactly` | src/mesh_espnow.cpp:434-541 | all acks ever sent stay safe for their nodes through an event if and only if it does not start over a node that has acknowledged progress |
| `OtaSystem.NoReportTooFar` | src/mesh_espnow.cpp:420-541 | in every run without such an event no resume point recorded lies beyond its node's first gap, however stale or reordered the acks |
| `OtaSystem.UnsafeAckHeard` | src/mesh_espnow.cpp:533-541 | and once an ack is unsafe, hearing it makes the table unsafe |
| `OtaSystem.LateBeginOvertakesReport` | src/mesh_espnow.cpp:434-456 | that does happen: for every image there is a run in which a late repeated BEGIN leaves the recorded resume point beyond the node's first gap |
| `PcapCapture.DoubleBuffer.AppendFrame` | src/engines/pcap.cpp:78-143 | a frame's record is appended whole to the active buffer, or whole to the other one after a swap if that is empty, or dropped whole |
| `PcapCapture.RecordFields` | src/engines/pcap.cpp:78-96 | what a reader finds in a record: markers, length up to the trailer, time in seconds and microseconds, both frame lengths, and the frame |
| `PcapCapture.DroppedExactly` | src/engines/pcap.cpp:98-142 | a record is dropped if and only if it does not fit behind the active bytes and the other buffer is not empty; else it is the newest in the buffers |
| `PcapCapture.DroppedOnlyWhenBothFull` | src/engines/pcap.cpp:98-142 | in every run of captures and drains a record is dropped only if, with it, more than both buffers less one largest record would wait |
| `PcapCapture.AllFitWithoutDrain` | src/engines/pcap.cpp:98-142 | from empty buffers records of that many bytes in all are taken without any drain |
| `PcapCapture.DoubleBuffer.DrainBlock` | src/engines/pcap.cpp:313-325 | the older buffer is taken first, else the active one, whose place the other takes |
| `PcapCapture.CaptureFifo` | src/engines/pcap.cpp:98-142 | at every moment of every run, bytes drained, then the inactive buffer, then the active one are the concatenation of the records accepted |
| `PcapCapture.TwoDrainsEmpty` | src/engines/pcap.cpp:313-325 | two drains in a row leave nothing behind |
| `PcapCapture.Split` | src/ble_gatt.cpp:2038-2055 | the splitting loop finds, for every block, exactly the records the specification of the splitter finds, or stops at a claimed length that wraps its cursor |
| `PcapCapture.SplitBlock` | src/ble_gatt.cpp:2038-2055 | a block that is a concatenation of whole records splits into exactly those |
| `PcapCapture.CutTailIsLeftOut` | src/ble_gatt.cpp:2038-2055 | a record cut off at the end of a block is left out and costs none before it |
| `PcapCapture.JunkIsPassedOver` | src/ble_gatt.cpp:2038-2055 | bytes at which no marker begins are passed over |
| `PcapCapture.BlocksSplitExactly` | src/ble_gatt.cpp:2038-2055 | in every run of captures and drains each drained block fits a buffer and splits into exactly the records it was made of |
| `PcapFragments.Forwarder.Forward` | src/mesh_espnow.cpp:2129-2157 | a record is numbered and queued as all of its fragments in order, or not at all when it is too long or the queue has too little room |
| `PcapFragments.ReassemblySafety` | src/ble_gatt.cpp:1896-1976 | whatever fragments of whichever nodes arrive, lost, repeated, reordered, with slots taken over: a record handed on is byte for byte one its source forwarded under that number |
| `PcapFragments.TooLongNeverEmitted` | src/ble_gatt.cpp:1938-1942 | a record over 3072 bytes is never handed on |
| `PcapFragments.OversizeGivesUp` | src/ble_gatt.cpp:1896-1942 | a packet without a fragment, or numbered 32 or more, changes nothing; one that reaches beyond 3072 bytes ends whatever its node had begun |
| `PcapFragments.EmittedExactly` | src/ble_gatt.cpp:1896-1976 | for every such record and every run at all, with any number of nodes and take-overs: a fragment hands on the record, and exactly it, if and only if it completes what is held of it; what is held is what arrived since the slot was last emptied or taken over |
| `PcapFragments.TakeoverLosesRecord` | src/ble_gatt.cpp:1909-1935 | with five nodes it does fail: for every record of two fragments and any five nodes there is a run in which both fragments arrive, each once and in order, and the record never comes out |
| `PcapFragments.FragmentRoundTrip` | src/ble_gatt.cpp:1896-1976 | for every record of 1 to 3072 bytes and every arrival order, with repeats, and whatever else arrives as long as its slot is not taken over: it comes out exactly, when its last missing fragment arrives and not before |
| `PcapFragments.RoundTripInSparseTraffic` | src/ble_gatt.cpp:1909-1926 | no take-over happens, and the record comes through, in a fleet of any size, if its node sends no other record between its fragments, at most three other nodes are heard between one of them and the next, and no two packets share a millisecond |
| `PcapFragments.RoundTripAmongFour` | src/ble_gatt.cpp:1909-1926 | nor with at most four nodes, whatever the times, if its node sends no other record between its fragments |
| `PcapManager.ReasmSlot.AcceptFragment` | src/ble_gatt.cpp:1927-1976 | one slot's buffer, mask and counters take a fragment in, give up, or complete, as the specification of a slot says |
| `PcapManager.Reassembler.FindSlot` | src/ble_gatt.cpp:1909-1926 | the source's own slot, else the first free one, else the one longest untouched |
| `PcapManager.Reassembler.AddFragment` | src/ble_gatt.cpp:1896-1976 | while capture is wanted the four slots together do what the specification of the reassembler says, and otherwise nothing |
| `PcapPhone.PhoneFeed.StashRecord` | src/ble_gatt.cpp:1962-1970 | a finished record waits for the phone whole or is dropped whole |
| `PcapPhone.PhoneFeed.FlushOnce` | src/ble_gatt.cpp:1815-1850 | one wake-up indicates at most the first 480 waiting bytes, under the link, watermark, age and watchdog conditions, and keeps the rest in order |
| `PcapPhone.PhoneFifo` | src/ble_gatt.cpp:1815-1850 | as long as the clear path is not taken, bytes indicated and then bytes waiting are the concatenation of the records stashed |
| `PcapPhone.AllFitInBuffer` | src/ble_gatt.cpp:1962-1970 | no record is dropped as long as all that waits fits in 2048 bytes |
| `PcapPhone.IndicatesExactly` | src/ble_gatt.cpp:1815-1850 | exactly when a wake-up indicates something, which bytes, when bytes are forgotten unsent, and when an answer is no longer awaited |
| `PcapPhone.IndicationsSpaced` | src/ble_gatt.cpp:1815-1850 | of two indications in a row in any run the second comes after an answer or more than 2000 ms later, and it is a full 480 bytes or comes at least 100 ms later |
| `PcapPhone.UnansweredGoesOn` | src/ble_gatt.cpp:1825-1832 | an answer that never comes stops nothing for longer than 2000 ms |
| `PcapPhone.FlushesEmpty` | src/ble_gatt.cpp:1815-1850 | a phone that listens and acknowledges empties the buffer, one indication per 480 bytes |
| `PcapPipeline.LossyLink` | src/ble_gatt.cpp:1896-1976 | over a link that keeps order and loses any packets, exactly the records of which no fragment was lost come out, in order; leftovers never mix with later records |
| `PcapPipeline.SendKeeps` | src/mesh_espnow.cpp:2129-2157 | in every run of offers and transmissions, packets sent and waiting are those of the records taken in, whose numbers rise and which are offered ones in order |
| `PcapPipeline.TakenExactly` | src/mesh_espnow.cpp:2129-2157 | in every run exactly those records are taken in that have 1 to 6368 bytes and for all fragments of which there is room when they are offered |
| `PcapPipeline.NumbersSpent` | src/mesh_espnow.cpp:2133-2136 | every record that could be cut spends one 16-bit number, whether or not there was room for it |
| `PcapPipeline.TransmitsInTurn` | src/mesh_espnow.cpp:2129-2157 | transmissions take the packets that have waited longest, in order |
| `PcapPipeline.QueueAndLink` | src/mesh_espnow.cpp:2129-2157 | with records refused for want of room and packets lost: what has come out is a beginning of the whole records taken in, and all of them once the queue is empty |
| `PcapPipeline.RecordsThrough` | src/ble_gatt.cpp:1896-1976 | records forwarded one after the other over a link that keeps order and loses nothing come out as exactly those records in that order, though numbers come round again |
| `PcapPipeline.CaptureToManager` | src/ble_gatt.cpp:1896-2055 | capture, drain, split, queue, fragment, lose and reassemble: what has come out is at every moment a subsequence of the records drained and of those accepted, and it is all of those drained if there was room for each, the queue is empty and nothing was lost |
| `PcapPipeline.LongFramesStopAtTheManager` | src/ble_gatt.cpp:1962-1970 | every captured frame survives the mesh, but its record can wait for the phone exactly when the frame has at most 2020 bytes, while the capture allows 2324 |
| `EngineRegistry.MaskInjective` | src/engine_registry.cpp:506-508 | two one-byte engine masks are equal exactly when they stand for the same engines |
| `EngineRegistry.EngineTable.StopEngine` | src/engine_registry.cpp:203-213 | a running engine is stopped and leaves the running set; an unknown one is refused; any other call changes nothing |
| `Registry.NoLosers` | src/engine_registry.cpp:170-187 | no WiFi engine is ever a rival to be stopped, since every two of them are declared to coexist |
| `EngineRegistry.EngineTable.StartEngine` | src/engine_registry.cpp:151-201 | an engine starts unless it is unknown or a capture, running or pending, owns its radio; the foxhunter's start stops up to three others |
| `EngineRegistry.EngineTable.CommandEnable` | src/engine_registry.cpp:521-529 | the user's enable is refused for a denied engine, and once accepted takes the engine off the restore mask |
| `EngineRegistry.EngineTable.CommandDisable` | src/engine_registry.cpp:530-542 | the user's disable takes the engine off the restore mask, and of the capture itself cancels the window |
| `EngineRegistry.EngineTable.StopAll` | src/engine_registry.cpp:116-142 | disable-all stops every engine and forgets the window |
| `EngineRegistry.EngineTable.SetDenyMask` | src/engine_registry.cpp:506-515 | a new deny mask stops exactly the running engines in it; the same mask again does nothing |
| `EngineRegistry.EngineTable.PauseConflicts` | src/engine_registry.cpp:417-426 | the loop stops exactly the running engines that conflict with the capture's radio and notes exactly those in the mask |
| `EngineRegistry.EngineTable.RequestCapture` | src/engine_registry.cpp:365-448 | a detection opens a window only if the mode is on, no window or capture is up, the cooldown is over and its address was not seen lately |
| `EngineRegistry.EngineTable.RestoreMask` | src/engine_registry.cpp:477-483 | the paused engines are started again in order of their number, each by the ordinary enable |
| `EngineRegistry.EngineTable.AutoTick` | src/engine_registry.cpp:450-485 | a tick stops a capture that is due, and closes the window once the capture is down and was seen up or cancelled |
| `RegistryRuns.StepKeepsInv` | src/engine_registry.cpp:116-556 | every operation keeps running and paused engines disjoint and registered, the capture itself never paused, and nothing paused outside a window or after a cancel |
| `RegistryRuns.CapturesAreTransparent` | src/engine_registry.cpp:417-447 | in every run that never enables the foxhunter, running and paused engines together change only by the user's commands, never by a detection or a tick; with no window open exactly the wanted engines run |
| `RegistryRuns.ClosingGivesBack` | src/engine_registry.cpp:450-485 | in such runs the tick that closes a window leaves running exactly what the user's commands so far amount to |
| `RegistryRuns.CloseRestores` | src/engine_registry.cpp:463-484 | in general, closing leaves running and paused engines running except those the foxhunter's own start stops; after a cancel it restores nothing |
| `RegistryRuns.RestoresAllExactly` | src/engine_registry.cpp:477-483 | every paused engine comes back if and only if not (the foxhunter was paused, wardrive does not run, and the detector or Flock-WiFi is running or paused or Sky Spy is running) |
| `RegistryRuns.FoxhunterCostsDetector` | src/engine_registry.cpp:477-483 | that does happen: from every state at rest there is a run in which a window pauses the foxhunter and the detector, both started by the user, and after it closes only the foxhunter runs |
| `RegistryRuns.ClosesExactly` | src/engine_registry.cpp:450-463 | a tick at or after the deadline closes the window if and only if the capture is up, was seen up, or was cancelled; else it changes nothing |
| `RegistryRuns.WindowsClose` | src/engine_registry.cpp:450-463 | in every run without a stop written to the capture's configuration and without a denial of the capture, the first tick at the deadline closes the window |
| `RegistryRuns.StoppedEarlyStaysOpen` | src/engines/pcap.cpp:570 | a window whose capture was stopped that way before the first tick stays open through every run without disable-all and without an enable or disable of the capture, and no detection is accepted |
| `RegistryRuns.StopBeforeFirstTick` | src/engines/pcap.cpp:570 | that state is reached from any state that admits a detection |
| `RegistryRuns.CooldownAfterClose` | src/engine_registry.cpp:380-387 | after a close that was not a cancel, no detection before the cooldown's end opens a window, whatever the user does short of setting the cooldown to 0 |
| `RegistryRuns.DenyHoldsExactly` | src/engine_registry.cpp:417-485 | if no denied engine runs, none does after an operation, if and only if that is neither a detection that opens a window while the capture is denied nor a tick that gives back a denied paused engine (one the foxhunter's start does not stop) |
| `RegistryRuns.DenyHoldsInRuns` | src/engine_registry.cpp:417-515 | in every run without these two, no denied engine ever runs |
| `RegistryRuns.DeniedEngineRuns` | src/engine_registry.cpp:463-515 | the second happens, with every mask that denies the detector but not the capture, which includes the one a manager sends: from every state at rest there is a run after which the detector runs though denied, and sending the same mask again does not stop it |
| `RegistryRuns.DeniedCaptureRuns` | src/engine_registry.cpp:428-447 | so does the first: from every state at rest there is a run after which the capture runs though a mask denies it |
| `RegistryCaptures.TriggerOpensExactly` | src/engine_registry.cpp:365-448 | exactly when a detection opens a window, on which radio its capture then records, which engines it stops and notes, and until when; in every other case what runs stays as it is |
| `RegistryCaptures.EnableAnswersExactly` | src/engine_registry.cpp:151-201 | exactly which enables are accepted, beside a capture on either radio and without one, and what runs afterwards |
| `RegistryCaptures.CaptureKeepsRadio` | src/engine_registry.cpp:157-168 | in every run, from the detection that opens a window until its capture is down, whatever the user and the ticks do short of a start written to the capture: beside a Bluetooth capture none of the four engines that listen there runs, beside a WiFi capture no engine at all; and exactly which enables are accepted meanwhile |
| `RegistryCaptures.StartChangesAnswers` | src/engines/pcap.cpp:555-559 | a start written to the configuration of a running capture stops nothing and changes the radio the registry takes it to be on; enables are then answered as beside a capture there |
| `RegistryCaptures.DurationGoverns` | src/engine_registry.cpp:437-447 | the next window is as long as the user has set, ten seconds for a setting of 0 |
| `RegistryCaptures.CaptureEndsExactly` | src/engine_registry.cpp:450-462 | a tick ends a window's capture exactly if the timer has run out or the deadline has come |
| `RegistryCaptures.AutoGoverns` | src/engine_registry.cpp:365-380 | in every run detections are taken up or not as the user last set it |
| `RegistryCaptures.CloseArms` | src/engine_registry.cpp:463-476 | closing a window arms the cooldown, unless it was cancelled or none is set |
| `RegistryCaptures.NoCooldown` | src/engine_registry.cpp:380-387 | a cooldown set to 0 ends the one that runs |
| `RegistryCaptures.CooldownGoverns` | src/engine_registry.cpp:380-387 | after a window that was not cancelled no detection is taken up for as long as the user has set |
| `DedupRing.DedupTable.Sighting` | src/engines/dedup_ring.h:20-40 | the loop over the array answers and changes the ring as its specification says: refresh, suppress, append, or overwrite the oldest insertion |
| `DedupRing.DedupTable.Reset` | src/engines/dedup_ring.h:42-45 | a reset forgets every entry and keeps the cooldown |
| `DedupRing.SuppressesOnlyRecent` | src/engines/dedup_ring.h:20-40 | whatever was overwritten in between, only an address accepted within the cooldown is ever suppressed |
| `DedupRing.ExactWhenFewMacs` | src/engines/dedup_ring.h:20-40 | with at most as many addresses as entries the ring answers exactly as an unbounded map of last acceptances does |
| `DedupRing.NewEntryLives` | src/engines/dedup_ring.h:30-38 | a new entry is given a life of as many insertions as the ring has entries |
| `DedupRing.SurvivesExactly` | src/engines/dedup_ring.h:30-38 | in every run an entry stays until the insertion that ends its life, and is gone after it |
| `DetBatch.Batcher.Enqueue` | src/mesh_espnow.cpp:1606-1629 | a record goes to the end of the queue, or is dropped when 128 wait |
| `DetBatch.KeptBelow128` | src/mesh_espnow.cpp:1606-1629 | in every run a sighting is queued if fewer than 128 records wait, and else changes nothing |
| `DetBatch.RecOnTheWire` | src/mesh_espnow.cpp:1648-1656 | the place of each field of a record in a frame |
| `DetBatch.Batcher.Fill` | src/mesh_espnow.cpp:1644-1659 | a frame takes records until one does not fit, which stays in the hand; none is lost between queue, hand and frame |
| `DetBatch.Batcher.Flush` | src/mesh_espnow.cpp:1634-1676 | a flush sends the frames of its specification and puts the record in the hand back to the front of the queue |
| `DetBatch.UnpackFrame` | src/mesh_espnow.cpp:1023-1061 | the manager's loop reads the records the specification reads, stopping at the first that does not lie whole in the frame |
| `DetBatch.UnpacksWhatIsWhole` | src/mesh_espnow.cpp:1023-1061 | of a frame cut short anywhere, or of a wrong count, exactly the records are taken that are announced and there in full |
| `DetBatch.NamesKept` | src/mesh_espnow.cpp:1045-1052 | a record arrives unchanged, but for the name of a Bluetooth device, of which 20 bytes are kept |
| `DetBatch.FlushConserves` | src/mesh_espnow.cpp:1634-1676 | for every queue: at most 16 frames, each of 1 to 255 records and at most 215 bytes, unpack in order to exactly the records that left the queue; the rest stays in order, and nothing stays if a frame was to spare |
| `DetBatch.HeldBackOnlyWhenFull` | src/mesh_espnow.cpp:1646-1647 | a record is left out of a frame only if it would not have fitted |
| `DetBatch.BatchFifo` | src/mesh_espnow.cpp:1606-1676 | in every run of sightings and flushes, whichever frames are lost on the air: what the manager has unpacked followed by what the node still holds is a subsequence of what the node accepted, and all of it if no frame was lost |
| `CmdReceive.CommandFilter.Hear` | src/mesh_espnow.cpp:765-839 | a copy passes exactly if no entry of the ring suppresses it, and is then recorded; it takes effect if the node is addressed and no phone is connected; it is acknowledged in every case |
| `CmdReceive.AtMostOnce` | src/mesh_espnow.cpp:765-839 | if all copies of a command arrive within 5000 ms, the first after time 0, and at most 32 commands are recorded meanwhile, at most one passes |
| `CmdReceive.ExactlyOnce` | src/mesh_espnow.cpp:765-839 | under the same bounds exactly one copy of a command not in the ring passes if any arrives |
| `CmdReceive.RunsAgainExactly` | src/mesh_espnow.cpp:773-788 | after a command has passed, and whatever else is heard before the next copy passes: a copy passes again if and only if it comes more than 5000 ms later, or the command came at time 0, or 32 others have been recorded since |
| `CmdReceive.FloodForgets` | src/mesh_espnow.cpp:773-788 | the last happens: from an empty ring, after 32 other commands a copy passes again even within the same millisecond |
| `CmdReceive.FirstCopyDecides` | src/mesh_espnow.cpp:765-829 | under the bounds a command takes effect once if its first copy finds the node addressed and no phone connected, and else never, though every copy is acknowledged |
| `CmdReceive.TakesEffectExactly` | src/mesh_espnow.cpp:806-829 | an enable of engine 3, 5 or 7 takes effect exactly if its payload begins with the node's id and a NUL, any other command but a denial on every node, and nothing with a phone connected |
| `CmdReceive.EnableNamesOne` | src/mesh_espnow.cpp:806-829 | of nodes with different ids exactly the one named carries out such an enable, and none if the name is cut short |
| `CmdReceive.DenialNamesOne` | src/mesh_espnow.cpp:792-804 | a denial behind an address reaches the node addressed alone, with the byte behind the address; one without an address reaches all |
| `CmdReceive.EnableStartsOne` | src/mesh_espnow.cpp:765-829 | whatever copies each node of a fleet hears, within the bounds above: such an enable starts the engine once on the node it names, and on no other |
| `CmdSend.CommandTable.Send` | src/mesh_espnow.cpp:1920-1978 | a command takes the first free slot, or slot 0 of a table emptied because it was full, and goes out once; enable, disable and disable-all get no retries |
| `CmdSend.CommandTable.Ack` | src/mesh_espnow.cpp:744-753 | an ack counts for the first slot in use with its number, which is freed when enough nodes have answered |
| `CmdSend.CommandTable.RetryPass` | src/mesh_espnow.cpp:2032-2072 | a pass retransmits each due command with a retry left and drops each due one without |
| `CmdSend.TransmittedWithinLimit` | src/mesh_espnow.cpp:1920-2072 | in every run a command is transmitted at least once and at most once plus its retries, exactly once for 0x00, 0x01 and 0x0F, and every copy carries the command as issued |
| `CmdSend.TimeOutUsesAll` | src/mesh_espnow.cpp:2040-2043 | a command dropped by time-out has used every one of its transmissions |
| `CmdSend.RetiredForGood` | src/mesh_espnow.cpp:2032-2072 | a command that has left the table is never transmitted again |
| `CmdRetry.PassSendsDue` | src/mesh_espnow.cpp:2032-2072 | a pass sends exactly one copy of each command whose last copy is 300 ms old and that has a retry left, and none of any other |
| `CmdRetry.UnansweredGoesOut` | src/mesh_espnow.cpp:2032-2072 | a command nobody acknowledges goes out once more with every pass 300 ms or more after the last until its retries are used up, and the next pass gives it up for good, whatever else is acknowledged |
| `CmdRetry.AckIsCounted` | src/mesh_espnow.cpp:744-753 | among the last 256 commands an acknowledgement is counted for the one whose number it carries, and for no other |
| `CmdRetry.AnsweredByAll` | src/mesh_espnow.cpp:744-753 | a command is done with the acknowledgement of the last node that was reachable, or the first if none was, and not before |
| `CmdRetry.FullTableForgets` | src/mesh_espnow.cpp:1920-1978 | with a slot free every command that waits goes on waiting; a full table gives up all sixteen for the new one |
| `Slicing.SliceFleet` | src/ble_gatt.cpp:219-258 | the manager's loop gives every node the share its rank among the scanning nodes determines, and the others the whole range |
| `Slicing.RadioConfigured` | src/ble_gatt.cpp:109-114 | a node's radios are those of the first entry with its id, or both if there is none |
| `Slicing.SkyIsLeast` | src/ble_gatt.cpp:146-163 | there is a drone node exactly if the roles are split and two nodes at least are live; it is one of them, and none comes before it, byte by byte |
| `Slicing.OthersGetTheRange` | src/ble_gatt.cpp:227-243 | exactly which nodes scan; the others are told the whole range |
| `Slicing.RangeExactly` | src/ble_gatt.cpp:219-221 | which first and last channel the defaults give; they are a range if and only if not (the start is 12 to 14 and the end is unusable), which would leave an end of 11 |
| `Slicing.SharesInRange` | src/ble_gatt.cpp:227-243 | every node's share is a non-empty part of the range |
| `Slicing.SharesCover` | src/ble_gatt.cpp:227-243 | every channel of the range lies in the share of a scanning node, for any number of nodes |
| `Slicing.SharesDisjoint` | src/ble_gatt.cpp:227-243 | with at most as many scanning nodes as channels, shares do not meet and differ in size by one at most |
| `WardriveNode.WardriveEngine.BuildSchedule` | src/engines/wardrive.cpp:73-161 | the loops fill the table with the range, its busy channels and, if a manager is heard, the mesh channel, each with its dwell time |
| `WardriveNode.WardriveEngine.Configure` | src/engines/wardrive.cpp:765-835 | a configuration for another node changes nothing; one for this node sets each group of settings it is long enough for and rebuilds the schedule when that matters |
| `WardriveNode.WardriveEngine.Hop` | src/engines/wardrive.cpp:721-739 | a hop tunes the next channel of the schedule, after the last the first |
| `WardriveNode.ScheduleHolds` | src/engines/wardrive.cpp:119-152 | the schedule fits its table, holds the whole range, and nothing outside it but the mesh channel |
| `WardriveSettings.SweepTakes` | src/engines/wardrive.cpp:73-161 | one sweep takes the priority time twice for each of channels 1, 6 and 11 in the range and the normal time once for each other channel; the mesh channel adds its own if the range leaves it out |
| `WardriveSettings.SettingsArrive` | src/engines/wardrive.cpp:765-817 | for a payload cut off anywhere: exactly which of the radios, the two dwell times, the two Bluetooth times and the channels arrive, each raised to its least value |
| `WardriveSettings.SweepGoesOn` | src/engines/wardrive.cpp:818-835 | a scan goes on where it is exactly if radios, dwell times and channels stay as they were; else it starts over with the new schedule |
| `WardriveNode.Broadcast` | src/ble_gatt.cpp:203-258 | a configuration without channels, or with no node live, is broadcast as it is; any other goes out as one message for each node, in order, with that node's radio and share |
| `WardriveNode.SweepTunes` | src/engines/wardrive.cpp:726-736 | from any position every channel of the schedule is tuned within one schedule's length of hops |
| `WardriveNode.MessageArrives` | src/ble_gatt.cpp:246-254 | the node a share is meant for takes exactly its channels, its radio and the four times, each raised to its least value, and schedules the channels all, if the configuration has at most 26 bytes, which is what a command carries, and no phone is connected to it; else it stays as it was |
| `WardriveNode.OthersIgnore` | src/protocol.h:91-98 | every other node ignores the command |
| `WardriveNode.OnlyOwnCounts` | src/ble_gatt.cpp:234-257 | of all the commands of the broadcast, heard in order, only its own changes a node |
| `WardriveNode.FleetSweeps` | src/ble_gatt.cpp:203-258 | whatever active nodes did before, once each has heard the whole broadcast every channel asked for is tuned within one sweep of some scanning node |
| `OdidQuant.DirectionBound` | src/opendroneid.c:165-176 | a direction comes back within half a degree, and the invalid value alone as invalid |
| `OdidQuant.SpeedBound` | src/opendroneid.c:189-199 | a speed comes back less than 0.25 m/s too low up to 63.75 m/s, less than 0.75 m/s too low above |
| `OdidQuant.SpeedCodesAgain` | src/opendroneid.c:189-199 | every speed code comes back from its own speed, but the upper scale's 0 comes back as the lower scale's 255 |
| `OdidQuant.VSpeedBound` | src/opendroneid.c:207-211 | a vertical speed comes back less than 0.5 m/s nearer to zero |
| `OdidQuant.LatLonBound` | src/opendroneid.c:222-225 | a latitude or longitude comes back within less than 1e-7 degree |
| `OdidQuant.AltitudeBound` | src/opendroneid.c:236-239 | an altitude comes back less than 0.5 m too low |
| `OdidQuant.AltitudeCodesAgain` | src/opendroneid.c:620-623 | every altitude code comes back from its own altitude |
| `OdidQuant.TimeBound` | src/opendroneid.c:250-256 | a time stamp comes back within 0.05 s, and the invalid value alone as invalid |
| `OdidMessages.BasicIdRoundTrip` | src/opendroneid.c:278-293 | a Basic ID decodes to itself with its text cut at 20 characters and padded |
| `OdidWire.BasicIdOnTheWire` | src/opendroneid.c:278-293 | the place and value of every field of a Basic ID on the wire |
| `OdidWire.LocationFlagsOnTheWire` | src/opendroneid.c:301-363 | the place of each flag, status and accuracy of a location |
| `OdidWire.LocationOnTheWire` | src/opendroneid.c:301-363 | where each measured field of a location stands, in which unit, and how close it is |
| `OdidWire.LocationRead` | src/opendroneid.c:569-735 | what a receiver reads from any 25 bytes as a location |
| `OdidWire.AuthOnTheWire` | src/opendroneid.c:372-411 | the place of each field of an authentication page, the first and a later one |
| `OdidWire.SelfIdOnTheWire` | src/opendroneid.c:420-430 | the place of each field of a Self ID |
| `OdidWire.SystemOnTheWire` | src/opendroneid.c:439-477 | where each field of a system message stands, in which unit, and how close it is |
| `OdidWire.SystemRead` | src/opendroneid.c:814-841 | what a receiver reads from any 25 bytes as a system message |
| `OdidWire.OperatorIdOnTheWire` | src/opendroneid.c:486-497 | the place of each field of an Operator ID |
| `OdidMessages.SelfIdRoundTrip` | src/opendroneid.c:420-430 | a Self ID decodes to itself with its text cut at 23 characters and padded |
| `OdidMessages.OperatorIdRoundTrip` | src/opendroneid.c:486-497 | an Operator ID decodes to itself with its text cut at 20 characters and padded |
| `OdidMessages.AuthRoundTrip` | src/opendroneid.c:372-411 | an authentication page passes the decoder's own length check; page 0 comes back with its 17 bytes, a later page with its 23, other fields as they were |
| `OdidMessages.LocationRoundTrip` | src/opendroneid.c:301-363 | every bit field and word of a location message decodes to the quantised value that was encoded there |
| `OdidMessages.LocationClose` | src/opendroneid.c:301-363 | a location that has been through the wire keeps its flags and has each measured field within its quantum |
| `OdidMessages.LocationStable` | src/opendroneid.c:301-363 | a location once received can be sent on and is then received unchanged |
| `OdidMessages.SystemRoundTrip` | src/opendroneid.c:439-477 | every field of a system message decodes to the quantised value that was encoded there |
| `OdidMessages.SystemClose` | src/opendroneid.c:439-477 | a system message that has been through the wire has each measured field within its quantum and the rest unchanged |
| `OdidControl.CheckContent` | src/opendroneid.c:506-533 | the counting loop accepts exactly packs of 1 to 9 messages, none a pack or unknown, within the limit for each kind |
| `OdidControl.ContentExactly` | src/opendroneid.c:506-533 | exactly which packs pass: one to nine messages of the six kinds, at most two ids, one location, sixteen pages, and one of each other kind |
| `OdidControl.PackIsFold` | src/opendroneid.c:866-881 | the mutually recursive decoders end on every input; an accepted pack decodes to the fold of the single-message decoder over its messages, a refused one changes nothing |
| `OdidControl.NoNestedPacks` | src/opendroneid.c:866-881 | every message of an accepted pack goes straight to the single-message decoder: the recursion is one level deep |
| `OdidPack.GatheredIsReceived` | src/wifi.c:223-290 | decoding the messages the builder takes gives every part that was valid and encodable as the decode of its encoding, the ids in the first free slots, and nothing else |
| `OdidWire.GatherExactly` | src/wifi.c:223-290 | exactly which messages the builder takes, in order, and exactly when it fails: a valid part, even one that cannot be encoded, is met with nine taken |
| `OdidWire.IdentificationKept` | src/opendroneid.c:936-951 | an id goes to the first of the two slots that is empty or of its type, and is refused if neither is |
| `OdidWire.PageKeptExactly` | src/opendroneid.c:960-971 | a page is kept under its number, unless it is page 0 and claims sixteen pages or more, or more bytes than its pages hold |
| `NanCodec.UasData.KeepBasic` | src/opendroneid.c:936-951 | an id is stored in the first slot that is free or holds its type |
| `NanCodec.UasData.KeepAuth` | src/opendroneid.c:960-971 | a page is stored under its own number, unless page 0 claims more data than its pages hold |
| `NanCodec.UasData.DecodeMessage` | src/opendroneid.c:928-1007 | the structure filled in place is what the specification of the decoder says |
| `NanCodec.UasData.DecodePack` | src/opendroneid.c:866-881 | the loop over the pack, in place, is what the specification of the pack decoder says |
| `NanCodec.Collect` | src/wifi.c:229-276 | the builder's sequence of checks gathers the messages of the specification, or fails on a tenth valid part |
| `NanCodec.BuildPack` | src/wifi.c:223-290 | the pack is written at the cursor with its exact size, or the buffer is left as it was and the error told |
| `NanCodec.BuildFrame` | src/wifi.c:375-454 | the frame written behind the moving cursor, its two length fields patched in afterwards, is the frame of the specification, or the reason it could not be built |
| `NanCodec.ReceiveFrame` | src/wifi.c:538-632 | the receiver's walk over headers, pack and trailer gives the verdict of the specification |
| `NanFrame.OutsideExactly` | src/wifi.c:538-582 | the receiver's answer depends on bytes behind the frame if and only if the frame ends less than seven bytes behind valid headers and none of the bytes that are there refuses the pack |
| `NanFrame.GatheredBounded` | src/wifi.c:229-276 | what the builder gathers always passes the content check of the pack encoder and of the receiver |
| `NanFrame.FrameAccepted` | src/wifi.c:538-632 | the frame of any messages that pass the content check is accepted, with the sender's address and their fold as the data |
| `OdidWire.FrameOnTheWire` | src/wifi.c:375-454 | the frame built, byte by byte as the specification lays it out |
| `OdidWire.AcceptsExactly` | src/wifi.c:538-632 | the receiver accepts exactly the frames that carry, as the specification lays it out, a pack whose messages pass the content check, and reports the sender and the fold of the messages |
| `OdidWire.NoMemoryExactly` | src/wifi.c:601-615 | the one other refusal is for a frame that is right but ends one byte before its trailer does |
| `NanFrame.NanRoundTrip` | src/wifi.c:375-632 | for any data with 1 to 9 encodable messages, ids of different types and pages at their own index: the receiver accepts the frame built, reports the sender, and holds each part sent as the decode of its encoding and nothing else |
| `NanCodec.Exchange` | src/wifi.c:375-632 | the builder and the receiver, one after the other, do so on a real buffer of any sufficient size |
| `Spool.SpoolStore.FindSlot` | src/det_spool.cpp:43-51 | the search finds the first slot of an engine and address, if there is one |
| `Spool.SpoolStore.OldestSlot` | src/det_spool.cpp:53-64 | the search finds the first slot of the least timestamp |
| `Spool.SpoolStore.Record` | src/det_spool.cpp:112-136 | a sighting refreshes its key's slot, or takes a new one, or replaces the oldest and counts a drop, with both counters saturating |
| `Spool.SpoolStore.Reset` | src/det_spool.cpp:154-161 | a clear empties the table, the drop count and the file |
| `Spool.SpoolStore.FlushIfDirty` | src/det_spool.cpp:163-170 | a table that changed is written out, as far as the disk takes it, when the last write is five seconds old; it counts as written all the same, even if the file does not open |
| `Spool.SpoolStore.constructor` | src/det_spool.cpp:96-107 | boot reads the table back from the file: nothing without a full header of the right magic, else as many slots as it announces, there are, and there is room for |
| `Spool.ReloadsWhatWasWritten` | src/det_spool.cpp:66-107 | after a write that stopped anywhere the next boot finds nothing, if the header is missing, or else the drop count and exactly the slots that were written and have room; all slots come back if and only if all were written |
| `Spool.LoadsOnlyItsOwn` | src/det_spool.cpp:66-107 | of a file without the spool's magic number a boot finds nothing; else slot by slot those announced, present, and with room |
| `Spool.ClearStartsOver` | src/det_spool.cpp:154-161 | a clear, whatever was in the table, starts the history of the next results |
| `Spool.SpoolIsFaithful` | src/det_spool.cpp:112-136 | after any sightings since a clear: keys are distinct and within the size, each slot holds its key's latest sighting and the saturating count since its insertion, and insertions equal slots plus drops until that count saturates |
| `Spool.EvictsAnOldest` | src/det_spool.cpp:128-134 | an eviction replaces a slot no other slot is older than, and nothing else |
| `Spool.JustRecorded` | src/det_spool.cpp:112-136 | the sighting just recorded is in the table |
| `Spool.FewKeysLoseNothing` | src/det_spool.cpp:112-136 | with no more keys than slots nothing is dropped and every count is exact |
| `Crc.BranchFreeIsShift` | src/wifi_ota_handler.cpp:424 | the branch-free CRC step equals the branching one for every register |
| `Crc.ByteIsEightBits` | src/ota_handler.cpp:37-48 | mixing in a byte and shifting eight times equals feeding a serial register its eight bits in order |
| `CrcPoly.PolyIsGenerator` | src/ota_handler.cpp:37-48 | the constant of the code is the generator polynomial of the standard, given by its fifteen exponents |
| `CrcPoly.SumIsRemainder` | src/ota_handler.cpp:37-48 | for any data the sum is the complement of the remainder of the division, by that polynomial, of the bits as they are sent, moved up by 32 powers and with the first 32 complemented |
| `Crc.StepByte` | src/wifi_ota_handler.cpp:423-424 | the inner loop without branches computes the CRC step of a byte |
| `Crc.StepByteBranching` | src/ota_handler.cpp:39-46 | the inner loop with branches computes the same step |
| `Staging.Stager.PutByte` | src/wifi_ota_handler.cpp:421-432 | a byte joins the sector buffer and the CRC; a full buffer goes to flash; nothing taken so far is lost |
| `Staging.Stager.PutTail` | src/wifi_ota_handler.cpp:434-442 | the last part of a sector, padded to a multiple of four, completes the image in flash |
| `Staging.TakenIsShortest` | src/wifi_ota_handler.cpp:411-430 | the download takes whole reads up to the first that brings the announced size, or to the end of the stream |
| `Staging.Stager.Stage` | src/wifi_ota_handler.cpp:372-455 | staging succeeds if and only if the size is usable, the stream delivers that many bytes and every erase and write works; the partition then starts with exactly those bytes and the sum reported is their CRC-32, for any read sizes |
| `BleUpdate.Handler.HandleStart` | src/ota_handler.cpp:62-112 | a START of nine bytes replaces any session; it is refused if the image is larger than the partition or the driver fails |
| `BleUpdate.Handler.HandleData` | src/ota_handler.cpp:114-155 | DATA is appended, its CRC and count with it, unless it exceeds the declared length or a write fails, which ends the session |
| `BleUpdate.Handler.HandleCommit` | src/ota_handler.cpp:157-202 | COMMIT boots the image only if count and CRC are as declared and the driver agrees; it always ends the session |
| `BleUpdate.SessionIsLastStart` | src/ota_handler.cpp:62-155 | in every run a session under way was declared by the last START and holds exactly the DATA payloads since |
| `BleUpdate.CommitIsChecked` | src/ota_handler.cpp:114-202 | in every run an image boots only if the DATA payloads since the last START, put together, have the length and CRC-32 it declared |
| `BleUpdate.TransferCommits` | src/ota_handler.cpp:62-202 | from any state an image sent whole, in packets of any size, commits |
| `BleUpdate.StartIsAnswered` | src/ota_handler.cpp:62-112 | a START with length and sum, lowest byte first, is refused if the length exceeds the partition or the driver fails, which leaves no session; else a session of that length and sum begins |
| `BleUpdate.IgnoredExactly` | src/ota_handler.cpp:62-202 | exactly which packets do nothing and get no answer |
| `BleUpdate.AliveExactly` | src/ota_handler.cpp:62-202 | in every run a session is under way exactly if the last START was accepted and no packet since ended it |
| `BleUpdate.BootsExactly` | src/ota_handler.cpp:157-202 | in every run a COMMIT boots exactly if a session is under way whose data have the length and CRC-32 declared and the driver ends and switches; else the answer says which of these failed |

## Left out

- PcapCapture.Split: at a claimed record length that wraps the code's 32-bit cursor the model stops with `None`; the code goes on from an earlier position. Drained blocks never contain one.
- PcapManager.Reassembler.AddFragment: whether capture is wanted is a parameter; the runs of `PcapFragments` and `PcapPipeline` hold the packets heard while it is.
- PcapManager.ReasmSlot.AcceptFragment: the 32-bit mask of fragments received is an array of 32 flags.
- NanCodec.ReceiveFrame: a frame cut off within seven bytes behind the headers, where the room computed wraps modulo 2^32, is judged by the bytes it has; if none of them refuses the pack the verdict is `Outside`, and what the code then answers depends on memory behind the frame.
- OtaNode.Receiver.HandleBegin: a begin the flash driver refuses leaves the slot as it was; the next one accepted erases it in any case.
- OdidQuant.LatLonBound: over the reals; rounding of float and double is not modelled, nor are NaN and infinity. The same holds of the other quantisers.
- OdidMessages.LocationRoundTrip: the accuracy enumerations are plain numbers, and the helpers that map metres to them are not modelled.
- CmdReceive.AtMostOnce: a sequence byte is assumed not to be used again by the same sender within the copies considered.
- PcapFragments.ReassemblySafety: a node's 16-bit record number is assumed not to be used again within the run.
- PcapPipeline.CaptureToManager: one node sending, fewer than 65536 records offered, and a link that keeps the order of what it does not lose.
- WardriveNode.FleetSweeps: every node hears every command of the broadcast and none has a phone connected; whether a due hop is deferred by other engines or the mesh window is not modelled.
- WardriveNode.WardriveEngine.BuildSchedule: single-band boards only; the schedule of dual-band boards is not modelled.
- DetBatch.Batcher.Flush: putting the record in hand back to the front of the queue always finds room, since the flush is one atomic step.
- Spool.SpoolStore.FlushIfDirty: the file is a header and a list of whole slots, either of which a short write may cut; the byte layout of a slot and a slot written in part, which a read ignores, are not modelled.
- Spool.SpoolIsFaithful: for sightings after a clear; slots loaded from a file at boot are covered by the operations, not by this account.
- EngineRegistry.EngineTable.StartEngine: start, stop and configuration callbacks are modelled by their effect on the registry (the foxhunter stopping engines, the capture coming up or failing) and nothing else.
- BleUpdate.Handler.HandleData: the progress notification every 16 KB and the sequence numbers, which the code only logs, are not modelled.
- RegistryCaptures.CaptureKeepsRadio: only until such a start is written to the capture's configuration.
- PcapPhone.IndicationsSpaced: for wake-ups in between that come no later than the second indication, as a clock has it.
- CmdRetry.AnsweredByAll: unless another command still waits under the same byte, which takes 256 commands.
- WardriveNode.Broadcast: the list of live nodes, and the radio masks, are parameters.
- Staging.Stager.Stage: connection, redirects and the time-out appear only as the end of the stream; a failing write leaves flash as it was.
- AES-GCM in `encryptPacket` and `decryptPacket` is the identity; boot enables the mesh in plaintext.
- Preemption between tasks: each handler, drain, tick and retry of a slot is one atomic step, and a drained buffer is taken as a snapshot.
- Wrap-around of `millis()` over 49 days, except where the code subtracts counters unsigned.
- The command health table, ack de-duplication on the manager, heartbeats, invitations and time slicing of the mesh.
- Global band switching and the desired-state relay (`engineApplyWifiBand`, `engineStateConfigApply`), and deny masks pushed by the manager's fan-out.
- NAN sync beacons, Wi-Fi beacons carrying packs, and the JSON export of drone data.
- Device matching (OUI, name and UUID predicates), buzzer, LED, GPS, ignore list and watch list, logging and self-tests, and the companion apps.
