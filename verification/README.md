# Remote BSP: verified models of its motion engines, protocol stack, leases and bus admission

Remote BSP lets a host drive the pins, serial ports and stepper axes of remote nodes over CAN. This project models the
parts of it whose correctness is least obvious from the code, and proves what they promise:

- **Firmware motion** (`FirmwareMotion*.dfy`): the bounded ring of timed segments and the division-free DDA of
  `firmware/src/motion.c`. The DDA is shown to refine exact interpolation without leaving 64 bits, edges are conserved in
  every run, displacement is exact under an exact condition, and a program is safe on every punctual timer if and only if
  its segments can carry the lag that is handed on to them; then it completes. Limit switches and failing outputs stop a
  move exactly when they should, and every answer of enqueue is characterised.
- **Mock motion executor** (`MockMotion*.dfy`): the event timeline of `mock_mcu/src/motion_executor.cpp`. Edge times are
  exact, pulses are spaced within a move and across a whole queue under exact conditions, advancing in pieces is advancing
  once, the edges that are returned replay to the state of the outputs, an advance ends idle, starved or under way exactly
  as its newest segment says, and no step that was accepted is lost on the way.
- **Wire format** (`Words`, `Crc32`, `Crc32Machine`, `PacketCodec`, `WireFormat`, `FirmwarePackets`): packets round-trip both
  ways, every byte has its place and every malformed input its error, and damage confined to four neighbouring bytes of one
  field region never survives decoding. The CRC on bits is the CRC on the sources' machine words.
- **Fragments** (`Fragmentation`, `Reassembly`, `FragmentAnswers`, `FragmentDelivery`, `FirmwareFrames`,
  `FirmwareReassembly`, `FirmwareAnswers`, `FirmwareDelivery`, `FirmwareSlots`): the host's reassembler delivers a packet
  exactly once in any order, the firmware's slots rebuild it in order, each side understands what the other sends, and
  every frame, whatever is in it, has its answer.
- **Requests** (`Requests`, `RequestAnswers`, `RequestFate`, `RequestManagers`, `NodeCache`, `NodeAnswers`, `MockNodes`,
  `FirmwareCache`, `FirmwareCacheAnswers`, `ReliableDelivery`, `ReliableAnswers`, `FramedDelivery`): the host's retries, the
  node's response caches, and both joined by a network that loses, repeats and reorders packets, and by one that does so to
  their fragments.
- **Leases** (`Leases`, `LeaseInvariants`, `LeasePasses`, `LeaseRuns`, `LeaseGuarantees`, `LeaseAnswers`, `RemoteCores`):
  shared and exclusive leases, the objects owned through them, the answer to every command, and the rule that motion runs
  only while one session holds every axis.
- **Bus admission** (`BitStuffing`, `Traffic`, `TrafficAnswers`, `FdFrames`, `TrafficControllers`): the worst-case cost of a
  frame, the token buckets, and which packets are admitted.

`FixedWidth`, `NonlinearFacts`, `Sequences` and `Results` hold the integer widths, a few facts about products and
quotients, distinctness of sequences, and the outcome types that stand for exceptions.

Code that updates state in place is written twice: as functions from state to state, about which the lemmas speak, and as
a class whose methods do what the source does and are proved to follow those functions, call by call. The lemmas whose
names end in `Exactly` say of such a function what it answers and changes in every case, on the fields of the state alone.

## How the models read

- Integers are the subset types `u8` to `u64` and `i32`; where the source can wrap around, `Wrap32` and `Wrap64` are
  written out. The CRC is computed on words that are sequences of 32 bits.
- C++ exceptions are `Err` outcomes. Constructors that throw have a `Create...` or checking method beside them.
- Clocks, driver answers, pin levels read from outside and the payloads of commands are parameters.
- The iteration order of hash maps is a parameter of the functions and a ghost result of the methods, so every order is
  covered.

## What turned out not to hold

- `rbsp_motion_enqueue` arms a running queue again (`firmware/src/motion.c:123`), and the next tick starts the segment
  over. `FirmwareMotionDisplacement.RunDisplacement` says over the events of every run exactly when displacement is right,
  and `FirmwareMotionLimits.EnqueueWhileRunningMovesTooFar` gives a run in which a segment of two steps moves three.
- `duration + 1e9 / HZ` in the lateness test (`firmware/src/motion.c:364-371`) can wrap for durations within one timer period
  of 2^64 nanoseconds. Exactly then a punctual timer can stop a segment before its end: `FirmwareMotionPunctual.EarlyStopIsWrap`
  for each tick, `FirmwareMotionPunctual.OneSegmentExactly` for whole programs of one segment,
  `FirmwareMotionLimits.LateCheckWraps` a run.
- A tick completes at most one segment and makes at most one step an axis, so segments shorter than a timer period hand a
  lag on, which can end in a false underrun (`FirmwareMotionLimits.ShortSegmentsFallBehind`,
  `FirmwareMotionPunctual.CrowdedDoesNotKeepUp`).
  `FirmwareMotionPunctual.KeepsUpExactly` gives the condition, which can be computed from the durations and step counts
  before the program is armed.
- The executor's constructor does not ask for `direction_setup_ns <= minimum_step_low_ns`; without it an admitted move can
  raise its line too early (`MockMotionTiming.LongSetupCrowdsPulses`), and with a setup time below the minimum low time
  the line is low too briefly between two segments. `MockMotionTiming.SpacedExactly` and
  `MockMotionSeams.QueueSpacedExactly` give the exact conditions.
- An abort at the very moment of a rise returns the fall that stops it before the rise, so that its edges do not replay
  to the state of the outputs (`MockMotionReplay.AbortAtARiseReplaysWrongly`).
  `MockMotionReplay.AbortReplaysExactly` gives the exact condition, on the moves that are queued before the call.
- The CAN-FD estimate spares nominal bits and lacks data bits, so it covers every frame while the data rate is not below the
  arbitration rate (`FdFrames.FdFrameCovered`), but the configuration may ask for a lower one
  (`FdFrames.SlowDataRateFallsShort`). `FdFrames.FdFrameCoveredExactly` gives the exact condition.
- The firmware does not remember an answer that is longer than a cache entry (`firmware/src/core.c:270-272`), so the repeat
  of such a request is executed again: `FirmwareCache.LongPingExecutesAgain` for a ping of 232 bytes,
  `FirmwareCache.ExecutesAgainExactly` for the exact condition in every run.

## Model

| member | source | states |
|---|---|---|
| FirmwareMotionRing.RunKeepsRing | firmware/src/motion.c:56-196 | In every run of enqueues, ticks, aborts, fault clearings and completions, with any clock and any driver failures: queued segments have consecutive sequence numbers and gap-free times, only the newest may be final, the queue is non-empty exactly when armed or running, faulted exactly when a fault is latched, and accepted segments are the completed, the discarded and the queued ones |
| FirmwareMotionDda.ServedArithmeticFits | firmware/src/motion.c:318-337 | With a clock that does not run backwards, steps times tick gap and phase plus increment fit in 64 bits, the overflow branch is unreachable and a full phase implies an owed step |
| FirmwareMotionDda.RunRefinesInterpolation | firmware/src/motion.c:265-355 | In every run with a monotone clock, each axis of a running segment satisfies emitted * duration + phase == steps * elapsed, so it never runs ahead of exact interpolation |
| FirmwareMotionDda.EmittedIsInterpolated | firmware/src/motion.c:318-350 | That equation bounds the emitted count by floor(steps * elapsed / duration), with equality exactly when the phase is below one duration |
| FirmwareMotionDda.FineRunIsExact | firmware/src/motion.c:318-350 | Once no tick gap since the running segment was last armed holds more than one step of an axis, the emitted count of that axis equals the interpolated count, whatever happened before and to the other axes |
| FirmwareMotionEdges.RunConservesEdges | firmware/src/motion.c:215-355 | In every run, driver failures included, emitted edges are twice the emitted steps less the STEP lines still high, modulo 2^64 |
| FirmwareMotionEdges.FaultedTickIsSafe | firmware/src/motion.c:215-372 | Every tick that ends in a fault leaves every STEP line low and every axis disabled, wherever in the tick the fault arose |
| FirmwareMotionStops.SwitchStopsEverything | firmware/src/motion.c:241-256 | For a board with switches and a queue without a fault: if the first axis whose switch does not answer, or is active while a segment runs, does not answer, the tick fails and aborts; if it is active, the tick stops the move on its limit; either way the queue is empty and every output off |
| FirmwareMotionStops.OtherSwitchesDoNothing | firmware/src/motion.c:241-256 | Without such an axis the tick is that of a board without switches |
| FirmwareMotionStops.OutputFailureStops | firmware/src/motion.c:265-355 | For a queue on the monotone clock and no switches, a tick that serves a segment fails if and only if a direction, enable or STEP output that it needs does not work, and then it aborts with every output off |
| FirmwareMotionStops.IdleTickKeepsOff | firmware/src/motion.c:236-263 | A tick of a faulted or of an empty queue turns every output off and changes nothing else |
| FirmwareMotionStops.WaitsForStart | firmware/src/motion.c:257-264 | An armed queue does nothing before its first segment's start |
| FirmwareMotionEndings.TickEnds | firmware/src/motion.c:355-372 | Every tick that serves a segment and whose outputs work completes it if and only if its time is over and every axis had made its steps before, with an idle queue after a final one, an underrun after any other that is alone and the next one armed else; it gives it up if and only if the lateness limit is past; else the segment runs on |
| FirmwareMotionAdmission.EvenRateExactly | firmware/src/motion.c:29-43 | For an even timer frequency the step limit is the exact quotient, or the largest number if that leaves 64 bits |
| FirmwareMotionAdmission.EnqueueExactly | firmware/src/motion.c:56-140 | Every answer to an enqueue by the first requirement that is not met, and everything that an accepted segment changes |
| FirmwareMotionAdmission.AcceptedIsTimely | firmware/src/motion.c:16-27 | An accepted segment starts no earlier than the lead time from now and where the last one ends |
| FirmwareMotionAdmission.ClearFaultExactly | firmware/src/motion.c:187-196 | A fault is cleared if and only if nothing is queued, and the next segment may then start from now |
| FirmwareMotionDisplacement.CompletedDisplacement | firmware/src/motion.c:142-169 | A completed segment moves each axis by its signed steps plus, in the same direction, whatever it had emitted before it was armed again |
| FirmwareMotionDisplacement.RunDisplacement | firmware/src/motion.c:115-372 | In every run a completed segment has moved an axis, since it came to the front, by exactly its signed steps if and only if no enqueue was accepted while it was running and had emitted steps of that axis |
| FirmwareMotionDisplacement.LossIsRearming | firmware/src/motion.c:115-126 | A step of the queue loses the emitted steps of the front segment exactly when it is an enqueue accepted while that segment runs and has emitted some |
| FirmwareMotionTimer.AdmittedRate | firmware/src/motion.c:29-43 | The admission limit keeps the steps of a segment two timer periods apart on average |
| FirmwareMotionTimer.TimerTick | firmware/src/motion.c:231-372 | One punctual tick with working outputs and no active limit succeeds and keeps the timer invariant, with the bound on the lag that the next segment inherits, unless the queue runs dry |
| FirmwareMotionTimer.LongSegmentsKeepUp | firmware/src/motion.c:29-43 | Admitted segments of at least one timer period each keep up with any lag of up to two periods and hand on no more |
| FirmwareMotionTimer.OneSegmentKeepsUp | firmware/src/motion.c:29-43 | An admitted segment of any length bears a lag of up to two periods |
| FirmwareMotionTimer.TimerProgramCompletes | firmware/src/motion.c:292-372 | On a timer that keeps its rate, a program of admitted segments that ends in a final one, keeps up with its lag and has no wrapping lateness limit meets no fault and no stop, and once its deadline has passed it is complete with every axis moved by the sum of its signed steps |
| FirmwareMotionPunctual.KeepsUpExactly | firmware/src/motion.c:292-372 | For every armed program that ends in a final segment: no timer that keeps its rate makes it fault if and only if each of its segments with steps can bear the lag that those before it hand on |
| FirmwareMotionPunctual.CrowdedDoesNotKeepUp | firmware/src/motion.c:357-371 | The condition fails for a concrete program of very short segments, and a punctual timer makes it fault |
| FirmwareMotionPunctual.OneSegmentExactly | firmware/src/motion.c:357-371 | For every program of one final segment: no timer that keeps its rate makes it fault if and only if its lateness limit does not wrap |
| FirmwareMotionPunctual.EarlyStopIsWrap | firmware/src/motion.c:364-371 | A tick stops a segment before its end if and only if the sum behind the lateness limit has wrapped and the elapsed time is past what is left of it |
| FirmwareMotionPunctual.LateStopIsLate | firmware/src/motion.c:364-371 | If it does not wrap, a tick stops a segment that is not complete if and only if it comes more than one period after its end |
| FirmwareMotionLimits.EnqueueWhileRunningMovesTooFar | firmware/src/motion.c:123-126 | A concrete run in which accepting a segment during another one makes that one move too far |
| FirmwareMotionLimits.LateCheckWraps | firmware/src/motion.c:357-371 | A concrete segment whose lateness limit wraps, so that a punctual second tick stops it |
| FirmwareMotionLimits.ShortSegmentsFallBehind | firmware/src/motion.c:357-371 | A concrete program of very short segments that a punctual timer ends in a false underrun |
| FirmwareMotionQueue.MotionQueue.Enqueue | firmware/src/motion.c:56-140 | The ring in place: the answer and the new state of the queue are those of the enqueue function, whatever the position of the head |
| FirmwareMotionQueue.MotionQueue.CompleteFront | firmware/src/motion.c:142-169 | Popping the ring's front is dropping the first queued segment, with the mode that follows |
| FirmwareMotionQueue.MotionQueue.Abort | firmware/src/motion.c:171-185 | Aborting empties the ring, counts what it drops and latches the fault |
| FirmwareMotionQueue.MotionQueue.ClearFault | firmware/src/motion.c:187-196 | A fault is cleared only when nothing is queued |
| FirmwareMotionQueue.MotionQueue.StopOutputs | firmware/src/motion.c:215-229 | Every output is off afterwards and the edge counter counts the lines that were high |
| FirmwareMotionQueue.MotionQueue.Tick | firmware/src/motion.c:231-372 | One timer interrupt follows the tick function for any driver behaviour, keeps the queue invariant and the edge count, and leaves the outputs off if it ends faulted |
| MockMotionTiming.InterpolateExact | mock_mcu/src/motion_executor.cpp:38-46 | The split product and quotient is exactly floor(span * index / denominator), with nothing leaving 64 bits |
| MockMotionTiming.RateExact | mock_mcu/src/motion_executor.cpp:48-65 | The rate check is exactly steps * 1e9 <= rate * duration, with nothing leaving 64 bits |
| MockMotionTiming.EdgeTimesExact | mock_mcu/src/motion_executor.cpp:386-424 | Every rise of an accepted move is at its interpolated place between the setup time and one pulse before the end, and its fall one pulse later, by the end |
| MockMotionTiming.RisesStrictlyAscend | mock_mcu/src/motion_executor.cpp:386-424 | The rises of an accepted move come in strictly increasing order, and so do its falls |
| MockMotionTiming.SpacedExactly | mock_mcu/src/motion_executor.cpp:177-199 | Consecutive rises are a pulse and a low time apart if and only if the periods fit between the first and the last rise |
| MockMotionTiming.AdmittedPulsesSpaced | mock_mcu/src/motion_executor.cpp:177-199 | When the setup time is at most the minimum low time, every accepted move keeps its rises a pulse and a low time apart |
| MockMotionTiming.LongSetupCrowdsPulses | mock_mcu/src/motion_executor.cpp:86-112 | A configuration the constructor accepts and a move enqueue accepts whose rises are too close |
| MockMotionSeams.SeamExactly | mock_mcu/src/motion_executor.cpp:386-424 | Between a segment of more than one step and the next one with steps the line is low for the setup time and whatever lies between, so the minimum low time holds there if and only if that is enough; after a single step it always holds |
| MockMotionSeams.QueueSpacedExactly | mock_mcu/src/motion_executor.cpp:163-199 | Over any sequence of accepted segments the pulses of an axis keep their minimum low time throughout if and only if every move fits its segment and every seam the setup time |
| MockMotionSeams.EqualSetupFits | mock_mcu/src/motion_executor.cpp:86-112 | With a setup time equal to the minimum low time, whatever is accepted satisfies that |
| MockMotionSorting.OrderExactly | mock_mcu/src/motion_executor.cpp:19-36 | Edges go by time; at one moment lines fall before any other kind of edge and rise after any other, axes are enabled before directions change, and edges of a kind go by axis |
| MockMotionSorting.CountRisesExactly | mock_mcu/src/motion_executor.cpp:434-453 | The step counter goes up by the number of edges that raise a line |
| MockMotionSorting.SortForced | mock_mcu/src/motion_executor.cpp:26-36 | Edges without ties have one sorted arrangement, so any correct sort gives the model's order |
| MockMotionEdges.RawEdgesTieFree | mock_mcu/src/motion_executor.cpp:361-430 | No two different edges of a segment tie in the edge order |
| MockMotionAdvance.AdvanceAdds | mock_mcu/src/motion_executor.cpp:214-267 | Advancing to t1 and then to t2 gives the state and the concatenated edges of advancing to t2 at once, across any number of segments, a final stop or an underrun |
| MockMotionEndings.AdvanceEnds | mock_mcu/src/motion_executor.cpp:214-267 | For every queue and every later time: once the newest segment has ended everything is completed, and the executor is idle without a fault after a final segment, or faulted by an underrun, with both counters one up, after any other; before that nothing is faulted and exactly the segments that have ended are completed |
| MockMotionProgress.AdvanceMoves | mock_mcu/src/motion_executor.cpp:361-453 | An advance of any length and ending keeps, for every axis, its position plus the signed steps still queued, and while a segment runs every axis that moves in it is enabled and set to its direction |
| MockMotionProgress.EnqueueMoves | mock_mcu/src/motion_executor.cpp:115-212 | An accepted segment adds its signed steps to where each axis will be |
| MockMotionAdvance.AdvanceKeepsInv | mock_mcu/src/motion_executor.cpp:214-267 | Advancing keeps queue, mode and fault in agreement and never changes the axes' configuration |
| MockMotionSafety.AbortStops | mock_mcu/src/motion_executor.cpp:269-288 | An abort is refused exactly for a fault no caller may give, over a latched fault or at a time gone by; else it latches the given fault even over an underrun on the way, and leaves nothing queued, every line low and every axis disabled, at the positions that the advance had reached |
| MockMotionSafety.LimitExactly | mock_mcu/src/motion_executor.cpp:290-295 | A limit on an axis of the executor is counted and aborts; on any other it is an error and counted as a rejection |
| MockMotionSafety.RunIsSafe | mock_mcu/src/motion_executor.cpp:115-305 | In every state that operations reach, successful or refused, all outputs are off whenever nothing is queued or a fault is latched |
| MockMotionReplay.AdvanceReplays | mock_mcu/src/motion_executor.cpp:214-267 | The edges of an advance, across any number of segments and endings, are in order, are counted, and applied to the outputs as they were give the outputs as they are |
| MockMotionReplay.RunReplays | mock_mcu/src/motion_executor.cpp:115-305 | That holds after any operations from a valid configuration, successful or refused |
| MockMotionReplay.AbortReplaysExactly | mock_mcu/src/motion_executor.cpp:281-287 | The edges of an abort replay to the state of the outputs if and only if none of the moves queued before the call has a rise yet to come at the moment of the abort |
| MockMotionReplay.AbortAtARiseReplaysWrongly | mock_mcu/src/motion_executor.cpp:281-287 | A concrete accepted segment and abort time at which they do not |
| MockMotionAdvance.EnqueueKeepsInv | mock_mcu/src/motion_executor.cpp:115-212 | Accepted segments extend a gap-free chain of admitted moves within the capacity |
| MockMotionAdmission.MoveAllowedExactly | mock_mcu/src/motion_executor.cpp:48-65 | A move is allowed if and only if it has no steps, or its rate is within the axis's maximum and setup, pulses and low times fit the duration |
| MockMotionAdmission.EnqueueExactly | mock_mcu/src/motion_executor.cpp:115-212 | Every answer to an enqueue: the error of the schedule, else that of the first bad move, else the segment with the start it asked for or the first possible one |
| MockMotionAdmission.ClearFaultExactly | mock_mcu/src/motion_executor.cpp:297-305 | A fault is cleared if and only if nothing is queued |
| MockMotionDisplacement.CompletedSegmentMoves | mock_mcu/src/motion_executor.cpp:361-453 | A segment served from its start past its end moves the axis of each of its moves by exactly its signed steps |
| MockMotionExecutor.ConfigurationValid | mock_mcu/src/motion_executor.cpp:74-113 | The constructor's checks accept exactly the valid configurations |
| MockMotionExecutor.MotionExecutor.Enqueue | mock_mcu/src/motion_executor.cpp:115-212 | The executor in place follows the enqueue function: every check in its order, and the new state |
| MockMotionExecutor.MotionExecutor.AdvanceTo | mock_mcu/src/motion_executor.cpp:214-267 | The loops over moves, edges and segments return the edges and leave the state of the advance function |
| MockMotionExecutor.MotionExecutor.Abort | mock_mcu/src/motion_executor.cpp:269-288 | Abort advances, stops every output and returns all edges in order |
| MockMotionExecutor.MotionExecutor.TriggerLimit | mock_mcu/src/motion_executor.cpp:290-295 | A limit on a known axis counts and aborts; on an unknown axis it is rejected |
| Words.BytesRoundTrip | protocol/src/packet.cpp:16-33 | A word written as four bytes and read back is the same word |
| Crc32.Compute | protocol/src/crc32.cpp:5-16 | The nested loops compute the CRC function |
| Crc32.Advance | firmware/src/core.c:105-116 | The firmware's streaming form computes the same function from any state |
| Crc32.ShiftInjective | protocol/src/crc32.cpp:9-13 | The bit step loses nothing: the polynomial's top bit gives the dropped bit back |
| Crc32Machine.ShiftIsTurn | protocol/src/crc32.cpp:9-13 | The bit step on sequences of bits is the shift and mask of the source on 32-bit machine words |
| Crc32Machine.ChecksumOnMachine | protocol/src/crc32.cpp:5-16 | For every message the CRC function has the bits that those machine words compute |
| Crc32Machine.KnownValue | tests/protocol_tests.cpp:46-50 | The checksum of the digits from one to nine is 0xCBF43926 |
| Crc32.BurstChangesChecksum | protocol/src/crc32.cpp:5-16 | Two inputs that differ only within four neighbouring bytes have different checksums |
| PacketCodec.DecodeEncode | protocol/src/packet.cpp:58-135 | Decoding an encoded packet gives it back, with its length and CRC filled in |
| PacketCodec.EncodeDecode | protocol/src/packet.cpp:58-135 | Whatever decode accepts is exactly what encode produces for it |
| PacketCodec.DecodeAcceptsEncodings | protocol/src/packet.cpp:91-135 | Decode accepts the encodings and nothing else |
| WireFormat.PacketLayout | protocol/src/packet.cpp:58-89 | Where an encoded packet has each field, lowest byte first, the checksum of all other bytes, and the payload |
| WireFormat.EncodeErrors | protocol/src/packet.cpp:58-75 | What cannot be encoded, and the error |
| WireFormat.DecodeErrors | protocol/src/packet.cpp:91-135 | Every error of decode by the first thing that is wrong with the bytes, and that there is no other |
| PacketCodec.BurstIsDetected | protocol/src/packet.cpp:91-135 | Damage within four neighbouring bytes of the checked header, of the CRC or of the payload makes decode fail |
| PacketCodec.OneByteIsDetected | protocol/src/packet.cpp:91-135 | Changing exactly one byte of an encoded packet, at any position, makes decode fail |
| PacketCodec.EncodePacket | protocol/src/packet.cpp:58-89 | Filling the buffer in place produces the encoding, or the error of the first failing check |
| FirmwarePackets.PacketCrc | firmware/src/core.c:118-123 | Running the CRC over header and payload in two goes covers exactly what the C++ codec covers |
| FirmwarePackets.DecodeRequest | firmware/src/core.c:125-146 | The firmware accepts exactly the packets the C++ codec accepts that are requests, and reads the same fields |
| FirmwarePackets.EncodePacket | firmware/src/core.c:148-169 | The firmware writes the same bytes as the C++ codec and leaves the rest of the buffer alone |
| Fragmentation.DecodePadded | protocol/src/fragmentation.cpp:78-124 | An encoded fragment decodes to itself under any zero padding up to the MTU |
| Fragmentation.DecodedWasEncoded | protocol/src/fragmentation.cpp:78-124 | Whatever decodes is the encoding of the result followed by zeros |
| WireFormat.FragmentLayout | protocol/src/fragmentation.cpp:34-76 | Where an encoded fragment has transfer, sequence, flags, length and payload |
| WireFormat.EncodeFragmentErrors | protocol/src/fragmentation.cpp:34-62 | What is no fragment, and the error |
| WireFormat.DecodeFragmentErrors | protocol/src/fragmentation.cpp:78-124 | Every error of the fragment decoder by the first thing that is wrong with the frame, and that there is no other |
| Fragmentation.EncodeFrame | protocol/src/fragmentation.cpp:34-76 | Filling the frame in place produces the encoding, or the error of the first failing check |
| Fragmentation.CountCovers | protocol/src/fragmentation.cpp:140-145 | The fragment count is the least that covers the packet |
| Fragmentation.Split | protocol/src/fragmentation.cpp:128-169 | Splitting succeeds exactly when the packet is non-empty, within the maximum and its pieces fit the six-bit length, and then yields every fragment's frame in order |
| Reassembly.KeyInjective | protocol/src/fragmentation.cpp:181-184 | Different streams or transfers have different keys |
| FragmentAnswers.JoinedSpells | protocol/src/fragmentation.cpp:256-274 | The pieces join exactly when none is missing, and the result is the pieces one after the other |
| FragmentAnswers.AcceptExactly | protocol/src/fragmentation.cpp:186-287 | Every answer to a frame on any table of transfers: which transfers are gone, what happens to the frame's own, when the packet is complete, and each error with its cause |
| Reassembly.Reassembler.ExpireTransfers | protocol/src/fragmentation.cpp:276-287 | Exactly the stale transfers are erased, and counted |
| Reassembly.Reassembler.JoinPieces | protocol/src/fragmentation.cpp:256-274 | The loop joins the pieces in order if none is missing, and gives up otherwise |
| Reassembly.Reassembler.AcceptFrame | protocol/src/fragmentation.cpp:186-254 | The method follows the accept function on the transfer table, errors included |
| FragmentDelivery.RunIsFaithful | protocol/src/fragmentation.cpp:186-287 | In any order after the first fragment, every frame of a transfer gets the answer that the set of frames seen so far calls for |
| FragmentDelivery.PacketDeliveredOnce | protocol/src/fragmentation.cpp:128-287 | Frames of a packet, first fragment first, repeated, padded, among any other traffic and within the timeout, raise no error and complete exactly once, with exactly that packet, if all arrive |
| FirmwareFrames.CanonicalFdLength | firmware/src/core.c:171-182 | The result is the least CAN-FD length that holds the frame |
| FirmwareFrames.SendPacket | firmware/src/core.c:184-225 | Every frame handed to the driver is the packet's frame of that number, zero-padded to the least CAN-FD length that holds it, until the driver refuses one |
| FirmwareFrames.ParseAgreesWithDecode | firmware/src/core.c:1145-1170 | The firmware takes exactly the frames that the C++ decoder takes and that are full unless last |
| FirmwareReassembly.AcceptKeepsInv | firmware/src/core.c:1128-1217 | An active slot holds whole pieces, size being sequence times capacity, and no two active slots serve one transfer |
| FirmwareAnswers.AcceptExactly | firmware/src/core.c:1128-1217 | What every frame does: it meets the slot of its transfer, or begins one in the first free slot if it is a first frame; a repeat refreshes it if it repeats what is stored, one out of turn or too long drops it, the next one is appended, and the last one hands the packet on |
| FirmwareAnswers.PollExactly | firmware/src/core.c:1034-1042 | The timeout pass frees a slot if and only if the wrapped difference of the clock has reached the timeout |
| FirmwareDelivery.PacketRebuilt | firmware/src/core.c:1172-1217 | Frames of a packet in order with repeats, among any other traffic and timeout passes that do not find it stale, hand on exactly that packet with the last frame and nothing before |
| FirmwareDelivery.SplitRebuilds | firmware/src/core.c:1172-1217 | In particular the frames of split, fed in order to a node with a free slot |
| FirmwareDelivery.FirmwareFramesReassemble | firmware/src/core.c:184-225 | What the firmware sends, padding included, the host's reassembler gives back exactly once |
| FirmwareSlots.ReassemblySlots.AcceptCan | firmware/src/core.c:1128-1217 | The slots in place follow the accept function |
| FirmwareSlots.ReassemblySlots.PollTimeouts | firmware/src/core.c:1034-1042 | The timeout pass deactivates exactly the stale slots |
| FirmwareCache.FindsRecent | firmware/src/core.c:252-264 | The ring finds a request exactly when it is among the last entries cacheable executions |
| FirmwareCache.RunIsLegal | firmware/src/core.c:252-288 | In every run a request whose answer fits the cache is executed again only after that many other cacheable executions |
| FirmwareCache.ExecutesAgainExactly | firmware/src/core.c:252-288 | In every run a request that would be answered is executed again if and only if the answer of its last execution was longer than a cache entry or as many answers as there are entries have been kept since |
| FirmwareCacheAnswers.ProcessExactly | firmware/src/core.c:252-343 | In every run, if the answer to a request's latest execution is still kept, that answer is given again when command, object, flags and checksum are the same, and none when they are not; any other request is executed |
| FirmwareCacheAnswers.PingAnswers | firmware/src/core.c:441-452 | A ping is answered with a response that decodes to the ids, command and object of the request and its payload behind a zero status, or the error flag and a status if that does not fit a packet |
| FirmwareCache.PingExecutesAgain | firmware/src/core.c:441-452 | For every packet and entry size of the build, a ping repeated at once is executed again if and only if its payload is longer than an entry less header and status and short enough to be sent back |
| FirmwareCache.LongPingExecutesAgain | firmware/src/core.c:270-272 | A concrete ping whose answer of 257 bytes is not kept by entries of 256, and which is executed twice |
| FirmwareCache.RequestCache.InsertCache | firmware/src/core.c:266-288 | The ring in place follows the insertion function, and skips answers that are too long |
| FirmwareCache.RequestCache.ProcessRequest | firmware/src/core.c:330-343 | A request found with the same content is answered from the cache, with other content dropped, else executed and remembered |
| Requests.AllocationFailsOnlyWhenFull | toolbusd/src/request_manager.cpp:134-150 | Allocation fails if and only if all 2^32 - 1 nonzero ids of the session are in use, and else gives an unused one |
| RequestFate.RunIsLegal | toolbusd/src/request_manager.cpp:24-165 | In every run the visible events obey the rules: nothing happens to a request that is not open, and open requests are the pending ones, none of them completed |
| RequestFate.FateOfSubmission | toolbusd/src/request_manager.cpp:84-114 | Each submission gets at most maximum_retries retries and at most one match, timeout or cancellation, and no timeout before maximum_retries + 1 timeouts have passed |
| RequestManagers.RequestManager.SubmitRequest | toolbusd/src/request_manager.cpp:24-39 | Submission in place follows the submit function |
| RequestManagers.RequestManager.AllocateRequestId | toolbusd/src/request_manager.cpp:134-150 | The loop of attempts follows the allocation function |
| RequestManagers.RequestManager.Accept | toolbusd/src/request_manager.cpp:41-82 | The method follows the accept function: matched, duplicate or unexpected |
| RequestManagers.RequestManager.PollRequests | toolbusd/src/request_manager.cpp:84-114 | The erase-while-iterating loop gives, in the order the map yields its keys, every due retry and timeout once |
| RequestManagers.RequestManager.CancelRequest | toolbusd/src/request_manager.cpp:116-119 | Cancelling removes the pending request and says whether there was one |
| RequestAnswers.AcceptExactly | toolbusd/src/request_manager.cpp:41-82 | A response is matched if and only if its session, id and command are those of a pending request, and it names the request's object, or a new one where a create of no object succeeded; it is a duplicate if and only if its request is not pending but still remembered; what each answer changes |
| RequestAnswers.SubmitExactly | toolbusd/src/request_manager.cpp:24-39 | A submission is refused exactly for what is no request or when no id is free; else it is sent under a free nonzero id and waits with all its retries |
| RequestAnswers.CancelExactly | toolbusd/src/request_manager.cpp:116-119 | Cancelling succeeds exactly on what is pending |
| RequestAnswers.PollExactly | toolbusd/src/request_manager.cpp:84-114 | In any order of the map, a request before its deadline stays as it is, one past it is sent again if it has a retry left and given up if not, and there are no other events |
| RequestAnswers.EveryRequestEnds | toolbusd/src/request_manager.cpp:84-114 | A request without a response is given up after one poll past its deadline for each retry that is left, and one more |
| NodeCache.ProcessKeepsInv | mock_mcu/src/mock_node.cpp:142-217 | The cache and its queue hold the same keys, each with the answer of its last execution, and everything executed lately and not cleared is still there |
| NodeCache.ClearKeepsInv | mock_mcu/src/mock_node.cpp:104-123 | Clearing a session keeps that, for the sessions that remain |
| NodeCache.AtMostOnce | mock_mcu/src/mock_node.cpp:142-217 | In a stretch without a clearing of its session and with fewer than max other executions, a request is executed at most once |
| NodeCache.CachedWhileRecent | mock_mcu/src/mock_node.cpp:210-217 | While no session is cleared, the cache holds exactly the keys among the last max executions |
| NodeCache.ExecutesExactly | mock_mcu/src/mock_node.cpp:142-217 | In every run of deliveries without clearings, a request the core would answer is executed if and only if it never was before or at least max executions followed its last one |
| NodeCache.UnencodableAnswerExecutesAgain | mock_mcu/src/mock_node.cpp:202-204 | From a core that gave an answer that cannot be encoded, the answer would not be remembered and a repeat would execute the request again; the exact theorems therefore speak of answers that can be encoded |
| NodeAnswers.ProcessExactly | mock_mcu/src/mock_node.cpp:142-217 | Every answer to a request: under a remembered key the answer given before, byte for byte, or a conflict if anything but length and checksum differs; else the core's answer, which is kept in place of the oldest one if there is no room |
| NodeAnswers.ClearExactly | mock_mcu/src/mock_node.cpp:104-123 | Clearing a session forgets its answers and no others |
| MockNodes.MockNode.Process | mock_mcu/src/mock_node.cpp:142-208 | The node in place follows the processing function |
| MockNodes.MockNode.Insert | mock_mcu/src/mock_node.cpp:210-217 | A full cache drops its oldest key before it takes the new one |
| MockNodes.MockNode.Clear | mock_mcu/src/mock_node.cpp:104-123 | Both loops together drop exactly the session's entries |
| ReliableDelivery.RunKeepsInv | toolbusd/src/request_manager.cpp:24-114 | In every run of host, node and a network that loses, repeats and reorders, before the request ids wrap: everything on the wire and in the node's history stems from a submission |
| ReliableDelivery.NeverConflicts | mock_mcu/src/mock_node.cpp:147-153 | No delivery is taken for a conflicting duplicate |
| ReliableDelivery.AppliedAtMostOnce | mock_mcu/src/mock_node.cpp:142-217 | While fewer than maximum_cached_requests other requests execute between a request's first execution and its last delivery, it is executed once however often it arrives |
| ReliableDelivery.MatchedIsTheExecution | toolbusd/src/request_manager.cpp:41-82 | A matched response was given by an execution of exactly the pending request |
| ReliableDelivery.MatchedIsTheOnlyExecution | toolbusd/src/request_manager.cpp:41-82 | Under that condition it is the response of the request's one execution |
| ReliableAnswers.GenuineIsMatched | toolbusd/src/request_manager.cpp:41-82 | In every run with a core whose answers carry the command and name the object that is called for, a response from the wire is matched if and only if its request is pending when it comes |
| FramedDelivery.OnlySentIsReported | protocol/src/fragmentation.cpp:186-254 | Whatever order the frames of any packets arrive in, lost, repeated or stale, the reassembler reports no packet but the one that was sent under the frame's stream and transfer id |
| FramedDelivery.RunRefines | mock_mcu/src/mock_node.cpp:29-46 | In every run of frames between host and node, a repeated last frame included, the host and the node go through a run of the packet level |
| FramedDelivery.MatchedOverFrames | toolbusd/src/main.cpp:257-265 | When the host completes a packet and matches it while its request was undisturbed, the request was executed once and the response is that execution's |
| FramedDelivery.SentIsTaken | mock_mcu/src/mock_node.cpp:29-46 | A packet all of whose frames arrive, the first one first and each within the timeout, in any other order, repeated and among those of others, reaches the node |
| FramedDelivery.TakenWasSent | mock_mcu/src/mock_node.cpp:29-46 | The node takes no packet that was not sent to it |
| LeaseInvariants.EndLeavesNoObjects | mock_mcu/src/remote_core.cpp:237-290 | Once a lease has ended its resource has no objects left |
| LeaseInvariants.EndLowersPins | mock_mcu/src/remote_core.cpp:255-272 | The output pins of the ended lease's objects are low and no other pin changes |
| LeaseInvariants.EndStopsMotion | mock_mcu/src/remote_core.cpp:239-254 | Ending a lease on an axis stops motion before the lease is gone |
| LeasePasses.PassIsExact | mock_mcu/src/remote_core.cpp:292-339 | Expiry ends exactly the leases whose time is over and session release exactly those of the session; all others are kept in their order |
| LeasePasses.PassCleansObjects | mock_mcu/src/remote_core.cpp:237-339 | Such a pass removes exactly the objects on resources whose lease it ends and leaves their pins low |
| LeasePasses.PassStopsMotion | mock_mcu/src/remote_core.cpp:237-339 | A pass that ends a lease on an axis leaves no motion under way |
| LeaseRuns.GrantAdds | mock_mcu/src/remote_core.cpp:632-708 | A granted lease, with the next id, the duration asked for and its end, is added to those of its resource, as the only one if it is exclusive and beside shared ones of other sessions if it is shared; nothing else changes, and no object is on the resource |
| LeaseAnswers.AcquireExactly | mock_mcu/src/remote_core.cpp:632-708 | A lease is granted if and only if the request is well formed, the resource exists, its contract supports leases and allows the mode, the session has none on it, no object is on it, and there is no other lease, or for a shared one no exclusive one; each refusal has its status and changes nothing |
| LeaseAnswers.RenewExactly | mock_mcu/src/remote_core.cpp:710-755 | Every answer to renew; a success prolongs the session's own lease of that id from now on, and nothing else |
| LeaseAnswers.ReleaseExactly | mock_mcu/src/remote_core.cpp:757-798 | Every answer to release |
| LeaseAnswers.ReleaseReleases | mock_mcu/src/remote_core.cpp:757-798 | A success removes exactly the session's lease of that id and the session's objects on the resource |
| LeaseAnswers.CreateGpioExactly | mock_mcu/src/remote_core.cpp:828-897 | Every answer to a GPIO create; a success configures the pin as asked and gives out the next id, owned by the session if it holds the pin's exclusive lease |
| LeaseAnswers.WriteGpioExactly | mock_mcu/src/remote_core.cpp:921-944 | Every answer to a GPIO write; a success leaves the object's pin at the level written and every other pin as it was |
| LeaseAnswers.CreateUartExactly | mock_mcu/src/remote_core.cpp:946-1024 | Every answer to a serial port create, likewise |
| LeaseAnswers.EnqueueMotionExactly | mock_mcu/src/remote_core.cpp:1128-1192 | The first move that names no axis, or one the session has no right to, decides; else the executor, and its refusal becomes a status |
| LeaseAnswers.StopCommandsExactly | mock_mcu/src/remote_core.cpp:1241-1278 | Every answer to a motion abort and to clearing a motion fault |
| LeaseAnswers.ResetExactly | mock_mcu/src/remote_core.cpp:563-609 | Every answer to a reset; on an axis it leaves no motion and no fault |
| LeaseRuns.AcquireKeepsInv | mock_mcu/src/remote_core.cpp:632-708 | Acquiring, granted or refused, keeps every lease, object and pin in order and motion guarded |
| LeaseRuns.AcceptedCoversAxes | mock_mcu/src/motion_executor.cpp:136-200 | An accepted segment names every axis of the executor exactly once |
| LeaseRuns.AcceptedHoldsAxes | mock_mcu/src/remote_core.cpp:1144-1162 | Whoever gets motion accepted holds the exclusive lease of every axis |
| LeaseRuns.RunKeepsInv | mock_mcu/src/remote_core.cpp:237-1278 | In every reachable state leases, objects and pins are in order, and motion is armed or running only while one session holds the exclusive lease of every axis, if every axis has a contract that demands one |
| LeaseGuarantees.GrantLastsItsDuration | mock_mcu/src/remote_core.cpp:691-700 | An acquired lease survives an expiry pass if and only if the pass comes before its granted duration is over |
| LeaseGuarantees.RenewalLastsItsDuration | mock_mcu/src/remote_core.cpp:745-747 | The same for a renewed lease, counted from the renewal |
| LeaseGuarantees.NoSuccessOnExpiredLease | mock_mcu/src/remote_core.cpp:91-103 | A command that is answered with success stands only on exclusive leases that its sender held and that had not run out when it came |
| LeaseGuarantees.TokenCommandsExactly | mock_mcu/src/remote_core.cpp:710-798 | A well-formed renewal or release succeeds if and only if it names a lease of its sender that has not run out when it comes |
| LeaseGuarantees.OwnedPinIsProtected | mock_mcu/src/remote_core.cpp:255-272 | While a session owns an output object, no command of another session changes the object or the level of its pin |
| RemoteCores.CatalogValid | mock_mcu/src/remote_core.cpp:59-88 | The constructor's checks accept exactly the valid catalogues |
| RemoteCores.RemoteCore.ReleaseResourceObjects | mock_mcu/src/remote_core.cpp:237-290 | The loops over objects, with their pin writes and the motion stop, follow the release function |
| RemoteCores.RemoteCore.ExpireLeases | mock_mcu/src/remote_core.cpp:292-315 | The nested erasing loops follow the expiry function in the order the table yields its resources |
| RemoteCores.RemoteCore.ReleaseSession | mock_mcu/src/remote_core.cpp:317-339 | The same for the leases of a session |
| RemoteCores.RemoteCore.AcquireLease | mock_mcu/src/remote_core.cpp:632-708 | The command follows the acquire function, every refusal included |
| RemoteCores.RemoteCore.RenewLease | mock_mcu/src/remote_core.cpp:710-755 | Only the session's own lease with that id is prolonged |
| RemoteCores.RemoteCore.ReleaseLease | mock_mcu/src/remote_core.cpp:757-798 | Only the session's own lease with that id ends, with its objects |
| RemoteCores.RemoteCore.CreateGpioObject | mock_mcu/src/remote_core.cpp:828-897 | The command follows the create function: lease check, pin in use, configuration and the new object |
| RemoteCores.RemoteCore.WriteGpioObject | mock_mcu/src/remote_core.cpp:921-944 | Only the owner writes, and only to an output |
| RemoteCores.RemoteCore.CreateUartObject | mock_mcu/src/remote_core.cpp:946-1024 | The same for serial ports, backend errors included |
| RemoteCores.RemoteCore.EnqueueSegment | mock_mcu/src/remote_core.cpp:1128-1192 | Every axis of the segment is checked before the executor sees it, and the executor's refusals become status codes |
| RemoteCores.RemoteCore.AbortSegments | mock_mcu/src/remote_core.cpp:1241-1261 | The abort command follows the executor's abort at its own time |
| RemoteCores.RemoteCore.Reset | mock_mcu/src/remote_core.cpp:563-609 | Resetting an axis stops motion and clears the fault; a leased one only its exclusive holder may reset, one without a lease anybody |
| BitStuffing.StuffingBound | toolbusd/src/traffic_control.cpp:60-70 | Stuffing inserts at most (n - 1) / 4 bits into any n bits (Bosch CAN Specification 2.0, Part A, section 5) |
| BitStuffing.StuffingBoundIsTight | toolbusd/src/traffic_control.cpp:60-70 | For every length some bits need that many |
| Traffic.ClassicalCostCovers | toolbusd/src/traffic_control.cpp:56-79 | The classical estimate covers every frame of that payload length, in bits and in nanoseconds |
| Traffic.ClassicalCostIsReached | toolbusd/src/traffic_control.cpp:56-79 | Some frame of that length needs all of it |
| FdFrames.FdFrameCoveredExactly | toolbusd/src/traffic_control.cpp:81-106 | The CAN-FD estimate covers the wire time of every base-format frame of a payload length, control, stuff and CRC field bits included, if and only if it covers two worst frames, which can be checked from the rates |
| FdFrames.FdFrameCovered | toolbusd/src/traffic_control.cpp:81-106 | It does whenever the data rate is not below the arbitration rate, with and without bit rate switching |
| FdFrames.SlowDataRateFallsShort | toolbusd/src/traffic_control.cpp:81-106 | At half the arbitration rate some frame takes longer than the estimate |
| Traffic.RefillsAdd | toolbusd/src/traffic_control.cpp:254-275 | Refilling in pieces is refilling once, and time that goes back refills nothing |
| TrafficAnswers.RefillExactly | toolbusd/src/traffic_control.cpp:254-275 | Each bucket gains its rate for the time that has passed, up to its capacity, and nothing else changes |
| TrafficAnswers.IdleWindowAdmits | toolbusd/src/traffic_control.cpp:154-275 | After an idle burst window any packet that fits the capacities of bus and class is admitted |
| TrafficAnswers.FrameCostExactly | toolbusd/src/traffic_control.cpp:47-106 | A frame has a cost exactly when both rates are positive and its length is allowed: its bits at each rate in the least whole number of nanoseconds, on the least legal length |
| TrafficAnswers.WireTimeExactly | toolbusd/src/traffic_control.cpp:202-215 | The wire time of a packet is the sum over its frames, and there is none exactly when a frame has no cost or the sum leaves 64 bits |
| TrafficAnswers.AdmitExactly | toolbusd/src/traffic_control.cpp:197-241 | A packet of a class with a wire time is admitted if and only if it is guaranteed or the refilled balances of bus and class cover it; what each answer does to every balance and counter |
| Traffic.RejectionLeavesBalances | toolbusd/src/traffic_control.cpp:219-224 | A rejected packet changes no balance beyond the refill |
| Traffic.TokenBucketBound | toolbusd/src/traffic_control.cpp:197-241 | Over any interval, the packets that were answered with an admission, less guaranteed ones whose balances fell short, take at most capacity plus refill times elapsed, on the bus and in each class |
| TrafficControllers.TrafficController.AdmitPacket | toolbusd/src/traffic_control.cpp:197-241 | The method follows the admission function: buckets, counters and errors |
| TrafficControllers.TrafficController.RefillBuckets | toolbusd/src/traffic_control.cpp:254-275 | The loop over the classes refills every bucket |
| TrafficControllers.CreateController | toolbusd/src/traffic_control.cpp:154-195 | A controller exists exactly for a valid configuration, and starts full |

## Left out

- FirmwareMotionPunctual.KeepsUpExactly: speaks of programs that are armed before they run and get no enqueue on the way, and of a clock that has room for their latest end.
- FirmwareMotionEndings.TickEnds: speaks of a board without limit switches and of a clock that does not run backwards; FirmwareMotionStops.OtherSwitchesDoNothing carries it over to switches that stop nothing.
- PacketCodec.BurstIsDetected: damage of two to four bytes that straddles the border between the CRC field and its neighbours is not covered, because the CRC then changes together with what it covers.
- FirmwareDelivery.PacketRebuilt: speaks of one transfer up to its last frame; a repeat after that opens a new slot in the firmware, which is left to the timeout and to the request cache.
- ReliableDelivery.RunKeepsInv: holds until the request id counter would wrap, and for a core whose answers carry the ids of their requests and can be encoded.
- ReliableAnswers.GenuineIsMatched: speaks of cores whose answers carry the command of their request and the object that it calls for, as the payload of a create decides in the source.
- FramedDelivery.RunRefines: holds until a stream's transfer ids would be used again; heartbeats and events, which share the bus, are not part of it.
- NodeCache.ExecutesExactly: speaks of runs without clear_session in which every earlier answer could be encoded; with clearings the cache empties early and NodeCache.AtMostOnce gives the bound in one direction.
- LeaseGuarantees.OwnedPinIsProtected: expiry and session release are not commands of a session; LeasePasses.PassCleansObjects says what they do.
- LeaseInvariants.EndLowersPins: the pins are those of the repository's one GPIO backend, which refuses a write only to a pin that is not an output; another backend whose write fails would leave its pin as it was.
- RemoteCores.RemoteCore.CreateGpioObject: that backend's configure cannot fail, so no failure of it is modelled.
- FdFrames.FdFrameCovered: counts the bits of a data frame with an 11-bit identifier and no error frames or retransmissions, as the estimate does.
- Positions and metric counters are unbounded integers; the edge counter and the accepted count of the firmware are modulo 2^64.
- NULL checks of the C interface and the separate arrays per axis (the model has one record an axis) are left out; the STEP and enable lines are what the driver was last told.
- The mock executor keeps local tick and global time of an edge in one field, since the source always sets both alike.
- `std::sort` over the edges of several segments is modelled as a stable sort; within a segment no two edges tie, and an abort at the very start of a segment ties its enabling with its disabling.
- The long double rounding of the token buckets is replaced by exact integers in thousandths.
- Interrupts between the firmware's timer tick and its main loop; tick and enqueue are atomic steps.
- The payload codecs of discovery, resource, motion and driver commands, and the read-only commands of the remote core.
- The checks of message type and version in `RemoteCore::handle`; its expiry pass and the command it dispatches are separate events in the runs, in any order.
- The counts that expiry and session release return, serial port contents, pending input levels of the GPIO backend and object ids after their counter wraps (creation is then refused).
- The node registry, manifests, fault scenarios, command line tools, sockets, daemon threads, board start-up and the soft half-duplex serial driver.
