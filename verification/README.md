# ESP8266 example firmware: verified models

This project models the stateful parts of the ESP8266 SDK examples and of the UART passthrough
application, and proves what they promise.  `dafny verify dfyconfig.toml` checks everything.

Each component has two forms.  Its code runs in place, statement by statement, in a class or a method on
arrays; the contract of that method ties it to a function on values.  The properties are then proved about
that function: over every input, every interleaving, every run.

| files | component |
|---|---|
| `SpiLink`, `SpiRuns`, `SpiMasterToSlave`, `SpiWake`, `SpiSlaveToMaster`, `SpiTurns` | the two-chip SPI stream protocol (high_performance spi_master and spi_slave) |
| `OtaSlicer`, `OtaChunks`, `OtaLength`, `OtaCuts` | the native OTA example: one image cut out of a chunked HTTP response |
| `RingBuffer`, `TcpBridge` | the overwriting ring buffer and the UART/TCP bridge |
| `EspNowFrame`, `EspNow`, `EspNowPairing`, `EspNowProgress`, `EspNowSteps`, `EspNowNode` | the ESP-NOW frame and pairing protocol |
| `NeighborReport`, `NeighborFields` | the 802.11 Neighbor Report parser and printer |
| `NanoConsole`, `ConsoleTask` | the nano console: line editor, tokenizer, command list |
| `UrlCodec`, `ScanJson` | the provisioning page: URL decoding, MAC addresses, scan JSON, form body |
| `Bytes`, `Text` | bytes, fixed widths, little-endian numbers; what %x, %u and %d print |

## The components

**SPI.**  Four actors interleave freely: the master's writer or reader task, the master's GPIO interrupt
handler, the slave's SPI callback and the slave's reader or writer task.  `Next` is one atomic step of one
of them; a blocking send or receive and the check behind it are two steps.  The two `#ifdef`
configurations are two modules and are never mixed; `SpiTurns` says what the handlers do in any state.  `written` and `taken` record the streams.  The
frames are always 64 bytes on the wire, so what is real of a frame depends on two counters that live on
two chips; the invariants show when they agree.
Assumed: an SPI transaction is a rendezvous (the slave's callback finishes before the next transaction of
the master); a blocking `xStreamBufferSend` takes all of its bytes or waits; entering the handler clears
the pending bit; the slave's status register starts at 0.  `Next` takes the raising of the line and the
clearing of the wait flag in the slave's reader as one step; `SpiWake` takes them apart and says exactly
when that makes a difference.

**OTA.**  `Session` is the state of the receive loop and `Feed` what one received chunk does to it; the
search for `Content-Length`, the walk over the header lines, PREPARE, START and RECVED keep the branches
of the source, with `size_t` subtraction modulo 2^32.  The three variants differ in `Size` and `Offset`.
A header is whole lines without NULs, of which exactly the last has two bytes and one announces a positive
length.  The response may be cut anywhere; `OtaCuts` covers the cuts inside header lines.

**Ring and bridge.**  The ring refines "the last N bytes of the stream".  The bridge is a transition
system of the UART daemon, the two session tasks and the server; every ring operation is one step because
it holds the mutex.
Assumed: the 500 ms of clean-up outlast the tasks of a session, and `send` takes all bytes or fails.

**ESP-NOW.**  Any number of nodes; every packet ever sent may reach any node it is addressed to, never,
late, out of order or many times.  Sending and allocation may fail at every event.  Frames are real byte
sequences: what a node receives goes through `Parse`, which is proved to undo `Prepared` for any
deterministic CRC function and any random payload.  Assumed: bytes that no node sent are refused by the
CRC or carry another type.

**Neighbor Report.**  Elements and subelements are read by index from an array of exactly the report's
length, so that every read is inside it.  The text buffer has 512 bytes; `snprintf` truncates as C says,
and a call that starts beyond the buffer is the outcome `Outside`.

**Console.**  The buffer keeps its stale bytes, the heap is a map of blocks, and any allocation may be the
first to fail.  **Provisioning.**  `sscanf`'s `%x` follows the C standard (blanks, sign, `0x`, digits,
clamped to 32 bits).

## Main results

- SPI, master to slave: over every interleaving the two chips agree on every length and on whose turn it is
  (`SpiMasterToSlave.LengthAgreement`, `NoLostWakeUp`), bytes arrive in order and at most once (`OrderInEveryRun`),
  at most 64 are lost for each untimely wake check (`LossIsBounded`), and once the writer stops the link drains in
  bounded time (`EveryRunDrains`).  Over the timely runs nothing is lost (`Delivery`, `EverythingIsDelivered`), and
  `TimelyIffNothingIsLost` shows that condition to be exact.  `SpiWake.WakeInTwoSteps` says exactly when the two
  statements of the wake-up can be taken as one.
- SPI, slave to master: `SpiSlaveToMaster.Delivery`, `LengthAgreement`, `SomeoneCanMove` and
  `EverythingIsDelivered` over the runs without empty offers and overfull loads, with the exact conditions
  (`AnnouncedIffNothingIsLost`, `EmptyOfferStalls`).
- OTA: `OtaCuts.GoodImageIff`, `OtaChunks.FlashHoldsTheSlice`, `ChunkingDoesNotMatter`, `ImagesTileTheBody`, `OtaLength.LengthIsRead`.
- Bridge: `RingBuffer.LastOfLast` and `RingBuf.Write`, `TcpBridge.SentInOrder`, `Conservation`,
  `SessionLosesAtMostAChunk`, `NothingOverwrittenIffBacklogFits`, `RunningSessionDrains`, `EndIsFinal`.
- ESP-NOW: `EspNowPairing.CycleIffMagicRepeats`, `OneSenderIffMagicsDiffer`, `HandshakeIffTwoNodes`, `ExactCount`,
  `SequenceNumbers`, `EspNowProgress.PairingCanAlwaysComplete`, `EspNowSteps.UnicastEndsBroadcasting`,
  `EspNowFrame.RoundTrip`, `FrameOnTheAir`.
- Neighbor Report: `NeighborReport.AcceptedIffWellFormed`, `TextOfReport`, `GetBtmNeighborList`,
  `NeighborFields.TextReadsBack`.
- Console: `NanoConsole.PureIffNoStaleSpaces`, `EnterCallsIffShort`, `EmptyArgumentIffTwoSpaces`, `TokensAreTheLine`,
  `ConsoleTask.AllocArgs`, `Execute`.
- Provisioning: `UrlCodec.DecodesIff`, `UrlDecode`, `BssidComesBack`, `ScanHexReads`, `ScanJson.Builder.Build`,
  `JsonReadsBack`.

## Where the code does less than it means to

Each of these is a lemma with a concrete run or input, beside the exact condition under which the code
does what it promises.

- SPI, master to slave: the slave's reader reads and then checks.  If frames arrive in that gap until the
  slave parks, the check sees bytes available, not free space, and wakes the master too early; in writes of
  2048 bytes from power-on that loses bytes (`SpiMasterToSlave.BytesCanBeLost`).  The exact condition is
  `Timely`: if the check wakes the master there is room for a whole frame, or for a shorter last one.  After
  a timely check nothing is lost until the next check; after any other, some run without a further check
  loses bytes (`TimelyIffNothingIsLost`).  Each such check costs at most one frame (`LossIsBounded`).
- SPI, master to slave: the slave's reader raises the line before it clears its wait flag.  If frames fill
  the slave between the two statements it parks, the flag is cleared under it, and the link stalls for good;
  otherwise the order makes no difference (`SpiWake.WakeInTwoSteps`, `StalledForGood`).  Every wake-up of
  every run leaves the others that chance (`EveryWakeCanStall`, `WakeIsReachable`).
- SPI, slave to master: the slave's writer sends and then enters its critical section.  If the transfer
  under way has carried the new bytes off in between, as it can after two writes of 2048 bytes
  (`EmptyOfferIsReachable`), it offers an empty buffer.  From every empty offer the link can stall for good
  (`EmptyOfferStalls`) or lose frames (`EmptyOfferLosesFrames`); `Filled` rules it out.
- SPI, slave to master: the slave fills a frame with what its buffer holds.  If that is more than was
  announced, which takes writes that are not whole frames (`PartialWriteLosesBytes`), exactly the bytes
  beyond the announcement are lost (`AnnouncedIffNothingIsLost`, `OverfullLoadSkipsBytes`).
- OTA: the chunk that reaches the image is written without a look at `ota_size`.  The image is right if and
  only if that chunk does not reach past its end, which every image of at least 1024 bytes guarantees.
- ESP-NOW: the comment says "bigger", the code compares with `>=`.  Two nodes with equal magics can both
  become senders.  With three nodes a listener need never have heard its sender.
- Neighbor Report: the text is the rendering if and only if that is shorter than 512 characters, and the
  buffer is left if and only if the last piece starts beyond 512 (`TextOfReport`).  Ten neighbors always
  fit; twelve can be cut (`TwelveCanBeCut`), thirteen always leave the buffer (`ThirteenLeaveTheBuffer`).
- Console: the test for a repeated space looks at the byte behind the cursor, not at the one before it.  It
  never sees a space that the editor wrote, so an argument is empty if and only if two spaces stand next to
  each other (`EmptyArgumentIffTwoSpaces`); with a stale space in the fresh buffer the key does nothing
  (`StaleSpaceShows`, `PureIffNoStaleSpaces`).  Enter calls a listed command with what was typed if and only
  if that is shorter than 127 characters (`EnterCallsIffShort`).
- Comments in the SPI slave speak of 32 bytes where the code moves 64; the model follows the code.

## Model

| member | source | states |
|---|---|---|
| SpiLink.Boards.constructor | examples/peripherals/spi/high_performance/spi_master/main/spi_master_example_main.c:30-48 | power-on: all buffers empty, mode NULL, no transfer, line low |
| SpiLink.Boards.SetHandshake | examples/peripherals/spi/high_performance/spi_slave/main/spi_slave_example_main.c:149-151 | a rising edge, and only that, makes the master interrupt pending |
| SpiLink.Boards.GpioIsrHandler | examples/peripherals/spi/high_performance/spi_master/main/spi_master_example_main.c:113-196 | run in place, the handler is the protocol step `GpioIsr` in every branch, short reads included |
| SpiLink.Boards.OnIdle | examples/peripherals/spi/high_performance/spi_master/main/spi_master_example_main.c:120-141 | mode NULL: announce the send buffer, or read the length and turn to reading exactly if it is positive |
| SpiLink.Boards.OnRead | examples/peripherals/spi/high_performance/spi_master/main/spi_master_example_main.c:146-163 | mode READ: store the real bytes of a frame if 64 bytes are free, else park |
| SpiLink.Boards.OnWrite | examples/peripherals/spi/high_performance/spi_master/main/spi_master_example_main.c:167-191 | mode WRITE: the next frame, the dropped short read, or the end of the transfer |
| SpiLink.Boards.SpiEventCallback | examples/peripherals/spi/high_performance/spi_slave/main/spi_slave_example_main.c:45-165 | run in place, the callback is the protocol step `SpiEvent` for all five events |
| SpiLink.Boards.OnReadData | examples/peripherals/spi/high_performance/spi_slave/main/spi_slave_example_main.c:61-89 | after a data read: announce what is left, or load the next frame |
| SpiLink.Boards.OnWroteData | examples/peripherals/spi/high_performance/spi_slave/main/spi_slave_example_main.c:91-112 | after a frame: store its real bytes, ask for more only with 64 bytes free, else park |
| SpiLink.Boards.OnWroteStatus | examples/peripherals/spi/high_performance/spi_slave/main/spi_slave_example_main.c:114-128 | after a length: remember it and answer, or offer waiting bytes |
| SpiLink.Boards.Load | examples/peripherals/spi/high_performance/spi_slave/main/spi_slave_example_main.c:130-147 | the next frame goes to the data register and `total_send_len` drops (mod 2^32) by its real bytes |
| SpiLink.Boards.WriteSlaveTaskSend | examples/peripherals/spi/high_performance/spi_master/main/spi_master_example_main.c:212-217 | the writer task appends all of its bytes |
| SpiLink.Boards.WriteSlaveTaskCheck | examples/peripherals/spi/high_performance/spi_master/main/spi_master_example_main.c:219-226 | its critical section makes the interrupt pending exactly in mode NULL |
| SpiLink.Boards.ReadSlaveTaskReceive | examples/peripherals/spi/high_performance/spi_master/main/spi_master_example_main.c:258-274 | the reader task takes the longest prefix up to 1024 bytes |
| SpiLink.Boards.ReadSlaveTaskCheck | examples/peripherals/spi/high_performance/spi_master/main/spi_master_example_main.c:276-281 | its wake check resumes a parked transfer with more than 64 bytes available |
| SpiLink.Boards.ReadMasterTaskReceive | examples/peripherals/spi/high_performance/spi_slave/main/spi_slave_example_main.c:187-197 | the slave reader takes the longest prefix up to 1024 bytes |
| SpiLink.Boards.ReadMasterTaskCheck | examples/peripherals/spi/high_performance/spi_slave/main/spi_slave_example_main.c:199-205 | its wake check raises the line and clears the flag with more than 64 bytes available |
| SpiLink.Boards.WriteMasterTaskSend | examples/peripherals/spi/high_performance/spi_slave/main/spi_slave_example_main.c:220-220 | the slave writer appends all of its bytes |
| SpiLink.Boards.WriteMasterTaskCheck | examples/peripherals/spi/high_performance/spi_slave/main/spi_slave_example_main.c:221-230 | its critical section offers the fill of the buffer if no transfer is under way |
| SpiMasterToSlave.IsrKeepsSound | examples/peripherals/spi/high_performance/spi_master/main/spi_master_example_main.c:113-196 | the master handler keeps lengths, turns and parking consistent, for any frame padding and in every schedule |
| SpiMasterToSlave.CallbackKeepsSound | examples/peripherals/spi/high_performance/spi_slave/main/spi_slave_example_main.c:45-165 | so does the slave callback, also when its push is cut short |
| SpiMasterToSlave.StepKeepsSound | examples/peripherals/spi/high_performance/spi_master/main/spi_master_example_main.c:113-226 | so does every step of every actor, timely or not |
| SpiMasterToSlave.StepKeepsRoom | examples/peripherals/spi/high_performance/spi_slave/main/spi_slave_example_main.c:187-205 | every step leaves room for what comes next if and only if it is not an untimely wake check |
| SpiMasterToSlave.StepCarriesBytes | examples/peripherals/spi/high_performance/spi_slave/main/spi_slave_example_main.c:91-128 | every step appends what is written and drops at most the end of a frame for which the slave has no room |
| SpiMasterToSlave.StepKeepsBytes | examples/peripherals/spi/high_performance/spi_slave/main/spi_slave_example_main.c:98-105 | with room no step drops anything |
| SpiMasterToSlave.StepKeepsInv | examples/peripherals/spi/high_performance/spi_master/main/spi_master_example_main.c:113-196 | soundness, room and conservation together are kept if and only if the step is not an untimely wake check |
| SpiMasterToSlave.RunKeepsSound | examples/peripherals/spi/high_performance/spi_master/main/spi_master_example_main.c:113-226 | soundness holds over every run |
| SpiMasterToSlave.RunKeepsInv | examples/peripherals/spi/high_performance/spi_master/main/spi_master_example_main.c:113-226 | room and conservation hold over every timely run |
| SpiMasterToSlave.LengthAgreement | examples/peripherals/spi/high_performance/spi_master/main/spi_master_example_main.c:143-189 | every run: both ends agree on the bytes to come, which the send buffer holds, and exactly one turn exists in mode WRITE |
| SpiMasterToSlave.NoLostWakeUp | examples/peripherals/spi/high_performance/spi_master/main/spi_master_example_main.c:180-226 | every run: bytes in the send buffer imply a transfer, a pending interrupt, or a writer before its check |
| SpiMasterToSlave.StepAnswersLine | examples/peripherals/spi/high_performance/spi_slave/main/spi_slave_example_main.c:149-151 | a step never leaves the line high with nobody due to answer it |
| SpiMasterToSlave.HighLineIsAnswered | examples/peripherals/spi/high_performance/spi_master/main/spi_master_example_main.c:180-189 | every run: while the line is high the interrupt is pending or a transaction is on its way; at rest the line is low, so that the next rise is an edge |
| SpiMasterToSlave.EveryCheckWakes | examples/peripherals/spi/high_performance/spi_slave/main/spi_slave_example_main.c:199-205 | every run: a wake check of a parked slave wakes the master |
| SpiMasterToSlave.RunKeepsOrder | examples/peripherals/spi/high_performance/spi_slave/main/spi_slave_example_main.c:91-128 | the positions of the bytes on the link stay strictly increasing, from any state |
| SpiMasterToSlave.OrderInEveryRun | examples/peripherals/spi/high_performance/spi_slave/main/spi_slave_example_main.c:91-128 | every run: taken + slave buffer + in flight + send buffer come from strictly increasing positions of what was written, so nothing is repeated, reordered or taken from padding even when bytes are lost |
| SpiMasterToSlave.StepKeepsRisk | examples/peripherals/spi/high_performance/spi_slave/main/spi_slave_example_main.c:98-111 | a frame that does not fit parks the slave, so that only another untimely check can cost more |
| SpiMasterToSlave.LossIsBounded | examples/peripherals/spi/high_performance/spi_slave/main/spi_slave_example_main.c:98-111 | every run: at most 64 bytes are lost for each untimely wake check |
| SpiMasterToSlave.Delivery | examples/peripherals/spi/high_performance/spi_slave/main/spi_slave_example_main.c:91-128 | every timely run: taken + slave buffer + in flight + send buffer == written |
| SpiMasterToSlave.FlowControl | examples/peripherals/spi/high_performance/spi_slave/main/spi_slave_example_main.c:98-111 | every timely run: what a frame brings finds room |
| SpiMasterToSlave.StepKeepsFrameRoom | examples/peripherals/spi/high_performance/spi_slave/main/spi_slave_example_main.c:107-111 | a step keeps 64 free bytes (or the slave parked) if and only if it is not a wake check with fewer |
| SpiMasterToSlave.RoomForEveryFrame | examples/peripherals/spi/high_performance/spi_slave/main/spi_slave_example_main.c:107-111 | if every wake check finds 64 free bytes, so does every frame |
| SpiMasterToSlave.ReadMakesRoom | examples/peripherals/spi/high_performance/spi_slave/main/spi_slave_example_main.c:187-205 | in every schedule: right after a read the wake check finds 64 free bytes |
| SpiMasterToSlave.PromptRunsAreRoomy | examples/peripherals/spi/high_performance/spi_slave/main/spi_slave_example_main.c:187-205 | with a check that follows its read without an interruption every check finds 64 free bytes |
| SpiMasterToSlave.PromptRunsHaveRoom | examples/peripherals/spi/high_performance/spi_slave/main/spi_slave_example_main.c:107-111 | from power-on with such checks: 64 free bytes whenever a frame arrives |
| SpiMasterToSlave.RoomyRunsAreTimely | examples/peripherals/spi/high_performance/spi_slave/main/spi_slave_example_main.c:187-205 | checks that find 64 free bytes are timely |
| SpiMasterToSlave.PromptRunsAreTimely | examples/peripherals/spi/high_performance/spi_slave/main/spi_slave_example_main.c:187-205 | checks without an interruption are timely in every run |
| SpiMasterToSlave.ConservedIffItFits | examples/peripherals/spi/high_performance/spi_slave/main/spi_slave_example_main.c:98-105 | the callback conserves the stream if and only if the real bytes of the frame fit |
| SpiMasterToSlave.EarlyWakeLosesBytes | examples/peripherals/spi/high_performance/spi_slave/main/spi_slave_example_main.c:199-205 | after a wake without room for a whole frame the next one loses bytes if and only if its real bytes exceed the free space |
| SpiMasterToSlave.FrameDoesNotFit | examples/peripherals/spi/high_performance/spi_slave/main/spi_slave_example_main.c:98-105 | a frame with more real bytes than fit loses bytes |
| SpiMasterToSlave.EndedTransferDoesNotFit | examples/peripherals/spi/high_performance/spi_master/main/spi_master_example_main.c:180-189 | behind an ended transfer the writer can always start one whose first frame does not fit |
| SpiMasterToSlave.TimelyIffNothingIsLost | examples/peripherals/spi/high_performance/spi_slave/main/spi_slave_example_main.c:187-205 | exact: after a timely check no run without a further check loses bytes, after any other check some such run does |
| SpiMasterToSlave.BytesCanBeLost | examples/peripherals/spi/high_performance/spi_slave/main/spi_slave_example_main.c:187-205 | a run from power-on, in writes of 2048 bytes, that loses bytes |
| SpiMasterToSlave.ProductiveStepsLowerRank | examples/peripherals/spi/high_performance/spi_master/main/spi_master_example_main.c:113-226 | in every schedule every productive step lowers a rank: bytes to send, then handshake, then bytes to read |
| SpiMasterToSlave.SomeoneCanMove | examples/peripherals/spi/high_performance/spi_master/main/spi_master_example_main.c:180-226 | in every schedule, while bytes are on their way some actor other than the writer can take a productive step |
| SpiMasterToSlave.ProductiveRunsAreBounded | examples/peripherals/spi/high_performance/spi_master/main/spi_master_example_main.c:113-226 | no run of productive steps is longer than the rank |
| SpiMasterToSlave.WhatADrainedLinkDelivers | examples/peripherals/spi/high_performance/spi_slave/main/spi_slave_example_main.c:187-205 | every run: when nothing is left on the link the reader has the stream in order, but for at most 64 bytes an untimely check |
| SpiMasterToSlave.EveryRunDrains | examples/peripherals/spi/high_performance/spi_master/main/spi_master_example_main.c:198-237 | once the writer stops, every schedule that keeps going drains the link in bounded time |
| SpiMasterToSlave.TimelyRunsDeliver | examples/peripherals/spi/high_performance/spi_master/main/spi_master_example_main.c:198-237 | and in timely runs that is everything that was written |
| SpiMasterToSlave.EverythingIsDelivered | examples/peripherals/spi/high_performance/spi_master/main/spi_master_example_main.c:198-237 | so every prompt schedule that keeps going delivers everything in bounded time |
| SpiWake.RunBetween | examples/peripherals/spi/high_performance/spi_slave/main/spi_slave_example_main.c:45-165 | only the reader looks at the flag that it has not cleared yet; a frame without room behind it sets the flag anew |
| SpiWake.WakeInTwoSteps | examples/peripherals/spi/high_performance/spi_slave/main/spi_slave_example_main.c:199-205 | the two statements of the wake-up, with any run of the others in between: the check in one step followed by that run unless the slave parks again in between, and a stalled link if it does |
| SpiWake.StalledForGood | examples/peripherals/spi/high_performance/spi_slave/main/spi_slave_example_main.c:199-205 | a stalled link delivers nothing more, whatever is done |
| SpiWake.CanPark | examples/peripherals/spi/high_performance/spi_slave/main/spi_slave_example_main.c:107-111 | from every sound state without a parked slave the others can fill the slave while its reader stands still |
| SpiWake.EveryWakeCanStall | examples/peripherals/spi/high_performance/spi_slave/main/spi_slave_example_main.c:199-205 | at every wake-up of every run the others can, in writes of 2048 bytes, fit in enough between the two statements to stall the link |
| SpiWake.WakeIsReachable | examples/peripherals/spi/high_performance/spi_slave/main/spi_slave_example_main.c:199-205 | a wake-up is reached from power-on, in writes of 2048 bytes and with a reader that is never late |
| SpiSlaveToMaster.LoadEffect | examples/peripherals/spi/high_performance/spi_slave/main/spi_slave_example_main.c:130-147 | what a load does to both ends, announced or not |
| SpiSlaveToMaster.IsrKeepsInv | examples/peripherals/spi/high_performance/spi_master/main/spi_master_example_main.c:130-163 | the master handler keeps the invariant, parking included |
| SpiSlaveToMaster.CallbackKeepsInv | examples/peripherals/spi/high_performance/spi_slave/main/spi_slave_example_main.c:61-88 | the slave callback keeps the invariant if and only if it loads no more than was announced |
| SpiSlaveToMaster.TakeKeepsInv | examples/peripherals/spi/high_performance/spi_master/main/spi_master_example_main.c:258-274 | the master reader keeps the invariant |
| SpiSlaveToMaster.TaskKeepsInv | examples/peripherals/spi/high_performance/spi_slave/main/spi_slave_example_main.c:219-230 | the other task steps keep it if and only if the writer does not offer an empty buffer |
| SpiSlaveToMaster.StepKeepsInv | examples/peripherals/spi/high_performance/spi_slave/main/spi_slave_example_main.c:45-230 | for writes of any length every step keeps the invariant if and only if it is neither an empty offer nor an overfull load |
| SpiSlaveToMaster.RunKeepsInv | examples/peripherals/spi/high_performance/spi_slave/main/spi_slave_example_main.c:45-230 | the invariant holds over every run of such steps |
| SpiSlaveToMaster.Delivery | examples/peripherals/spi/high_performance/spi_master/main/spi_master_example_main.c:146-163 | the stream arrives exactly once and in order, also when the master parks and resumes |
| SpiSlaveToMaster.LengthAgreement | examples/peripherals/spi/high_performance/spi_slave/main/spi_slave_example_main.c:61-88 | `total_send_len` drops by exactly the real bytes and never wraps, both ends agree on what is to come, the master stores all of a frame (its assert) |
| SpiSlaveToMaster.HighLineIsAnswered | examples/peripherals/spi/high_performance/spi_master/main/spi_master_example_main.c:130-163 | over good runs a high line means a master that is due, at work, or parked and due to be woken |
| SpiSlaveToMaster.EveryCheckWakes | examples/peripherals/spi/high_performance/spi_master/main/spi_master_example_main.c:276-281 | a wake check of a parked master resumes the transfer |
| SpiSlaveToMaster.WholeFramesAreAnnounced | examples/peripherals/spi/high_performance/spi_slave/main/spi_slave_example_main.c:219-230 | with whole-frame writes no load is overfull and every frame is full |
| SpiSlaveToMaster.WholeFrameRunsAreGood | examples/peripherals/spi/high_performance/spi_slave/main/spi_slave_example_main.c:219-230 | so runs of whole-frame writes without empty offers are good |
| SpiSlaveToMaster.PromptRunsAreGood | examples/peripherals/spi/high_performance/spi_slave/main/spi_slave_example_main.c:219-230 | if the critical section follows the send without an interruption no offer is empty |
| SpiSlaveToMaster.StalledForGood | examples/peripherals/spi/high_performance/spi_slave/main/spi_slave_example_main.c:219-230 | a stalled link delivers nothing more, whatever is done |
| SpiSlaveToMaster.EmptyOfferStalls | examples/peripherals/spi/high_performance/spi_slave/main/spi_slave_example_main.c:219-230 | from every empty offer: after the two handlers nothing written later arrives |
| SpiSlaveToMaster.EmptyOfferLosesFrames | examples/peripherals/spi/high_performance/spi_slave/main/spi_slave_example_main.c:130-147 | from every empty offer: after a further write `total_send_len` wraps and a frame is overwritten |
| SpiSlaveToMaster.AnnouncedIffNothingIsLost | examples/peripherals/spi/high_performance/spi_slave/main/spi_slave_example_main.c:130-147 | a load conserves the stream if and only if it takes no more than was announced |
| SpiSlaveToMaster.OverfullLoadSkipsBytes | examples/peripherals/spi/high_performance/spi_slave/main/spi_slave_example_main.c:130-147 | otherwise exactly the bytes beyond the announcement are skipped for good |
| SpiSlaveToMaster.PartialWriteLosesBytes | examples/peripherals/spi/high_performance/spi_slave/main/spi_slave_example_main.c:219-230 | a run from power-on: ten bytes, then more before the first frame is filled |
| SpiSlaveToMaster.EmptyOfferIsReachable | examples/peripherals/spi/high_performance/spi_slave/main/spi_slave_example_main.c:219-230 | two writes of 2048 bytes from power-on reach an empty offer |
| SpiSlaveToMaster.ProductiveStepsLowerRank | examples/peripherals/spi/high_performance/spi_slave/main/spi_slave_example_main.c:45-165 | every productive step lowers the rank |
| SpiSlaveToMaster.SomeoneCanMove | examples/peripherals/spi/high_performance/spi_slave/main/spi_slave_example_main.c:45-165 | undelivered bytes leave someone other than the writer able to move |
| SpiSlaveToMaster.ProductiveRunsAreBounded | examples/peripherals/spi/high_performance/spi_slave/main/spi_slave_example_main.c:45-165 | no run of productive steps is longer than the rank, and it keeps the invariant |
| SpiSlaveToMaster.EverythingIsDelivered | examples/peripherals/spi/high_performance/spi_slave/main/spi_slave_example_main.c:211-241 | once the writer stops, every good schedule that keeps going delivers everything in bounded time |
| SpiSlaveToMaster.WholeFramesAreDelivered | examples/peripherals/spi/high_performance/spi_slave/main/spi_slave_example_main.c:211-241 | after whole-frame writes without empty offers that holds for every schedule |
| SpiTurns.DueIffIdleWithBytes | examples/peripherals/spi/high_performance/spi_master/main/spi_master_example_main.c:113-196 | any state, both streams: after its handler the master is due again if and only if it is idle and has bytes to send |
| SpiTurns.TransfersEnd | examples/peripherals/spi/high_performance/spi_master/main/spi_master_example_main.c:146-189 | any state: a transfer ends exactly with its announced bytes |
| SpiTurns.EveryCallLeadsOn | examples/peripherals/spi/high_performance/spi_master/main/spi_master_example_main.c:113-196 | any state: a call of the handler starts a transaction unless it is due again, parks or reads short |
| SpiTurns.AnnouncesSomethingOrNothingNew | examples/peripherals/spi/high_performance/spi_slave/main/spi_slave_example_main.c:45-165 | any state: the callback never announces a transfer of nothing |
| SpiTurns.SlavesBytesFollow | examples/peripherals/spi/high_performance/spi_slave/main/spi_slave_example_main.c:114-128 | any state, both streams: at the end of the master's transfer the bytes that wait on the slave are announced and read next |
| SpiTurns.GatheredBytesFollow | examples/peripherals/spi/high_performance/spi_slave/main/spi_slave_example_main.c:61-71 | any state: at the end of the slave's transfer all that has gathered is announced and read next |
| SpiTurns.OfferedBytesFollow | examples/peripherals/spi/high_performance/spi_slave/main/spi_slave_example_main.c:221-230 | any state: an offer is read in full |
| SpiTurns.OrTheLinkRests | examples/peripherals/spi/high_performance/spi_slave/main/spi_slave_example_main.c:114-128 | any state: with nothing to send the line stays low and nobody is due |
| SpiTurns.MastersBytesFollow | examples/peripherals/spi/high_performance/spi_master/main/spi_master_example_main.c:146-163 | any state, both streams: after the last frame of a read the master announces what it has to send, and the slave knows the length |
| OtaSlicer.FieldBehind | examples/system/ota/native_ota/1MB_flash/new_to_new_no_old/main/ota_example_main.c:129-133 | a header field, if it is found, lies inside the text and is at most 31 bytes long |
| OtaSlicer.LineLen | examples/system/ota/native_ota/1MB_flash/new_to_new_no_old/main/ota_example_main.c:68-76 | the line from a position: up to and including the next newline, or one more than there is |
| OtaSlicer.Walk | examples/system/ota/native_ota/1MB_flash/new_to_new_no_old/main/ota_example_main.c:128-162 | a header that ends, ends inside the chunk with a line of two bytes |
| OtaSlicer.LearnTwice | examples/system/ota/native_ota/1MB_flash/new_to_new_no_old/main/ota_example_main.c:129-138 | looking for the length again on the same text changes nothing |
| OtaSlicer.Firmware.constructor | examples/system/ota/native_ota/1MB_flash/new_to_new_no_old/main/ota_example_main.c:252-261 | a fresh machine in INIT with empty flash |
| OtaSlicer.Firmware.ReadUntil | examples/system/ota/native_ota/1MB_flash/new_to_new_no_old/main/ota_example_main.c:68-76 | the loop finds the line length |
| OtaSlicer.Firmware.LearnLength | examples/system/ota/native_ota/1MB_flash/new_to_new_no_old/main/ota_example_main.c:129-138 | the length, size and offset are learnt exactly while the length is zero |
| OtaSlicer.Firmware.ParseHttpHeader | examples/system/ota/native_ota/1MB_flash/new_to_new_no_old/main/ota_example_main.c:121-163 | the loop over header lines equals the recursive walk, fatal and undefined outcomes included |
| OtaSlicer.Firmware.DoParseMsg | examples/system/ota/native_ota/1MB_flash/new_to_new_no_old/main/ota_example_main.c:165-216 | one round of the state machine, all five states |
| OtaSlicer.Firmware.ParseMessage | examples/system/ota/native_ota/1MB_flash/new_to_new_no_old/main/ota_example_main.c:218-230 | entered in INIT, PREPARE or START the do-while consumes every byte in at most two rounds |
| OtaSlicer.Firmware.Packet | examples/system/ota/native_ota/1MB_flash/new_to_new_no_old/main/ota_example_main.c:332-364 | one received chunk: parse, copy, write, and leave if finished |
| OtaSlicer.Firmware.Task | examples/system/ota/native_ota/1MB_flash/new_to_new_no_old/main/ota_example_main.c:331-364 | the receive loop over all chunks, never entering the parser after RECVED |
| OtaSlicer.FeedStage | examples/system/ota/native_ota/1MB_flash/new_to_new_no_old/main/ota_example_main.c:339-363 | the loop enters the parser only in INIT, PREPARE or START |
| OtaSlicer.FeedAllStops | examples/system/ota/native_ota/1MB_flash/new_to_new_no_old/main/ota_example_main.c:362-363 | after leaving the loop nothing changes |
| OtaSlicer.RoundsAfterTheImageNeverEnd | examples/system/ota/native_ota/1MB_flash/new_to_new_no_old/main/ota_example_main.c:205-229 | in RECVED or FINISH the do-while goes to FINISH and consumes nothing however often it goes round |
| OtaChunks.LengthInChunk | examples/system/ota/native_ota/1MB_flash/new_to_new_no_old/main/ota_example_main.c:129-138 | of the chunks up to the key line the one that holds it announces the length of the whole header, the others none |
| OtaChunks.LearnInChunk | examples/system/ota/native_ota/1MB_flash/new_to_new_no_old/main/ota_example_main.c:129-138 | in any header chunk the plan is learnt if and only if the key line is in it |
| OtaChunks.WalkHeader | examples/system/ota/native_ota/1MB_flash/new_to_new_no_old/main/ota_example_main.c:128-162 | the lines of a chunk cut at line ends: no end before the last line of the header |
| OtaChunks.HeaderChunk | examples/system/ota/native_ota/1MB_flash/new_to_new_no_old/main/ota_example_main.c:171-177 | a header chunk changes at most the plan and ends the header exactly with its last line |
| OtaChunks.PreparedChunk | examples/system/ota/native_ota/1MB_flash/new_to_new_no_old/main/ota_example_main.c:178-190 | PREPARE: `read_bytes` stays below the offset, or the write starts exactly behind it |
| OtaChunks.StartedChunk | examples/system/ota/native_ota/1MB_flash/new_to_new_no_old/main/ota_example_main.c:191-204 | START: flash grows to the image, `write_bytes` stays within `ota_size`, no subtraction wraps |
| OtaChunks.FeedStep | examples/system/ota/native_ota/1MB_flash/new_to_new_no_old/main/ota_example_main.c:331-364 | one chunk at any position keeps flash equal to the part of the slice received so far, unless it overshoots |
| OtaChunks.FeedFrom | examples/system/ota/native_ota/1MB_flash/new_to_new_no_old/main/ota_example_main.c:331-364 | the same from any position of the response on |
| OtaChunks.FlashHoldsTheSlice | examples/system/ota/native_ota/1MB_flash/new_to_new_no_old/main/ota_example_main.c:165-230 | for every split that cuts the header at line ends: flash is B[offset .. offset+size] as far as B reaches and RECVED means all of it, if and only if the crossing chunk does not reach past the image |
| OtaChunks.CrossingAlwaysFits | examples/system/ota/native_ota/1MB_flash/new_to_new_no_old/main/ota_example_main.c:178-190 | that condition holds for every split if the image has at least 1024 bytes or ends the body |
| OtaChunks.ChunkingDoesNotMatter | examples/system/ota/native_ota/1MB_flash/new_to_new_with_old/main/ota_example_main.c:214-245 | two splits of one response leave the same flash and the same exit, in all three variants |
| OtaChunks.ShortImagesCanBeOverrun | examples/system/ota/native_ota/1MB_flash/new_to_new_no_old/main/ota_example_main.c:178-190 | otherwise not: a first image shorter than the chunk it arrives in is overrun |
| OtaChunks.HeadersExist | examples/system/ota/native_ota/1MB_flash/new_to_new_no_old/main/ota_example_main.c:129-134 | a concrete header meets all assumptions on headers |
| OtaChunks.TilePlan | examples/system/ota/native_ota/1MB_flash/new_to_new_no_old/main/ota_example_main.c:134-136 | device k of n writes exactly the k-th slice, or more than that if its crossing chunk is too long |
| OtaChunks.ImagesTileTheBody | examples/system/ota/native_ota/1MB_flash/new_to_new_no_old/main/ota_example_main.c:134-136 | the n images, each from its own split, concatenate to the first n*(len/n) bytes of the body if and only if no crossing chunk reaches past its image |
| OtaChunks.BigImagesTileTheBody | examples/system/ota/native_ota/1MB_flash/new_to_new_no_old/main/ota_example_main.c:134-136 | which every image of at least 1024 bytes guarantees |
| OtaChunks.WholeImage | examples/system/ota/native_ota/2+MB_flash/new_to_new_no_old/main/ota_example_main.c:134-136 | the 2+MB variant leaves the whole body in flash |
| OtaChunks.ImageBehind | examples/system/ota/native_ota/1MB_flash/new_to_new_with_old/main/ota_example_main.c:183-185 | the variant with an old firmware leaves the body behind its first `skip_size` bytes, and nothing if it is shorter |
| OtaLength.AtoiReads | examples/system/ota/native_ota/1MB_flash/new_to_new_no_old/main/ota_example_main.c:134-134 | blanks, a sign or none, and exactly the decimal digits that follow |
| OtaLength.LengthIsRead | examples/system/ota/native_ota/1MB_flash/new_to_new_no_old/main/ota_example_main.c:129-138 | for every 32-bit n: a key line with any blanks and n in decimal teaches n, whatever stands around it |
| OtaLength.NulHidesTheLength | examples/system/ota/native_ota/1MB_flash/new_to_new_no_old/main/ota_example_main.c:129-133 | nothing is searched behind a NUL |
| OtaLength.NulHidesTheRest | examples/system/ota/native_ota/1MB_flash/new_to_new_no_old/main/ota_example_main.c:128-162 | and the header is not ended behind one |
| OtaCuts.WalkCut | examples/system/ota/native_ota/1MB_flash/new_to_new_no_old/main/ota_example_main.c:143-148 | the lines of a chunk that ends inside a line of the header: malformed |
| OtaCuts.CutChunk | examples/system/ota/native_ota/1MB_flash/new_to_new_no_old/main/ota_example_main.c:128-148 | such a chunk ends the task with nothing written; it leaves its buffers exactly if it ends between the key and the end of its line |
| OtaCuts.CutFrom | examples/system/ota/native_ota/1MB_flash/new_to_new_no_old/main/ota_example_main.c:331-364 | so does a response in which any chunk ends inside a header line |
| OtaCuts.GoodImageIff | examples/system/ota/native_ota/1MB_flash/new_to_new_no_old/main/ota_example_main.c:165-230 | every split whatsoever: flash holds exactly the image and the loop was left in order if and only if no header line is cut and the crossing chunk fits |
| RingBuffer.LastOfLast | ESP-UART-Passthrough/main/src/tcp_bridge.c:57-72 | writing a and then b is writing a+b, wherever the ring overflows |
| RingBuffer.PutAtHead | ESP-UART-Passthrough/main/src/tcp_bridge.c:61-69 | storing at the head appends; on a full circle it takes the place of the oldest |
| RingBuffer.GetAtTail | ESP-UART-Passthrough/main/src/tcp_bridge.c:79-83 | what stands at the tail is the oldest element |
| RingBuffer.RingBuf.constructor | ESP-UART-Passthrough/main/src/tcp_bridge.c:42-42 | the static ring before initialization |
| RingBuffer.RingBuf.Init | ESP-UART-Passthrough/main/src/tcp_bridge.c:45-54 | an empty ring of the given size, or none without memory |
| RingBuffer.RingBuf.Put | ESP-UART-Passthrough/main/src/tcp_bridge.c:61-69 | one byte in: the newest `size` of contents + byte |
| RingBuffer.RingBuf.Get | ESP-UART-Passthrough/main/src/tcp_bridge.c:80-82 | one byte out: the oldest |
| RingBuffer.RingBuf.Write | ESP-UART-Passthrough/main/src/tcp_bridge.c:57-72 | contents become the last `size` bytes of contents + data, nothing without a buffer |
| RingBuffer.RingBuf.Read | ESP-UART-Passthrough/main/src/tcp_bridge.c:75-86 | removes and returns the longest prefix allowed; the rest of dst is untouched |
| TcpBridge.StepKeepsOrder | ESP-UART-Passthrough/main/src/tcp_bridge.c:92-187 | the ring is the end of the UART stream, and what was sent lies before it in order |
| TcpBridge.StepKeepsCounts | ESP-UART-Passthrough/main/src/tcp_bridge.c:92-245 | every step keeps the byte balance, the signals and the loss bound |
| TcpBridge.StepKeepsComplete | ESP-UART-Passthrough/main/src/tcp_bridge.c:92-187 | while nothing is lost or overwritten received == sent + in hand + ring |
| TcpBridge.StepKeepsInv | ESP-UART-Passthrough/main/src/tcp_bridge.c:92-245 | all four tasks keep the invariant |
| TcpBridge.RunKeepsInv | ESP-UART-Passthrough/main/src/tcp_bridge.c:92-245 | over runs of any length |
| TcpBridge.Reachable | ESP-UART-Passthrough/main/src/tcp_bridge.c:250-280 | and so in every state reachable from initialization |
| TcpBridge.SentInOrder | ESP-UART-Passthrough/main/src/tcp_bridge.c:165-181 | over all sessions, bytes handed to `send` are a subsequence of the UART stream with strictly increasing positions |
| TcpBridge.Conservation | ESP-UART-Passthrough/main/src/tcp_bridge.c:57-86 | received == sent + in hand + ring + lost + overwritten, and over all sessions at most 512 bytes times their number are lost |
| TcpBridge.SessionLosesAtMostAChunk | ESP-UART-Passthrough/main/src/tcp_bridge.c:57-86 | from any moment of any run until the next session starts: at most one 512-byte chunk is lost, and none once the sender has ended |
| TcpBridge.SessionsDoNotOverlap | ESP-UART-Passthrough/main/src/tcp_bridge.c:210-245 | the exit semaphore stays within its maximum of 2 |
| TcpBridge.CleanUpIsShort | ESP-UART-Passthrough/main/src/tcp_bridge.c:234-244 | after the server has stopped a session its tasks end within three steps of their own, without a loss |
| TcpBridge.OverwritingShows | ESP-UART-Passthrough/main/src/tcp_bridge.c:64-69 | the first step that overwrites leaves a backlog bigger than the ring |
| TcpBridge.NothingOverwrittenIffBacklogFits | ESP-UART-Passthrough/main/src/tcp_bridge.c:57-86 | over all runs and sessions nothing is overwritten if and only if at every moment the bytes received exceed the bytes taken out by at most 8192 |
| TcpBridge.ReadTakes | ESP-UART-Passthrough/main/src/tcp_bridge.c:165-171 | while the session runs and the ring is not empty the sender takes the oldest bytes, up to 512, and nothing else changes |
| TcpBridge.DrainIsShort | ESP-UART-Passthrough/main/src/tcp_bridge.c:165-181 | draining takes one step for what is in hand and two for each 512 bytes or part of them |
| TcpBridge.RunningSessionDrains | ESP-UART-Passthrough/main/src/tcp_bridge.c:165-181 | from any state of a running session exactly these steps empty the ring: held and ring bytes are sent, in order, none lost |
| TcpBridge.NewSessionDrains | ESP-UART-Passthrough/main/src/tcp_bridge.c:215-234 | a new session sends all that the ring has gathered before it |
| TcpBridge.EndIsFinal | ESP-UART-Passthrough/main/src/tcp_bridge.c:183-187 | behind the end of either task, or of the session, nothing more is taken out of the ring until the next `accept` |
| TcpBridge.Bridge.constructor | ESP-UART-Passthrough/main/src/tcp_bridge.c:250-255 | the bridge starts empty |
| TcpBridge.Bridge.UartRxDaemon | ESP-UART-Passthrough/main/src/tcp_bridge.c:102-112 | one delivery of the daemon |
| TcpBridge.Bridge.BufferToTcpRead | ESP-UART-Passthrough/main/src/tcp_bridge.c:165-168 | the top of the sender loop |
| TcpBridge.Bridge.BufferToTcpSend | ESP-UART-Passthrough/main/src/tcp_bridge.c:169-187 | send, and the exit of the sender on failure |
| TcpBridge.Bridge.TcpToUartEnd | ESP-UART-Passthrough/main/src/tcp_bridge.c:131-147 | the end of the other session task |
| TcpBridge.Bridge.ServerAccept | ESP-UART-Passthrough/main/src/tcp_bridge.c:215-234 | a new session, with tasks that may lack memory |
| TcpBridge.Bridge.ServerWake | ESP-UART-Passthrough/main/src/tcp_bridge.c:234-240 | the server takes the first signal and stops the session |
| TcpBridge.Bridge.ServerCleanUp | ESP-UART-Passthrough/main/src/tcp_bridge.c:242-244 | the end of the clean-up |
| EspNowFrame.UnsignedAgain | examples/wifi/espnow/main/espnow_example_main.c:109-121 | a magic that went through an `int` compares as unsigned again |
| EspNowFrame.RoundTrip | examples/wifi/espnow/main/espnow_example_main.c:109-150 | for every parameter and payload, parsing a prepared frame gives back type, state, sequence number and magic |
| EspNowFrame.FrameOnTheAir | examples/wifi/espnow/main/espnow_example_main.c:134-150 | every byte of a frame: type, state, sequence number, CRC over the frame with a zero CRC, magic, payload, little-endian and packed |
| EspNowFrame.AcceptedIffCrcCollides | examples/wifi/espnow/main/espnow_example_main.c:122-130 | a frame altered on the way, but for its CRC, is accepted if and only if the CRCs of the two collide |
| EspNowFrame.Transmitter.constructor | examples/wifi/espnow/main/espnow_example_main.c:38-38 | both sequence counters start at 0 |
| EspNowFrame.Transmitter.Prepare | examples/wifi/espnow/main/espnow_example_main.c:134-150 | the buffer becomes the prepared frame byte for byte and exactly one counter advances mod 65536 |
| EspNowFrame.FillHeader | examples/wifi/espnow/main/espnow_example_main.c:141-145 | the packed header with a zero CRC |
| EspNowFrame.FillPayload | examples/wifi/espnow/main/espnow_example_main.c:146-148 | the payload loop fills exactly the bytes behind the header |
| EspNowFrame.ParseInPlace | examples/wifi/espnow/main/espnow_example_main.c:109-131 | parsing the received copy in place, which zeroes its CRC field |
| Bytes.Le32Back | examples/wifi/espnow/main/espnow_example_main.c:145-145 | a little-endian 32-bit field reads back |
| Bytes.Le32Again | examples/wifi/roaming/main/roaming_example.c:31-34 | four bytes are the little-endian form of the number they give |
| EspNow.TransmitKeepsNumbers | examples/wifi/espnow/main/espnow_example_main.c:143-143 | a prepared and sent frame carries the number of frames of its kind before it |
| EspNow.OnSentKeepsNumbers | examples/wifi/espnow/main/espnow_example_main.c:174-211 | the send callback keeps the numbering |
| EspNow.OnReceivedKeepsNumbers | examples/wifi/espnow/main/espnow_example_main.c:212-282 | so does the receive callback |
| EspNow.OnSentKeepsRoles | examples/wifi/espnow/main/espnow_example_main.c:181-210 | the send callback keeps flags, count and outstanding callbacks in step |
| EspNow.StartOfUnicastKeepsRoles | examples/wifi/espnow/main/espnow_example_main.c:253-268 | so does the change from broadcasting to unicasting |
| EspNow.OnReceivedKeepsRoles | examples/wifi/espnow/main/espnow_example_main.c:212-282 | and the receive callback as a whole |
| EspNow.OnSentKeepsPackets | examples/wifi/espnow/main/espnow_example_main.c:201-205 | all unicast frames of a node go to one destination |
| EspNow.OnReceivedKeepsPackets | examples/wifi/espnow/main/espnow_example_main.c:253-268 | a frame says "heard someone" only after its sender has |
| EspNow.BeginKeepsLocal | examples/wifi/espnow/main/espnow_example_main.c:161-170 | the first send establishes all of it |
| EspNow.NodeKeepsLocal | examples/wifi/espnow/main/espnow_example_main.c:172-287 | every event keeps what one node keeps |
| EspNow.HearingLearns | examples/wifi/espnow/main/espnow_example_main.c:218-277 | hearing any packet of another node, as bytes, links only to a node that has heard someone and has no bigger magic |
| EspNow.NodeLearns | examples/wifi/espnow/main/espnow_example_main.c:218-270 | a new link goes to another node that has heard someone and whose magic is no bigger; peers are never forgotten |
| EspNow.StepKeepsInv | examples/wifi/espnow/main/espnow_example_main.c:172-287 | every step of an N-node network that loses, repeats, delays and reorders keeps the invariant |
| EspNow.RunKeepsInv | examples/wifi/espnow/main/espnow_example_main.c:172-287 | so does every run, and magics never change |
| EspNow.FreshInv | examples/wifi/espnow/main/espnow_example_main.c:333-349 | freshly initialized nodes satisfy it |
| EspNowPairing.LinksGoDown | examples/wifi/espnow/main/espnow_example_main.c:239-268 | in every run each link goes to one other node, from a magic no smaller, which has heard someone; its sender has stopped broadcasting |
| EspNowPairing.PathsGoDown | examples/wifi/espnow/main/espnow_example_main.c:253-268 | along every path of links magics never grow |
| EspNowPairing.CyclesShareOneMagic | examples/wifi/espnow/main/espnow_example_main.c:253-268 | all nodes on a cycle of links share one magic |
| EspNowPairing.Acyclic | examples/wifi/espnow/main/espnow_example_main.c:253-268 | with distinct magics the unicast graph is acyclic |
| EspNowPairing.SmallestOnlyListens | examples/wifi/espnow/main/espnow_example_main.c:253-268 | the node with the smallest magic never unicasts |
| EspNowPairing.EqualMagicsPairBothWays | examples/wifi/espnow/main/espnow_example_main.c:253-253 | two nodes with the same magic can each become the sender of the other |
| EspNowPairing.CycleIffMagicRepeats | examples/wifi/espnow/main/espnow_example_main.c:253-253 | a cycle is reachable if and only if two nodes draw the same magic |
| EspNowPairing.OneSenderIffMagicsDiffer | examples/wifi/espnow/main/espnow_example_main.c:249-253 | two nodes: at most one ever unicasts in every run if and only if the magics differ |
| EspNowPairing.ThirdPartyInvites | examples/wifi/espnow/main/espnow_example_main.c:240-253 | with a third node a link can go to a node that has never heard its sender |
| EspNowPairing.HandshakeIffTwoNodes | examples/wifi/espnow/main/espnow_example_main.c:239-268 | each end of every link has received a broadcast of the other, in every run, if and only if there are at most two nodes |
| EspNowPairing.NewPeerByBroadcast | examples/wifi/espnow/main/espnow_example_main.c:218-237 | a peer is added only on a broadcast of that peer |
| EspNowPairing.PeersWereHeard | examples/wifi/espnow/main/espnow_example_main.c:218-237 | every peer is one whose broadcast was delivered during the run |
| EspNowPairing.ExactCount | examples/wifi/espnow/main/espnow_example_main.c:181-210 | while unicasting exactly one unicast frame is outstanding; at "Send done" exactly the configured count was sent |
| EspNowPairing.SequenceNumbers | examples/wifi/espnow/main/espnow_example_main.c:143-143 | frames of each kind are numbered consecutively from 0 mod 65536 |
| EspNowProgress.HearsFirstCall | examples/wifi/espnow/main/espnow_example_main.c:218-242 | a node that still broadcasts can hear the first frame of any other running node |
| EspNowProgress.SaysSo | examples/wifi/espnow/main/espnow_example_main.c:181-210 | and then says in its next broadcast that it has heard someone |
| EspNowProgress.TakesUpCall | examples/wifi/espnow/main/espnow_example_main.c:249-268 | which a running node with a magic no smaller takes up |
| EspNowProgress.CountsDown | examples/wifi/espnow/main/espnow_example_main.c:185-192 | from any reachable state of a unicasting node its callbacks lead to "Send done" |
| EspNowProgress.CanStillPair | examples/wifi/espnow/main/espnow_example_main.c:172-287 | in a network of any size a running node can still serve any node that broadcasts and whose magic is no bigger |
| EspNowProgress.SmallerStillBroadcasts | examples/wifi/espnow/main/espnow_example_main.c:272-277 | two nodes: the smaller one broadcasts until the bigger one unicasts to it |
| EspNowProgress.PairingCanAlwaysComplete | examples/wifi/espnow/main/espnow_example_main.c:172-287 | no deadlock: from every reachable state in which both nodes run, a complete transfer of exactly the configured count is still possible |
| EspNowSteps.UnicastSilences | examples/wifi/espnow/main/espnow_example_main.c:272-277 | a unicast frame makes its receiver stop broadcasting and does nothing else |
| EspNowSteps.SilentForGood | examples/wifi/espnow/main/espnow_example_main.c:181-184 | a node that does not broadcast sends no broadcast in any run from there |
| EspNowSteps.UnicastEndsBroadcasting | examples/wifi/espnow/main/espnow_example_main.c:272-277 | so after a unicast frame its receiver never broadcasts again |
| EspNowSteps.FailedSendStops | examples/wifi/espnow/main/espnow_example_main.c:204-209 | in the send callback a failing send stops the node without a packet; without a send nothing differs |
| EspNowSteps.FailedAnswerStops | examples/wifi/espnow/main/espnow_example_main.c:257-262 | the same in the receive callback, roles unchanged |
| EspNowSteps.MemoryForStrangers | examples/wifi/espnow/main/espnow_example_main.c:221-237 | a broadcast of a stranger stops a node without memory; for a known peer memory does not matter |
| EspNowSteps.EndIsFinal | examples/wifi/espnow/main/espnow_example_main.c:185-192 | a node at its end, by countdown or error, does nothing in any run from there |
| EspNowSteps.NoiseIsIgnored | examples/wifi/espnow/main/espnow_example_main.c:279-281 | data of another type or with a wrong CRC change nothing |
| EspNowNode.SendParam.constructor | examples/wifi/espnow/main/espnow_example_main.c:325-349 | the initial parameters and the first prepared frame, in bytes |
| EspNowNode.SendParam.PrepareData | examples/wifi/espnow/main/espnow_example_main.c:134-150 | the buffer holds the frame of the protocol |
| EspNowNode.SendParam.Send | examples/wifi/espnow/main/espnow_example_main.c:204-209 | the radio gets the bytes of the buffer, or the node is deinitialized |
| EspNowNode.SendParam.Start | examples/wifi/espnow/main/espnow_example_main.c:161-170 | the first send |
| EspNowNode.SendParam.SendTo | examples/wifi/espnow/main/espnow_example_main.c:201-209 | address, prepare and send |
| EspNowNode.SendParam.HandleBroadcast | examples/wifi/espnow/main/espnow_example_main.c:218-271 | a broadcast frame in place is the protocol step |
| EspNowNode.SendParam.HandleSendCb | examples/wifi/espnow/main/espnow_example_main.c:174-211 | run in place, the send callback is the protocol step, countdown and "Send done" included |
| EspNowNode.SendParam.HandleRecvCb | examples/wifi/espnow/main/espnow_example_main.c:212-282 | run in place on received bytes, the receive callback is the protocol step |
| NeighborReport.LineLength | examples/wifi/roaming/main/roaming_example.c:161-177 | a neighbor takes 40 to 50 characters |
| NeighborReport.RenderLength | examples/wifi/roaming/main/roaming_example.c:161-177 | so n neighbors take 40n to 50n |
| NeighborReport.TenFitThirteenDoNot | examples/wifi/roaming/main/roaming_example.c:68-68 | up to ten neighbors always fit in 512 bytes with their NUL, thirteen never do |
| NeighborReport.EncodedSubsAreOk | examples/wifi/roaming/main/roaming_example.c:122-151 | any well-formed subelements pass the inner loop |
| NeighborReport.OkSubsAreEncoded | examples/wifi/roaming/main/roaming_example.c:122-151 | whatever passes the inner loop is well-formed subelements and at most two bytes |
| NeighborReport.EncodedElementIsOk | examples/wifi/roaming/main/roaming_example.c:93-118 | a well-formed element is accepted and read as its neighbor |
| NeighborReport.OkElementIsEncoded | examples/wifi/roaming/main/roaming_example.c:93-118 | an accepted element is the encoding of what was read |
| NeighborReport.EncodingIsWalked | examples/wifi/roaming/main/roaming_example.c:93-184 | the loop reads exactly the encoded neighbors |
| NeighborReport.WalkedIsEncoding | examples/wifi/roaming/main/roaming_example.c:93-184 | a report that is not refused is an encoding |
| NeighborReport.AcceptedIffWellFormed | examples/wifi/roaming/main/roaming_example.c:93-189 | no visited element is malformed if and only if the report is well-formed elements and fewer than 15 bytes |
| NeighborReport.TextOfReport | examples/wifi/roaming/main/roaming_example.c:161-189 | for every well-formed report the text is exactly the rendering if and only if that fits in 511 characters, cut to 511 otherwise, and the buffer is left if and only if the last piece starts beyond it; up to ten neighbors always fit |
| NeighborReport.ThirteenLeaveTheBuffer | examples/wifi/roaming/main/roaming_example.c:161-177 | a concrete report of 195 bytes leaves the buffer |
| NeighborReport.TwelveCanBeCut | examples/wifi/roaming/main/roaming_example.c:161-177 | a concrete report of twelve neighbors loses the end of its text |
| NeighborReport.NoListIffMalformed | examples/wifi/roaming/main/roaming_example.c:87-189 | NULL exactly for the empty report and, unless the buffer was left before, for a malformed element |
| NeighborReport.NeighborText.constructor | examples/wifi/roaming/main/roaming_example.c:90-90 | an empty, zeroed text buffer |
| NeighborReport.NeighborText.Print | examples/wifi/roaming/main/roaming_example.c:161-177 | `snprintf` at the end of the text: the buffer holds the text, truncated to 511 characters, and its NUL |
| NeighborReport.NeighborText.CString | examples/wifi/roaming/main/roaming_example.c:184-189 | what the caller reads |
| NeighborReport.NeighborText.PrintNeighbor | examples/wifi/roaming/main/roaming_example.c:161-177 | the ten calls append exactly one line |
| NeighborReport.CheckSubelements | examples/wifi/roaming/main/roaming_example.c:122-151 | the inner loop, reading inside the element only |
| NeighborReport.CheckElement | examples/wifi/roaming/main/roaming_example.c:93-118 | the checks of one element |
| NeighborReport.VisitElements | examples/wifi/roaming/main/roaming_example.c:93-184 | the outer loop renders exactly the neighbors before the first malformed element |
| NeighborReport.GetBtmNeighborList | examples/wifi/roaming/main/roaming_example.c:69-189 | the whole function on any bytes: the list, NULL, or a write beyond the text buffer, as specified |
| NeighborFields.LineReads | examples/wifi/roaming/main/roaming_example.c:161-177 | split at its commas, a line gives back address, number and the three bytes, in that order |
| NeighborFields.LinesOfText | examples/wifi/roaming/main/roaming_example.c:161-177 | split at its spaces, the text gives back its lines, in order |
| NeighborFields.ElementReads | examples/wifi/roaming/main/roaming_example.c:93-177 | the line of an element reads as bytes 2 to 14 of that element in the report |
| NeighborFields.TextReadsBack | examples/wifi/roaming/main/roaming_example.c:69-189 | for every well-formed report that fits: line k of the result reads as the bytes of element k, one line an element |
| NanoConsole.TokensAreTheLine | examples/system/factory-test/components/rf_test/nano_console.c:67-103 | the tokens, each with its NUL, are exactly the buffer |
| NanoConsole.LineOfTokens | examples/system/factory-test/components/rf_test/nano_console.c:67-103 | and no other tokens are |
| NanoConsole.LookupFindsFirst | examples/system/factory-test/components/rf_test/nano_console.c:36-50 | a command is found if and only if one of that name is listed, and it is the one registered last |
| NanoConsole.Press | examples/system/factory-test/components/rf_test/nano_console.c:116-208 | no key ever moves beyond the 128 bytes |
| NanoConsole.PressEdits | examples/system/factory-test/components/rf_test/nano_console.c:127-207 | without stale spaces one key does what the pure editor does |
| NanoConsole.PressAllEdits | examples/system/factory-test/components/rf_test/nano_console.c:116-208 | and so does every sequence of keys |
| NanoConsole.StaleSpaceShows | examples/system/factory-test/components/rf_test/nano_console.c:174-176 | a stale space makes a space key do nothing where the pure editor adds a separator |
| NanoConsole.PureIffNoStaleSpaces | examples/system/factory-test/components/rf_test/nano_console.c:110-208 | for all keystroke sequences the buffer is the pure editor if and only if it starts without spaces at 1..126 |
| NanoConsole.BackspaceUndoesIff | examples/system/factory-test/components/rf_test/nano_console.c:127-131 | a backspace takes back the last key, a space included, if and only if the line was not about to overflow |
| NanoConsole.IdleKeysChangeNothing | examples/system/factory-test/components/rf_test/nano_console.c:133-136 | keys that are no ASCII, and on an empty line space, Enter and backspace, change nothing |
| NanoConsole.LeadingSpaces | examples/system/factory-test/components/rf_test/nano_console.c:174-175 | any number of leading spaces changes nothing |
| NanoConsole.OverflowForgets | examples/system/factory-test/components/rf_test/nano_console.c:127-131 | with 127 characters in the line the next key only empties it |
| NanoConsole.LongTextWraps | examples/system/factory-test/components/rf_test/nano_console.c:127-131 | of a text without spaces the line keeps what follows the last multiple of 128 keys |
| NanoConsole.WordsAreTyped | examples/system/factory-test/components/rf_test/nano_console.c:174-200 | typed words stand in the buffer with NULs between them |
| NanoConsole.TextIsTyped | examples/system/factory-test/components/rf_test/nano_console.c:174-200 | any typed text stands in the line with NULs for spaces |
| NanoConsole.EnterRuns | examples/system/factory-test/components/rf_test/nano_console.c:138-173 | a line that fits is run as it was typed |
| NanoConsole.EnterCallsIffShort | examples/system/factory-test/components/rf_test/nano_console.c:127-173 | a listed command is called with what was typed if and only if that is shorter than 127 characters |
| NanoConsole.WordsAreCalledIffShort | examples/system/factory-test/components/rf_test/nano_console.c:127-173 | the same for words with one space between them |
| NanoConsole.EmptyTokenIff | examples/system/factory-test/components/rf_test/nano_console.c:73-96 | a token is empty exactly where a NUL follows no character |
| NanoConsole.EmptyArgumentIffTwoSpaces | examples/system/factory-test/components/rf_test/nano_console.c:174-176 | an argument is empty if and only if two spaces were typed next to each other |
| NanoConsole.TypedCommandRuns | examples/system/factory-test/components/rf_test/nano_console.c:138-173 | words and Enter: the command registered last under the first word is called with exactly these words, if memory lasts |
| ConsoleTask.Heap.Malloc | examples/system/factory-test/components/rf_test/nano_console.c:87-92 | a new block with the copied text, or nothing when memory is out |
| ConsoleTask.Heap.Free | examples/system/factory-test/components/rf_test/nano_console.c:58-58 | frees a block that is allocated, which rules out a double free |
| ConsoleTask.FreeArgs | examples/system/factory-test/components/rf_test/nano_console.c:52-65 | frees the table and every string exactly once |
| ConsoleTask.StrLen | examples/system/factory-test/components/rf_test/nano_console.c:86-86 | the length of the token at a position |
| ConsoleTask.CountNuls | examples/system/factory-test/components/rf_test/nano_console.c:73-76 | the counting loop counts the tokens |
| ConsoleTask.CopyToken | examples/system/factory-test/components/rf_test/nano_console.c:86-94 | one token in a block of its own |
| ConsoleTask.StoreToken | examples/system/factory-test/components/rf_test/nano_console.c:85-96 | one round of the copying loop |
| ConsoleTask.CopyTokens | examples/system/factory-test/components/rf_test/nano_console.c:85-96 | all tokens stored, or those that memory sufficed for |
| ConsoleTask.AllocArgs | examples/system/factory-test/components/rf_test/nano_console.c:67-103 | a table with exactly the tokens in blocks of their own, or NULL with the heap as before |
| ConsoleTask.StrEqual | examples/system/factory-test/components/rf_test/nano_console.c:41-41 | comparison with the first token |
| ConsoleTask.Console.constructor | examples/system/factory-test/components/rf_test/nano_console.c:105-114 | an empty line over whatever the buffer holds |
| ConsoleTask.Console.RegisterCmd | examples/system/factory-test/components/rf_test/nano_console.c:236-269 | the new command goes to the head; a failure leaves the heap as it was |
| ConsoleTask.Console.GetCmd | examples/system/factory-test/components/rf_test/nano_console.c:36-50 | the search equals `Lookup` |
| ConsoleTask.Console.Execute | examples/system/factory-test/components/rf_test/nano_console.c:157-171 | the command gets the tokens from memory, and every block is freed again |
| ConsoleTask.Console.PressKey | examples/system/factory-test/components/rf_test/nano_console.c:121-207 | one round of the loop is `Press`, with the heap unchanged |
| ConsoleTask.Console.ThreadLoop | examples/system/factory-test/components/rf_test/nano_console.c:116-208 | any number of rounds |
| UrlCodec.EncodingsDecode | ESP-UART-Passthrough/main/src/utils.c:14-35 | decoding gives back the text of each of its form encodings |
| UrlCodec.DecodesIff | ESP-UART-Passthrough/main/src/utils.c:14-35 | on every text: decoding gives t if and only if the text is a form encoding of t, stray percent signs included |
| UrlCodec.HexTable | ESP-UART-Passthrough/main/src/utils.c:17-25 | the hexadecimal digits in both cases, and nothing else, with their values |
| UrlCodec.ScanHexReads | ESP-UART-Passthrough/main/src/utils.c:43-45 | %x reads blanks, a sign or none, 0x or none, and all digits that follow, clamped to 32 bits |
| UrlCodec.ScanHexNeedsADigit | ESP-UART-Passthrough/main/src/utils.c:43-45 | and without a digit there it fails |
| UrlCodec.SixFieldsParse | ESP-UART-Passthrough/main/src/utils.c:39-53 | of printed bytes with ":" between them and anything behind them the first six are taken if there are six, else none |
| UrlCodec.FormEncodeEncodes | ESP-UART-Passthrough/main/src/utils.c:14-35 | the usual form encoding is one of them |
| UrlCodec.PrintedMacParses | ESP-UART-Passthrough/main/src/utils.c:39-53 | a printed address parses to the same six bytes |
| UrlCodec.FieldComesBackIffItFits | ESP-UART-Passthrough/main/src/utils.c:8-37 | any text comes back from url_decode as a C string if and only if it has no NUL and fits with one |
| UrlCodec.BssidComesBack | ESP-UART-Passthrough/main/src/wifi_prov.c:319-325 | a BSSID from the scan list, form-encoded in any way, decoded and parsed, is the same six bytes |
| UrlCodec.DecodeAndStore | ESP-UART-Passthrough/main/src/utils.c:14-33 | the same with the store into the destination, which may be the source behind its reader |
| UrlCodec.DecodeOne | ESP-UART-Passthrough/main/src/utils.c:14-33 | one round of the loop, reading nothing past the NUL of the source |
| UrlCodec.UrlDecode | ESP-UART-Passthrough/main/src/utils.c:8-37 | writes exactly the first dst_len-1 characters of the decoding and a NUL, also in place and for the wrapping dst_len of 0 |
| UrlCodec.ParseMacAddress | ESP-UART-Passthrough/main/src/utils.c:39-53 | the six bytes, or false and an untouched array |
| Text.DecReads | examples/wifi/roaming/main/roaming_example.c:170-177 | %u writes the decimal numeral of every number |
| Text.SignedReads | ESP-UART-Passthrough/main/src/wifi_prov.c:250-253 | %d writes it with its sign |
| Text.HexReads | examples/wifi/roaming/main/roaming_example.c:168-168 | %x writes the hexadecimal numeral |
| Text.Hex4Reads | examples/wifi/roaming/main/roaming_example.c:168-168 | %04x writes it in at least four digits |
| Text.Hex2Reads | examples/wifi/roaming/main/roaming_example.c:163-164 | %02x writes a byte in two |
| Text.Hex4Length | examples/wifi/roaming/main/roaming_example.c:168-168 | %04x writes 4 to 8 digits |
| ScanJson.SignedLength | ESP-UART-Passthrough/main/src/wifi_prov.c:250-253 | %d of an int8 and of an int |
| ScanJson.EntryLength | ESP-UART-Passthrough/main/src/wifi_prov.c:250-253 | an entry has at most 102 characters and ends with a brace |
| ScanJson.VisibleIs | ESP-UART-Passthrough/main/src/wifi_prov.c:246-249 | exactly the access points with an SSID are listed, in the order found |
| ScanJson.EntryReads | ESP-UART-Passthrough/main/src/wifi_prov.c:250-253 | read member by member, an entry gives back SSID, signal, authentication mode and BSSID |
| ScanJson.JsonReadsBack | ESP-UART-Passthrough/main/src/wifi_prov.c:236-264 | without quotes in SSIDs the reply reads back as exactly the visible access points, in order |
| ScanJson.EntryIsPrefixFree | ESP-UART-Passthrough/main/src/wifi_prov.c:250-253 | so it can be read off the front of a text in one way only |
| ScanJson.CommasDetermine | ESP-UART-Passthrough/main/src/wifi_prov.c:246-258 | so can a list of them |
| ScanJson.JsonDeterminesTheList | ESP-UART-Passthrough/main/src/wifi_prov.c:236-264 | without quotes in SSIDs the reply determines which visible access points were found |
| ScanJson.CommasFit | ESP-UART-Passthrough/main/src/wifi_prov.c:236-258 | the joined list has at most 103 characters an entry and no NUL |
| ScanJson.ListedMore | ESP-UART-Passthrough/main/src/wifi_prov.c:246-258 | one round of the loop: entry and comma as it prints them |
| ScanJson.Builder.constructor | ESP-UART-Passthrough/main/src/wifi_prov.c:236-244 | a buffer of 128 bytes an entry and 10 |
| ScanJson.Builder.Sprintf | ESP-UART-Passthrough/main/src/wifi_prov.c:250-257 | a piece and its NUL, inside the buffer |
| ScanJson.Builder.Entries | ESP-UART-Passthrough/main/src/wifi_prov.c:246-258 | the loop, without ever leaving the buffer |
| ScanJson.Builder.Build | ESP-UART-Passthrough/main/src/wifi_prov.c:243-264 | "[" + the entries with a visible SSID joined by "," + "]", and a NUL |
| ScanJson.ScanGetHandler | ESP-UART-Passthrough/main/src/wifi_prov.c:210-272 | the reply for any number of access points, at most 20 of them, and for missing memory |
| ScanJson.AssembleBody | ESP-UART-Passthrough/main/src/wifi_prov.c:278-296 | the first content-length bytes of the stream however it is cut, or failure if it ends before or there is no memory |

## Left out

- Other programs of the repository: normal_performance SPI (its logic is not part of this model), MQTT, CoAP, HTTP, TLS, mDNS, SNTP, Modbus, iperf and socket examples are thin wrappers over libraries.
- Copies: SoftAPProv repeats `utils.c` and `wifi_prov.c`; the other OTA directories repeat the three variants.
- Libraries: FreeRTOS, lwIP, esp_http_server, the SPI and UART drivers, stream buffers, `crc16_le`, `esp_random` and `httpd_query_key_value` appear as steps, parameters or assumptions.
- SPI: runs with both streams at once, which no configuration of the demo uses; `SpiTurns` covers the handlers' steps.
- SpiLink.Boards.SpiEventCallback: one bit of `trans_done` a call, as the rendezvous implies.
- SpiMasterToSlave.EverythingIsDelivered: for prompt runs; `TimelyRunsDeliver` covers all timely ones and `EveryRunDrains` all others.
- SpiMasterToSlave.EveryRunDrains: with the wake-up of the slave's reader in one step; `SpiWake.WakeInTwoSteps` says when two steps differ.
- OtaSlicer.Firmware.Packet: a failing `esp_ota_write`, which ends ota_example_task, is not modelled.
- OtaSlicer.Firmware.Task: nor is a receive error, which does the same.
- TcpBridge.SessionsDoNotOverlap: that a new session finds no old task is the assumption about the 500 ms; `CleanUpIsShort` says how few steps it has to cover.
- TcpBridge.Bridge.TcpToUartEnd: the bytes from TCP to UART are not modelled, they pass through one buffer unchanged.
- EspNowProgress.PairingCanAlwaysComplete: says that completion stays possible; that it happens would need a fair network, which ESP-NOW does not promise.
- EspNow: reboot after a failed `ESP_ERROR_CHECK` is a stop of the node.
- NeighborReport.GetBtmNeighborList: `calloc` succeeds (the source does not look), and the copies of LCI and civic measurements, which only feed a log line, are left out.
- UrlCodec.FieldComesBackIffItFits: speaks of url_decode only; `httpd_query_key_value` and its 128-byte buffers for encoded fields are not part of this model.
- ScanJson.JsonReadsBack: for SSIDs without quotes; the source does not escape them.
- ConsoleTask: echo of the typed characters, allocation of the 128-byte buffer itself, and what a command does when it is called.
- Wi-Fi configuration, retry counters, web pages, logging, GPIO, PWM, I2C and IR demos: single branches or hardware scripts.
