# A Dafny model of the STM32 CAN-FD gateway and its bootloader

The repository is the firmware of an STM32G4 board that answers OBD-II and UDS requests over CAN-FD: a bootloader that
updates the application over UDS, an ISO-TP transport shared by both, a diagnostic fault manager, an RS485 side, and
the FreeRTOS kernel it runs on. This project models the parts that keep state over many calls and proves what they are
for, over whole runs.

**Flash update.** `Flash` is the array behind its two HAL calls and the driver loops above them. A device may tear
(any content in the page or doubleword being worked on) or do each step or not. `Crc32` is the checksum, `BootGate`
the meta record and what the boot code decides from it, `BootLoop` the way from reset through gate and superloop to
the application, `FlashServer` the services 0x34, 0x36, 0x37 and 0x31, and `FlashRequests` what the octets of their
requests ask for and are answered. `UpdateRuns` runs all of it with power lost at any content the flash passes
through. `CrashSafety` shows that nothing but a complete image is ever started: in every run if a rewrite of the meta
page is atomic, else if each 0x34 meets a condition on the state it finds. `UnmarkedSlot` and `CrashExactly` show that
the condition is exact, `CrashWitnesses` has two runs from a checked image that fail without it. `UpdateWindows` lists
the contents a meta rewrite passes through, with the counter they show. `AcknowledgedData` is the tester's view.

**Transport.** `IsoTpFrames` is the frame format of ISO 15765-2:2016 section 9.6 and the segmentation, `IsoTpRx` and
`IsoTpTx` are the two independent state machines as functions, `IsoTp` the context updated in place and proved equal
to them. `IsoTpReception` and `IsoTpPacing` tell their course from the frames and the clock alone. `IsoTpRoundTrip`
connects sender and receiver, `IsoTpLiveness` shows that a send ends, `IsoTpAnswers` that other responses in between
do not disturb it.

**Kernel structures.** `StreamMachine` and `StreamRuns` interleave one writer and one reader of a stream or message
buffer at every shared access, `StreamCalls` follows the calls behind the steps, `StreamBuffer` is the buffer in
place. `TimerWheel` and `TimerDaemon` are the software timers in unbounded time, `IntrusiveList` the linked list on
the heap, `RingQueue` the queue, `EventGroups` the event groups. `OrderedEntries` and `Circular` are shared by them.

**Fault manager.** `DtcHistory` says what each table entry must be as a function of the ticks since the last clear,
`DtcManager` is the table in place and proved to be that, `DtcSaturation` shows where the failure numbers run out.

**Smaller machines.** `DynamicDids` and `PeriodicSends` are the services 0x2C and 0x2A, `DidRequests` the requests for
the first as a tester writes them, `Rs485` the frame printer and the byte-wise assembler.

Where the code and its comments differ, the model follows the code:
- `Core/Inc/ota_flash.h:28` says that residual bytes are ignored; the driver pads them with 0xFF and programs them.
- `Core/Inc/iso_tp.h:136-138` and `Core/Src/iso_tp.c:332` name 4095 bytes as the limit of the receive buffer; it is 512.
- `Core/Inc/obd2_simulator.h:83` calls the snapshot that of the first promotion; every promotion takes a new one.
- `Core/Src/obd2_simulator.c:521-522` says that fail order is confirm order. That holds up to 65535 promotions since a
  clear; beyond, `DtcManager.FirstConfirmedExactly` says when, and `DtcSaturation.SaturationMisorders` shows a failure.
- `Core/Src/bl_uds.c:220-224` says that from the marker on any power loss leaves the bootloader in place. Between the
  erase of the meta page and the marker's first doubleword the page counts as absent (`UpdateWindows.RetryWindow`). A
  first 0x34 over a complete image survives this; one repeated over a half-written slot need not
  (`CrashWitnesses.PowerLostInRetry`).
- `Core/Src/bl_uds.c:279-282` answers a failed marker without ending a transfer that was open. If the page erase was
  done, the next 0x36 is written and acknowledged with no marker in place (`CrashWitnesses.BlockBehindFailedMarker`).

## Model

| member | source | states |
|---|---|---|
| CrashSafety.AnyRetries | Core/Src/bl_uds.c:225-435 | With the meta rewrite atomic, over every run from a device without a transfer under way, with any retries, power losses at any content the flash passes through, reboots and dropped transfers: if the bootloader may start the application, the slot is the old image or one that CheckMemory accepted |
| CrashSafety.CrashSafety | Core/Src/bl_uds.c:225-435 | The same under every fault model, for runs whose 0x34s each meet MayBegin: always if the meta rewrite is atomic, in a slot that is safe without its marker if each flash step happens or not, in a complete slot with nothing left to write on a tearing device |
| CrashSafety.OneAttempt | Core/Src/bl_uds.c:225-435 | The same for any single attempt, one 0x34 and whatever follows it, under every fault model and with no further assumption |
| CrashSafety.CrashStep | Core/Src/bl_uds.c:225-435 | One event of any kind keeps "the marker stands, or the slot is complete and stays so, or the page is erased above a slot that needs no marker" |
| CrashSafety.DownloadIsCrashSafe | Core/Src/bl_uds.c:225-304 | Every content 0x34 passes through is survived, and what it leaves keeps the invariant, also when its marker fails under an open transfer |
| CrashSafety.BlockIsCrashSafe | Core/Src/bl_uds.c:306-336 | The same for 0x36, under the marker or without it |
| CrashSafety.CheckIsCrashSafe | Core/Src/bl_uds.c:363-435 | Every content CheckMemory passes through has a complete slot |
| CrashSafety.UnmarkedBlock | Core/Src/bl_uds.c:306-336 | A 0x36 without a marker leads to one of the slots counted on beforehand, whatever part of it is done |
| CrashExactly.DownloadSafeExactly | Core/Src/bl_uds.c:225-336 | On a device that does each step or not, for a state that is safe until then: this 0x34, with anything but another after it, is crash safe in every run if and only if the slot, and everything the transfer left open can make of it, is complete or has no plausible vectors |
| CrashExactly.DownloadSafeWhen | Core/Src/bl_uds.c:225-336 | The same with the condition spelt out, for fewer than 256 complete images: the slot is complete or implausible, and no aligned room is left, or less than eight bytes of it at the start, or it is not under plausible vectors |
| CrashExactly.TornDownloadSafeWhen | Core/Src/bl_uds.c:225-336 | The same on a tearing device: if and only if the slot is complete and no aligned room is left |
| CrashExactly.UnsafeRunStarts | Core/Src/bl_uds.c:268-336 | The run behind every failure: power lost behind the page erase, or a marker that fails there and a block acknowledged after it |
| CrashExactly.TornRunStarts | Core/Src/bl_uds.c:268-336 | The same with a page torn into a VALID record |
| CrashExactly.FillIsSent | Core/Src/bl_uds.c:306-336 | Any content counted on can be written by one acknowledged 0x36 |
| UnmarkedSlot.SafeToRepeatExactly | Core/Src/bl_uds.c:306-336 | For fewer than 256 images: all an open transfer can make of a slot is safe if and only if the slot is safe and there is no room for vectors, or for other bytes under those there |
| UnmarkedSlot.RepeatIsSafe | Core/Src/bl_uds.c:306-336 | The "if" of it for any set of images |
| CrashWitnesses.BlockBehindFailedMarker | Core/Src/bl_uds.c:268-336 | From every state with a checked image: 0x34 answered 0x74, a second one answered 0x72 behind its page erase, 0x36 acknowledged; no power is lost, and half an image may be started |
| CrashWitnesses.PowerLostInRetry | Core/Src/bl_uds.c:268-336 | From every state with a checked image: 0x34, vectors written under its marker, power lost in a second 0x34 behind its page erase; half an image may be started |
| UpdateRuns.ValidMeansAccepted | Core/Src/bl_uds.c:225-435 | With the meta rewrite atomic, over all runs with any retries, losses and reboots: a VALID record of a size the slot can hold describes exactly the bytes CheckMemory accepted last, or those of the old record if it has accepted none |
| UpdateRuns.AntiRollback | Core/Src/bl_uds.c:268-296 | With the meta rewrite atomic, the anti-rollback counter never falls over any run |
| UpdateRuns.RecordStep | Core/Src/bl_uds.c:268-421 | One event keeps the record truthful and the counter from falling; an active transfer means that the page holds its marker with the saved counter |
| UpdateRuns.DownloadKeepsRecord | Core/Src/bl_uds.c:268-296 | 0x34 carries the counter over the erase of the meta page |
| UpdateRuns.CheckKeepsRecord | Core/Src/bl_uds.c:382-421 | CheckMemory raises the counter or keeps it, and records what it checked |
| UpdateRuns.BlockKeepsRecord | Core/Src/bl_uds.c:306-336 | 0x36 touches neither record nor counter |
| UpdateRuns.QuietStep | Core/Src/bl_uds.c:338-435 | Every other request, and every refused one, leaves the flash alone and opens no transfer |
| UpdateRuns.EraseKeepsMeta | Core/Src/ota_flash.c:17-63 | The slot erase never reaches the meta page |
| UpdateRuns.WriteKeepsMeta | Core/Src/ota_flash.c:65-95 | A block write never reaches the meta page, padding included |
| UpdateWindows.MarkerWindow | Core/Src/bl_boot.c:74-97 | While the marker goes in step by step, the bootloader may start the slot exactly when the page is erased and nothing is programmed yet, and the slot begins with plausible vectors |
| UpdateWindows.RetryWindow | Core/Src/bl_uds.c:268-288 | Of the contents any 0x34 passes through on a device that does not tear, exactly the first may be started, and exactly if the vectors look plausible |
| UpdateWindows.CounterWindow | Core/Src/bl_boot.c:63-83 | The counter reads 0 while the page is erased, 0xFFFFFFFF with the first doubleword in, the new version after that |
| UpdateWindows.CounterFallsExactly | Core/Src/bl_boot.c:63-83 | A rewrite that keeps or raises the version lowers the counter at some step if and only if the counter was above 0 and the page erase is done |
| UpdateWindows.PartialReads | Core/Src/bl_boot.c:74-83 | What a record half written reads as |
| UpdateWindows.ErasedMetaIsAbsent | Core/Src/bl_boot.c:37-46 | The erased page counts as absent |
| AcknowledgedData.AcknowledgedIsFlashed | Core/Src/bl_uds.c:225-336 | Over any run, under every fault model: between a 0x34 answered 0x74 and the next 0x34 the slot begins with the acknowledged payloads in order, and s_xfer_written is their total |
| AcknowledgedData.BlockCounter | Core/Src/bl_uds.c:306-332 | The k-th acknowledged block carries the counter k mod 256 |
| AcknowledgedData.BlockStaysInSlot | Core/Src/bl_uds.c:306-336 | No 0x36, whatever its outcome, changes a byte outside the slot |
| AcknowledgedData.CheckedIsSent | Core/Src/bl_uds.c:363-421 | The last four octets of the CheckMemory request that is accepted are the checksum of the acknowledged payloads, highest octet first, and those payloads are the bytes the VALID record stands for |
| AcknowledgedData.WriteAppends | Core/Src/ota_flash.c:65-95 | A write that succeeds appends its data to the slot, a failed one leaves everything below its address |
| FlashServer.Server.Dispatch | Core/Src/bl_uds.c:439-533 | The dispatcher for the flash services: functional requests are dropped, wrong session and locked server answered, else one service; transfer state, flash contents visited, answer and any response-pending frame as the service says |
| FlashServer.Server.HandleRequestDownload | Core/Src/bl_uds.c:225-304 | 0x34: refusals, then the response-pending frame, marker, erase and new transfer state, with each failure |
| FlashServer.Server.MarkAndErase | Core/Src/bl_uds.c:266-303 | The part of 0x34 behind its checks: no erase before the marker is complete, no transfer before the erase is |
| FlashServer.Server.EraseBehindMarker | Core/Src/bl_uds.c:266-291 | The contents the two flash operations pass through, in order |
| FlashServer.Server.HandleTransferData | Core/Src/bl_uds.c:306-336 | 0x36: refusals, then the write; counters move only if it succeeds |
| FlashServer.Server.HandleTransferExit | Core/Src/bl_uds.c:338-352 | 0x37 closes an open transfer once |
| FlashServer.Server.HandleRoutineControl | Core/Src/bl_uds.c:363-435 | CheckMemory: refusals with their codes, VALID record with the computed checksum, transfer consumed |
| FlashServer.Server.ResetTransfer | Core/Src/bl_uds.c:42-52 | Drops the transfer but not the saved counter |
| FlashServer.ParseDownload | Core/Src/bl_uds.c:228-258 | The checks of 0x34 with its two loops, as a verdict |
| FlashServer.ParseCheck | Core/Src/bl_uds.c:366-409 | The checks of CheckMemory in the order of the code |
| FlashServer.DownloadVerdict | Core/Src/bl_uds.c:228-258 | An accepted 0x34 names 1..92K bytes |
| FlashServer.TransferVerdict | Core/Src/bl_uds.c:309-324 | An accepted 0x36 fits the announced size |
| FlashServer.CheckVerdict | Core/Src/bl_uds.c:366-409 | CheckMemory accepts only after 0x37 and at least one byte |
| FlashServer.ValidMeta | Core/Src/bl_uds.c:409-415 | The record CheckMemory writes is VALID, with the size written and the version asked for |
| FlashRequests.DownloadAsked | Core/Src/bl_uds.c:228-258 | A 0x34 in address and length fields of 1 to 4 bytes, whatever follows them, is granted if and only if it names APP_BASE and 1..92K bytes, and then for that size |
| FlashRequests.DownloadFormats | Core/Src/bl_uds.c:228-250 | Every 0x34 is of that form, or has a width out of range (0x31), or is too short (0x13) |
| FlashRequests.DownloadLeavesBlank | Core/Src/bl_uds.c:266-303 | A 0x34 answered 74 22 00 F8 has left every byte of the size asked for at 0xFF under the marker, with a transfer of that size; the other answer is 7F 34 72, and leaves the transfer as it was |
| FlashRequests.CheckPassesExactly | Core/Src/bl_uds.c:366-407 | CheckMemory passes if and only if the request has twelve bytes with sub-function 1 (suppress bit ignored) and routine 02 03, a closed transfer has bytes written, the version is no lower than the saved counter, and its last four octets are the checksum of the slot as a number, highest first |
| FlashRequests.CheckAnswered | Core/Src/bl_uds.c:363-435 | A CheckMemory that does not pass changes nothing; one that passes makes the slot startable under the version it named and returns the checksum in the octets it came in, unless suppressed, or fails in the meta page with 0x72 |
| FlashRequests.NineDigitsPass | Core/Src/bl_uds.c:388-407 | For instance the nine digits 1 to 9 pass with CB F4 39 26 and any version from the floor up |
| FlashRequests.ChecksumNamed | Core/Src/bl_uds.c:390-402 | Request and answer name a checksum by the same four octets |
| FlashRequests.BlockAnswered | Core/Src/bl_uds.c:306-336 | 0x36: taken exactly in its turn and within the size announced, else 0x22, 0x73 or 0x71 in this order and nothing changed; a write that fails is answered 0x72 and may be repeated |
| FlashRequests.ExitAnswered | Core/Src/bl_uds.c:338-351 | 0x37 closes an open transfer and answers 77, else 0x22 |
| FlashRequests.RecordChecked | Core/Src/bl_boot.c:49-71 | A record just written is checked exactly if magic and state are those of a VALID one, its size is 1..92K and its checksum that of as many slot bytes; its version counts exactly under the magic and one of the two states |
| FlashRequests.AbsentExactly | Core/Src/bl_boot.c:37-46 | The page counts as absent exactly if the twenty bytes of a record are all 0xFF |
| FlashRequests.VectorsExactly | Core/Src/bl_boot.c:90-97 | Vectors are plausible exactly if the stack pointer lies in RAM, its end included, and the reset vector is odd and in the slot |
| FlashRequests.GateAnswers | Core/Src/bl_uds.c:66-77 | A functional request is not answered, another session gets 0x7F, a locked server 0x33, and none of them touches anything |
| BootGate.MayStartExactly | Core/Src/bl_main.c:79-104 | Gate and self-heal jump together start the slot if and only if the record is VALID with a matching checksum, or the record is absent and the vectors are plausible |
| BootGate.GateExactly | Core/Src/bl_main.c:79-104 | For each value of the handoff flag: the gate jumps if and only if no update is asked for and the record is VALID with a matching checksum, or absent under plausible vectors |
| BootGate.UpdatingStays | Core/Src/bl_main.c:79-104 | Under the UPDATING marker nothing is ever started |
| BootGate.CorruptionRefused | Core/Src/bl_boot.c:49-59 | After a checked image, any change confined to four consecutive image bytes is refused by gate and self-heal jump |
| BootGate.PrintParse | Core/Src/bl_boot.c:74-83 | A record printed for programming is read back as itself |
| BootGate.WithMetaReads | Core/Src/bl_boot.c:74-83 | A finished rewrite reads as the new record and leaves the slot alone |
| BootGate.WriteMeta | Core/Src/bl_boot.c:74-83 | bl_meta_write: success means the new record; nothing outside the page ever changes; on a device that does not tear the page passes exactly through erased and the doublewords of the record in order |
| BootGate.ScanMeta | Core/Src/bl_boot.c:37-46 | The loop of bl_meta_absent finds exactly the page with five erased words |
| BootLoop.StartsExactly | Core/Src/bl_main.c:79-173 | From reset on: the application is started at the gate exactly without a handoff and with a checked record or, under no record, plausible vectors; later in the first pass of the superloop that finds the Default session and a checked record |
| BootLoop.UpdateHolds | Core/Src/bl_main.c:83-87 | After a handoff nothing is started, however good the image, before the session is back at Default; then a checked image is started in that very pass |
| BootLoop.Bootloader.Boot | Core/Src/bl_main.c:79-133 | The flag is consumed by the boot that finds it, which stays and begins in the Programming session; without it the gate decides |
| BootLoop.Bootloader.Loop | Core/Src/bl_main.c:149-173 | A pass drops a transfer on the way back to Default, and starts a checked image in Default only |
| BootLoop.Bootloader.AskForUpdate | Core/Src/uds_service.c:463-465 | What the application leaves asks for the update |
| Crc32.CheckValue | Core/Src/bl_boot.c:17-27 | The checksum of the nine digits 1 to 9 is CBF43926 |
| Crc32.BitsAreWorth | Core/Src/bl_boot.c:20-21 | A byte is the sum of its bits |
| Crc32.BurstDetected | Core/Src/bl_boot.c:17-27 | Two byte strings of one length that differ only inside four consecutive bytes never have the same checksum |
| Crc32.TableFormAgrees | Core/Src/bl_boot.c:17-27 | The byte-wise table form of RFC 1952 section 8 and the bit loop compute the same register |
| Crc32.ComputeCrc | Core/Src/bl_boot.c:17-27 | Both loops of bl_crc32 compute the checksum |
| Crc32.MaskIsConditional | Core/Src/bl_boot.c:22-23 | The masked fold of the polynomial is a conditional one |
| Crc32.BitStepLinear | Core/Src/bl_boot.c:22-23 | The bit step is linear over exclusive or |
| Crc32.BitStepInjective | Core/Src/bl_boot.c:22-23 | The bit step is injective |
| Crc32.TableStepIsByteStep | Core/Src/bl_boot.c:20-24 | One table step is eight bit steps |
| Crc32.FourBytesPacked | Core/Src/bl_boot.c:20-24 | Feeding four bytes is 32 bit steps on the packed word |
| Crc32.DifferencePersists | Core/Src/bl_boot.c:20-24 | Registers that differ stay different over equal further bytes |
| Crc32.WindowDifference | Core/Src/bl_boot.c:20-24 | The difference after a window is what the byte differences alone make of zero |
| Flash.EraseReaches | Core/Src/ota_flash.c:17-63 | A successful erase leaves every byte of the range at 0xFF if and only if the range fits the pages its size needs (any range begun at a page does; 2048 bytes from an odd address do not, and their last byte stays as it was); pages the range does not touch never change |
| Flash.FlashDevice.Erase | Core/Src/ota_flash.c:17-63 | ota_flash_erase: page after page from the page of the address, up to the first error; blank if it succeeds, nothing outside those pages changed, and for a range that fits its pages every byte of it at 0xFF; a size so near 2^32 that the page count wraps to 0 succeeds without an erase |
| Flash.FlashDevice.Write | Core/Src/ota_flash.c:65-95 | ota_flash_write: doubleword after doubleword up to the first error; the data padded with 0xFF if it succeeds, misaligned addresses fail without a change, a range that wraps is written up to the end of the array and fails |
| Flash.FlashDevice.ErasePages | Core/Src/ota_flash.c:37-63 | The loop over the pages, up to the first error |
| Flash.FlashDevice.HalErase | Core/Src/ota_flash.c:37-56 | What is assumed of one page erase |
| Flash.FlashDevice.HalProgram | Core/Src/ota_flash.c:80-90 | What is assumed of one doubleword program |
| Flash.InRangeExactly | Core/Src/ota_flash.c:12-15 | The 32-bit range check admits exactly the sub-ranges of the upper flash, and sums that wrap |
| Flash.ChunkOfPadded | Core/Src/ota_flash.c:80-88 | The doubleword built at an offset is that of the padded data |
| Flash.OneMorePage | Core/Src/ota_flash.c:37-56 | The loop of the erase, one page on |
| Flash.OneMoreDoubleword | Core/Src/ota_flash.c:80-90 | The loop of the write, one doubleword on |
| IsoTpRoundTrip.RoundTrip | Core/Src/iso_tp.c:112-149 | A message of 1..512 bytes sent under any flow control of CONTINUEs with any block size and STmin and at most 7 WAITs is handed up by the receiver exactly once, byte for byte |
| IsoTpRoundTrip.Reassembles | Core/Src/iso_tp.c:197-407 | Whatever the receiver was in the middle of, the frames of a message of 1..512 bytes make it dispatch exactly that message, once |
| IsoTpRoundTrip.Streams | Core/Src/iso_tp.c:241-407 | For 513 bytes up to the largest length, whatever the receiver was in the middle of: the sink hears ERROR if a stream was open, then BEGIN, the message cut as framed, END, and the data put together is the message |
| IsoTpRoundTrip.SingleArrives | Core/Src/iso_tp.c:460-478 | A single frame, padded to a legal length, yields its payload |
| IsoTpRoundTrip.FirstArrives | Core/Src/iso_tp.c:496-528 | A first frame, classic or escape, yields total length and first chunk |
| IsoTpRoundTrip.ConsecutiveArrives | Core/Src/iso_tp.c:563-585 | A consecutive frame yields number and chunk |
| IsoTpRoundTrip.TakesBuffered | Core/Src/iso_tp.c:355-407 | One consecutive frame advances a buffered reception, or completes it |
| IsoTpRoundTrip.TakesStreamed | Core/Src/iso_tp.c:355-407 | One consecutive frame advances a streamed reception, or completes it |
| IsoTpRx.SinkLanguage | Core/Src/iso_tp.c:160-407 | Over any run of frames and ticks the sink hears BEGIN DATA* (END|ERROR), again and again; it is inside a transfer exactly while streaming, the data heard of that transfer are the frame chunks taken so far in order, END comes exactly at the total; a buffered reception has its chunks in the buffer |
| IsoTpRx.StepHolds | Core/Src/iso_tp.c:241-407 | One event keeps the counter at the bytes gathered, and the buffer at those bytes |
| IsoTpRx.ConsecutiveHolds | Core/Src/iso_tp.c:355-407 | A message that completes is what was gathered from its frames |
| IsoTpRx.StepPhase | Core/Src/iso_tp.c:648-654 | One frame or tick moves the sink within that language |
| IsoTpRx.FirstPhase | Core/Src/iso_tp.c:241-345 | A first frame closes an open stream before it opens another |
| IsoTpRx.ConsecutivePhase | Core/Src/iso_tp.c:355-407 | DATA, and END or ERROR where they belong |
| IsoTpRx.ProcessKeepsValid | Core/Src/iso_tp.c:66-110 | A buffered reception never outgrows the 512-byte buffer, a streamed one is open, incomplete and has a sink |
| IsoTpRx.FlowIgnored | Core/Src/iso_tp.c:72-79 | Flow control never disturbs a reception |
| IsoTpTx.BusCarriesPrefix | Core/Src/iso_tp.c:112-149 | Under any flow control, ticks and controller refusals the frames on the bus are a prefix of the segmentation of the message; while the send is open 62 <= tx_sent < tx_total_size <= 512 and what is missing is exactly the rest |
| IsoTpTx.RunComplete | Core/Src/iso_tp.c:412-612 | Without timeout, overflow or refusal a send that ends has put the whole segmentation on the bus |
| IsoTpTx.NextCfOnTrack | Core/Src/iso_tp.c:555-612 | The next consecutive frame is the next of the segmentation |
| IsoTpTx.StepOnTrack | Core/Src/iso_tp.c:412-454 | Flow control and ticks keep the send on track |
| IsoTpTx.StepValid | Core/Src/iso_tp.c:412-454 | Counters and states stay in range |
| IsoTpTx.SendOnTrack | Core/Src/iso_tp.c:126-148 | The first frame begins the segmentation |
| IsoTpAnswers.SinglesPassBy | Core/Src/iso_tp.c:126-134 | Single frames sent, and longer responses rejected, while a multi-frame send is open change neither its states nor its segmented frames |
| IsoTpAnswers.BusyBusCarriesPrefix | Core/Src/iso_tp.c:112-149 | With any responses in between, the segmented frames on the bus are a prefix of the segmentation of the message |
| IsoTpAnswers.PassesBy | Core/Src/iso_tp.c:126-134 | One response in between leaves the sender as it is |
| IsoTpLiveness.SendEnds | Core/Src/iso_tp.c:151-185 | With the tick on one clock, every multi-frame send is back in TX_IDLE after a number of ticks fixed by its length and the tick period, whatever peer and controller do |
| IsoTpLiveness.StepBurns | Core/Src/iso_tp.c:151-185 | Each tick of an open send uses up bytes, WAITs or time to the deadline |
| IsoTpLiveness.BlockSizeRespected | Core/Src/iso_tp.c:594-612 | No CONTINUE is answered by more consecutive frames than its block size |
| IsoTpFrames.LegalIsLeast | Core/Src/fdcan_config.c:63-86 | A frame is filled up to the least length of CAN-FD that has room |
| IsoTpReception.FrameDecides | Core/Src/iso_tp.c:160-407 | From any reception under way, over any frames and ticks but a new start: it goes on, completes or is lost just as numbers, lengths and times of the frames say; the sink hears exactly what they brought and then END or ERROR, a buffered message is handed up whole, once, or not at all |
| IsoTpReception.WrongNumberEnds | Core/Src/iso_tp.c:362-367 | An addressed consecutive frame with another number than the expected one ends the reception, and the sink of a stream hears ERROR(total) and nothing else |
| IsoTpReception.TimeoutEnds | Core/Src/iso_tp.c:160-167 | So does a tick one second after the last frame; no other tick does anything |
| IsoTpReception.RightNumberTaken | Core/Src/iso_tp.c:369-407 | The frame expected is forwarded or kept as far as it is wanted, and the last one completes the reception |
| IsoTpReception.StreamUnbroken | Core/Src/iso_tp.c:241-407 | Between the first frame of a stream and the END its sink hears, with no start in between, every addressed consecutive frame has come in its turn, and the data heard are as many bytes as were announced |
| IsoTpReception.OpenMeansInRow | Core/Src/iso_tp.c:362-375 | While a reception goes on, the numbers of all addressed consecutive frames are in row mod 16 |
| IsoTpReception.FirstOpens | Core/Src/iso_tp.c:241-330 | A first frame that is taken opens a reception of its length whatever was under way, answered CONTINUE; an open stream hears ERROR first |
| IsoTpReception.FirstRefused | Core/Src/iso_tp.c:252-330 | One too long without a sink is answered OVERFLOW, one without its length not at all; either ends what was under way |
| IsoTpReception.SingleBrings | Core/Src/iso_tp.c:197-233 | Of any single frame the bytes behind its header that came in are handed up, as many as it announces |
| IsoTpReception.FirstNames | Core/Src/iso_tp.c:241-275 | A first frame names its length in twelve bits or, these being zero, in the next four bytes, if as many came in |
| IsoTpReception.FirstBrings | Core/Src/iso_tp.c:277-330 | It brings the bytes behind its header that came in, as many as are announced |
| IsoTpReception.SingleGoesFirst | Core/Src/iso_tp.c:197-233 | A single frame ends what was under way and is handed up |
| IsoTpPacing.SeparationKept | Core/Src/iso_tp.c:169-182 | Over every multi-frame send: a tick sends a frame exactly if the separation asked for by the last CONTINUE has passed since the frame before, flow control sends one only as a CONTINUE, and exactly the last frame of a block, if not of the message, is followed by a wait for flow control |
| IsoTpPacing.FlowDoes | Core/Src/iso_tp.c:412-454 | CONTINUE: the next frame at once, under its block size and separation; WAIT: a new deadline, seven times; any other status ends the send; none of them does anything unless waited for |
| IsoTpPacing.SendDoes | Core/Src/iso_tp.c:112-149 | A send of up to 62 bytes puts out one frame whatever is under way, a longer one up to 512 its first frame if nothing is, any other nothing |
| IsoTpPacing.TickDoes | Core/Src/iso_tp.c:169-182 | A tick a second after the deadline began ends the wait; one after the separation sends |
| IsoTp.Transport.ProcessFrame | Core/Src/iso_tp.c:66-110 | The entry point for frames: receiver, sender, outputs, and the answer of the upper layer to a dispatched message |
| IsoTp.AnswerId | Core/Src/iso_tp.c:656-688 | However a message was addressed and in however many frames it came, its answer goes out under 0x7E8, and nothing else is answered |
| IsoTp.Transport.Receive | Core/Src/iso_tp.c:66-110 | The switch over frame types for addressed frames |
| IsoTp.Transport.ProcessSingleFrame | Core/Src/iso_tp.c:197-233 | Single frames, classic and escape |
| IsoTp.Transport.ProcessFirstFrame | Core/Src/iso_tp.c:241-345 | First frames: restart, length, buffer, stream or overflow |
| IsoTp.Transport.ProcessConsecutiveFrame | Core/Src/iso_tp.c:355-407 | Consecutive frames: sequence, copy or forward, completion |
| IsoTp.Transport.SendResponse | Core/Src/iso_tp.c:112-149 | Single frames at once, longer messages if the sender is free |
| IsoTp.Transport.SendNextCf | Core/Src/iso_tp.c:555-612 | One consecutive frame, block and end |
| IsoTp.Transport.ProcessFlowControl | Core/Src/iso_tp.c:412-454 | CONTINUE, WAIT with its limit, and abort |
| IsoTp.Transport.Tick | Core/Src/iso_tp.c:151-185 | Both timeouts and the pacing |
| IsoTp.Transport.AbortStream | Core/Src/iso_tp.c:648-654 | ERROR to the sink if a stream is open |
| StreamCalls.BytesInOrder | Middlewares/FreeRTOS-Kernel/stream_buffer.c:1003-1331 | Stream buffer, every interleaving: of the data of each send its first bytes go in, as many as the smaller of the data and the space free when xTail was found unchanged; the bytes received are a prefix of all those in order of the sends, and the buffer holds the rest |
| StreamCalls.MessagesInOrder | Middlewares/FreeRTOS-Kernel/stream_buffer.c:1003-1331 | Message buffer, every interleaving: a send has put in its whole data exactly if data and length word fitted that space; the messages received are the first of those, each whole, and the buffer holds the others whole |
| StreamCalls.ReceivesGet | Middlewares/FreeRTOS-Kernel/stream_buffer.c:1216-1331 | Every interleaving: each receive takes of what it found as much of a stream as it had room for, and the first message whole exactly if it had room for it |
| StreamCalls.SendReturns | Middlewares/FreeRTOS-Kernel/stream_buffer.c:754-1053 | A send left to itself from any state returns within its data and ten steps |
| StreamCalls.ReceiveReturns | Middlewares/FreeRTOS-Kernel/stream_buffer.c:1216-1331 | A receive left to itself returns within the length of the buffer and seven steps |
| StreamCalls.TurnsAdvance | Middlewares/FreeRTOS-Kernel/stream_buffer.c:762-788 | Each step of a side brings it nearer to its return; the reader sets the writer back by one round of its loop for each receive that completes, the writer the reader not at all |
| StreamCalls.SendStep | Middlewares/FreeRTOS-Kernel/stream_buffer.c:1003-1053 | One step keeps what is accepted equal to what the finished sends should have put in |
| StreamCalls.ReceiveStep | Middlewares/FreeRTOS-Kernel/stream_buffer.c:1279-1331 | One step keeps what is delivered equal to what the finished receives should have taken out |
| StreamRuns.StreamInOrder | Middlewares/FreeRTOS-Kernel/stream_buffer.c:1003-1331 | Under every interleaving of one writer and one reader, each acting on stale indices: what was put in is what was taken out, then what is held |
| StreamRuns.FramesInOrder | Middlewares/FreeRTOS-Kernel/stream_buffer.c:1003-1331 | The same for messages: those taken out are the first put in, each whole, and the buffer holds the others whole |
| StreamRuns.LengthComesWithBody | Middlewares/FreeRTOS-Kernel/stream_buffer.c:1172-1213 | At any moment a reader finds nothing or a length word with its whole body, so the assertion of the next-length call cannot fail |
| StreamRuns.MessageWriterStep | Middlewares/FreeRTOS-Kernel/stream_buffer.c:1003-1053 | One writer step keeps the framing |
| StreamRuns.MessageReaderStep | Middlewares/FreeRTOS-Kernel/stream_buffer.c:1279-1331 | One reader step keeps the framing |
| StreamRuns.StreamWriterStep | Middlewares/FreeRTOS-Kernel/stream_buffer.c:1003-1053 | One writer step keeps the byte order |
| StreamRuns.StreamReaderStep | Middlewares/FreeRTOS-Kernel/stream_buffer.c:1279-1331 | One reader step keeps the byte order |
| StreamMachine.WriterKeepsUnread | Middlewares/FreeRTOS-Kernel/stream_buffer.c:1479-1522 | No writer step changes an unread byte; publishing xHead appends what was copied |
| StreamMachine.ReaderKeepsUnread | Middlewares/FreeRTOS-Kernel/stream_buffer.c:1525-1566 | No reader step changes an unread byte; publishing xTail drops what was read |
| StreamMachine.WriterStepKeepsRaw | Middlewares/FreeRTOS-Kernel/stream_buffer.c:754-788 | A writer step leaves writer and reader enough to go on |
| StreamMachine.ReaderStepKeepsRaw | Middlewares/FreeRTOS-Kernel/stream_buffer.c:1279-1331 | A reader step leaves writer and reader enough to go on |
| StreamMachine.RingAppend | Middlewares/FreeRTOS-Kernel/stream_buffer.c:1479-1522 | Laying bytes behind the head and moving it appends them |
| StreamMachine.RingConsume | Middlewares/FreeRTOS-Kernel/stream_buffer.c:1525-1566 | Moving the tail over bytes drops them |
| StreamBuffer.Buffer.Send | Middlewares/FreeRTOS-Kernel/stream_buffer.c:943-1053 | A message goes in whole or not at all, a stream takes what fits |
| StreamBuffer.Buffer.Receive | Middlewares/FreeRTOS-Kernel/stream_buffer.c:1216-1331 | The first message whole if there is room for it, from a stream what is there |
| StreamBuffer.Buffer.NextMessageLength | Middlewares/FreeRTOS-Kernel/stream_buffer.c:1172-1213 | The length of the first message, or 0 |
| StreamBuffer.Buffer.WriteBytes | Middlewares/FreeRTOS-Kernel/stream_buffer.c:1479-1522 | The two-part copy lays the bytes round the end and changes nothing else |
| StreamBuffer.Buffer.ReadBytes | Middlewares/FreeRTOS-Kernel/stream_buffer.c:1525-1566 | The two-part copy reads the bytes round the end |
| StreamBuffer.Buffer.BytesInBuffer | Middlewares/FreeRTOS-Kernel/stream_buffer.c:1569-1587 | How many bytes are held |
| StreamBuffer.Buffer.SpacesAvailable | Middlewares/FreeRTOS-Kernel/stream_buffer.c:754-788 | One place always stays free |
| StreamBuffer.Buffer.Consume | Middlewares/FreeRTOS-Kernel/stream_buffer.c:1318-1328 | Reading moves the tail by what was read |
| Words.ElapsedIsTime | Middlewares/FreeRTOS-Kernel/timers.c:866-888 | The 32-bit difference of two tick counts is the true time up to one wrap, and the count has wrapped exactly if it reads lower |
| TimerWheel.PlacedRight | Middlewares/FreeRTOS-Kernel/timers.c:890-932 | For any period 1..2^32-1 and under 2^32 ticks between command and processing: the comparisons say "expired" if and only if the unbounded expiry is not after now, and else choose the list of the expiry's epoch |
| TimerWheel.CallsAreExpiries | Middlewares/FreeRTOS-Kernel/timers.c:767-1115 | Once the daemon has caught up, the k-th expiry of an active timer lies in the past if and only if it has been called |
| TimerWheel.NeverOversleeps | Middlewares/FreeRTOS-Kernel/timers.c:778-843 | The daemon never sleeps past an expiry, and for ever only if no timer is active |
| TimerWheel.FiledAgain | Middlewares/FreeRTOS-Kernel/timers.c:695-711 | Filing for the next expiry and the callback for the last one restore the invariant |
| TimerWheel.Switched | Middlewares/FreeRTOS-Kernel/timers.c:1108-1111 | After an overflow the overflow list is the current one |
| TimerDaemon.Daemon.CatchUp | Middlewares/FreeRTOS-Kernel/timers.c:767-843 | At a standing tick the loop ends; every active timer has had one callback for each expiry up to now, origins and periods kept, one-shot timers called once |
| TimerDaemon.Daemon.InsertInActiveList | Middlewares/FreeRTOS-Kernel/timers.c:890-932 | Expired exactly if due, else filed in order in the right list |
| TimerDaemon.Daemon.ReloadTimer | Middlewares/FreeRTOS-Kernel/timers.c:695-711 | The reload loop ends, with one callback for every expiry passed and the timer filed for the first one ahead |
| TimerDaemon.Daemon.ProcessExpiredTimer | Middlewares/FreeRTOS-Kernel/timers.c:714-741 | The head of the current list: reloaded or stopped, and called; one entry less is due |
| TimerDaemon.Daemon.SwitchTimerLists | Middlewares/FreeRTOS-Kernel/timers.c:1089-1112 | On an overflow the current list is worked off, nothing comes back to it, and the lists change places |
| TimerDaemon.Daemon.SampleTimeNow | Middlewares/FreeRTOS-Kernel/timers.c:866-888 | The lists are switched exactly if the tick has wrapped |
| TimerDaemon.Daemon.ProcessTimerOrBlock | Middlewares/FreeRTOS-Kernel/timers.c:778-864 | Works on one expired timer, or sleeps exactly when caught up |
| TimerDaemon.Daemon.Start | Middlewares/FreeRTOS-Kernel/timers.c:961-1026 | Start and reset, processed any time before a wrap: an auto-reload timer is caught up at once, a one-shot timer has fired exactly if it was due |
| TimerDaemon.Daemon.ChangePeriod | Middlewares/FreeRTOS-Kernel/timers.c:1034-1047 | A new period starts anew from now |
| TimerDaemon.Daemon.Stop | Middlewares/FreeRTOS-Kernel/timers.c:1028-1032 | A stopped timer is in no list and has no further callback |
| TimerDaemon.Daemon.Create | Middlewares/FreeRTOS-Kernel/timers.c:417-445 | A new timer is inactive |
| DtcManager.FaultManager.Update | Core/Src/obd2_simulator.c:261-333 | One tick, unless frozen: afterwards every field of every entry is what the history of monitored ticks since the clear says |
| DtcManager.AdvanceRefines | Core/Src/obd2_simulator.c:270-331 | One entry, one tick: debounce, promotion, hold and confirmation keep to the history |
| DtcManager.ConfirmPicks | Core/Src/obd2_simulator.c:507-548 | Up to 65535 promotions since the clear: the entry picked as FIRST CONFIRMED is itself confirmed and before all other confirmed ones, that picked as RECENT is confirmed and behind all others, ties within a tick by index; something is picked if and only if something is confirmed |
| DtcManager.FirstConfirmedExactly | Core/Src/obd2_simulator.c:507-548 | For any number of promotions: the FIRST pick is right if and only if no entry before it in the table carries the same number |
| DtcManager.RecentConfirmedExactly | Core/Src/obd2_simulator.c:507-548 | The same for the RECENT pick |
| DtcManager.FailedPicks | Core/Src/obd2_simulator.c:507-548 | The FAILED picks go by the latest failure of each entry |
| DtcManager.StatusSays | Core/Src/obd2_simulator.c:422-442 | Each status bit in terms of the history; bits 3 and 7 agree and imply bit 5 |
| DtcManager.CounterSays | Core/Src/obd2_simulator.c:444-455 | The detection counter is 127 exactly while matured, else 25 for each failing tick |
| DtcManager.FaultManager.Clear | Core/Src/obd2_simulator.c:391-416 | What was confirmed goes to the mirror with its status byte, and the history starts anew |
| DtcManager.FaultManager.PickEntry | Core/Src/obd2_simulator.c:507-548 | The loop picks a candidate that wins over all others, earlier entries first |
| DtcManager.FaultManager.SettingControl | Core/Src/obd2_simulator.c:250-253 | Only the setting changes |
| DtcManager.FaultManager.UpdateEntry | Core/Src/obd2_simulator.c:270-330 | The loop body on one entry |
| DtcHistory.CondSays | Core/Src/obd2_simulator.c:272-289 | The three conditions monitored, of which the first and the last exclude each other |
| DtcHistory.ConfirmOrder | Core/Src/obd2_simulator.c:519-525 | Confirm order is the order of the last promotions |
| DtcHistory.RankOrder | Core/Src/obd2_simulator.c:296-305 | Promotion numbers follow the promotions, tick by tick and by index |
| DtcHistory.ConfirmFollows | Core/Src/obd2_simulator.c:314-321 | Confirmation comes 49 ticks after the last promotion |
| DtcHistory.ConfirmedIsSomeRun | Core/Src/obd2_simulator.c:314-321 | CONFIRMED if and only if some run of failing ticks reached 54 |
| DtcHistory.ConfirmTickIsFirst | Core/Src/obd2_simulator.c:314-321 | The confirm tick is the first after which the entry is confirmed |
| DtcSaturation.SaturationMisorders | Core/Src/obd2_simulator.c:300-305 | A history with 65534 failures before two confirmations on which the FIRST pick is wrong |
| IntrusiveList.List.Insert | Middlewares/FreeRTOS-Kernel/list.c:139-212 | The search ends, also for key portMAX_DELAY; ring, containers and count stay right, and the item stands behind all of smaller or equal keys |
| IntrusiveList.List.InsertEnd | Middlewares/FreeRTOS-Kernel/list.c:105-136 | The item goes in front of the index; ring, containers and count stay right |
| IntrusiveList.List.Remove | Middlewares/FreeRTOS-Kernel/list.c:217-247 | The item is out, the others keep their order, and an index on it moves to its predecessor |
| IntrusiveList.List.InsertThenRemove | Middlewares/FreeRTOS-Kernel/list.c:139-247 | Taking out what was just put in restores order, index and count |
| IntrusiveList.List.constructor | Middlewares/FreeRTOS-Kernel/list.c:49-86 | An empty ring |
| IntrusiveList.List.Search | Middlewares/FreeRTOS-Kernel/list.c:163-200 | The place of insertion |
| IntrusiveList.SplicedIsLinked | Middlewares/FreeRTOS-Kernel/list.c:202-205 | The four assignments of an insertion make a linked ring |
| IntrusiveList.UnsplicedIsLinked | Middlewares/FreeRTOS-Kernel/list.c:226-227 | The two assignments of a removal make a linked ring |
| OrderedEntries.InsertIsStable | Middlewares/FreeRTOS-Kernel/list.c:151-200 | Insertion is behind every entry of a smaller or equal key and before every larger one |
| OrderedEntries.InsertKeepsSorted | Middlewares/FreeRTOS-Kernel/list.c:151-200 | A sorted list stays sorted |
| RingQueue.Queue.Send | Middlewares/FreeRTOS-Kernel/queue.c:949-1075 | Appends, prepends or replaces; refused exactly if full and not overwriting; the first waiting receiver is woken |
| RingQueue.Queue.SendFromIsr | Middlewares/FreeRTOS-Kernel/queue.c:1167-1336 | The same from an interrupt; while locked nobody is woken, only counted |
| RingQueue.Queue.Receive | Middlewares/FreeRTOS-Kernel/queue.c:1509-1560 | Takes the head and wakes the first waiting sender |
| RingQueue.Queue.ReceiveFromIsr | Middlewares/FreeRTOS-Kernel/queue.c:2039-2136 | The same from an interrupt, counted while locked |
| RingQueue.Queue.Peek | Middlewares/FreeRTOS-Kernel/queue.c:2139-2195 | Shows the head and changes nothing |
| RingQueue.Queue.PeekAndPass | Middlewares/FreeRTOS-Kernel/queue.c:1884-1955 | Shows the head and wakes the next waiting receiver |
| RingQueue.Queue.BlockToSend | Middlewares/FreeRTOS-Kernel/queue.c:1117-1126 | A sender that found no room waits at its place |
| RingQueue.Queue.Unlock | Middlewares/FreeRTOS-Kernel/queue.c:2497-2614 | With k items posted while locked, min(k, waiting) receivers are woken in order, despite the cap of the lock count; likewise senders |
| RingQueue.Queue.CopyTo | Middlewares/FreeRTOS-Kernel/queue.c:2393-2473 | The copy at write or read position appends, prepends or replaces |
| RingQueue.Queue.CopyFrom | Middlewares/FreeRTOS-Kernel/queue.c:2476-2494 | The copy from the read position is the oldest item |
| RingQueue.Queue.Reset | Middlewares/FreeRTOS-Kernel/queue.c:303-348 | Empties the queue and wakes one sender |
| RingQueue.Queue.Lock | Middlewares/FreeRTOS-Kernel/queue.c:257-270 | Locks what was not locked |
| RingQueue.FirstInFirstOut | Middlewares/FreeRTOS-Kernel/queue.c:949-1560 | Over any run of posts at the back and receives: what is received, then what is held, is what was held and taken in, in that order, and never more than the length |
| RingQueue.FrontGoesFirst | Middlewares/FreeRTOS-Kernel/queue.c:2434-2461 | An item posted at the front is received next and leaves the others as they were; one that overwrites is the only one |
| RingQueue.HeldFront | Middlewares/FreeRTOS-Kernel/queue.c:2434-2449 | Stepping the read position back prepends |
| RingQueue.HeldBack | Middlewares/FreeRTOS-Kernel/queue.c:2421-2433 | Filling the write position appends |
| EventGroups.EventGroup.SetBits | Middlewares/FreeRTOS-Kernel/event_groups.c:547-647 | One walk wakes exactly the waiters satisfied by old and new bits and gives each the bits of its own moment, all of them the same; clears what they asked for, and leaves nobody waiting for what is there |
| EventGroups.MetBitwise | Middlewares/FreeRTOS-Kernel/event_groups.c:778-812 | A task waiting for all its bits is served exactly if each is there, one waiting for any exactly if one is |
| EventGroups.FinalBitwise | Middlewares/FreeRTOS-Kernel/event_groups.c:547-647 | Each bit in the end: set before or now, and not among those a woken task waited for with clear on exit |
| EventGroups.OrderIrrelevant | Middlewares/FreeRTOS-Kernel/event_groups.c:547-647 | Final bits and tasks woken do not depend on the order of the list |
| EventGroups.WokenExactly | Middlewares/FreeRTOS-Kernel/event_groups.c:576-624 | A waiter is woken if and only if old and new bits together satisfy it |
| EventGroups.WokenOrLeft | Middlewares/FreeRTOS-Kernel/event_groups.c:569-633 | Nobody is lost or doubled |
| EventGroups.EventGroup.WaitBits | Middlewares/FreeRTOS-Kernel/event_groups.c:312-404 | Returns at once with the bits if they suffice, else blocks or gives up; nobody is left waiting for what is there |
| EventGroups.EventGroup.Sync | Middlewares/FreeRTOS-Kernel/event_groups.c:185-247 | Sets, then returns with all bits or blocks; nobody is left waiting for what is there |
| EventGroups.EventGroup.ClearBits | Middlewares/FreeRTOS-Kernel/event_groups.c:472-501 | Returns the bits before |
| EventGroups.EventGroup.AfterTimeOut | Middlewares/FreeRTOS-Kernel/event_groups.c:422-455 | What a task whose time was up does on its own bits |
| EventGroups.ClearingKeeps | Middlewares/FreeRTOS-Kernel/event_groups.c:634-638 | Clearing bits satisfies nobody |
| EventGroups.PackUnpack | Middlewares/FreeRTOS-Kernel/event_groups.c:372-394 | Bits and flags survive the packing into a list item |
| EventGroups.StampedResult | Middlewares/FreeRTOS-Kernel/event_groups.c:621-627 | A woken task finds the bits of the moment |
| DynamicDids.CommitsExactly | Core/Src/uds_service.c:1466-1635 | Told from the request, the readable data and the table: it is carried out if and only if its identifier is in range and either it lists, in a format of the right length, one to three valid records of 1..56 bytes in all and a slot is there, or it names an identifier to clear that is there; a refused one leaves the table alone |
| DynamicDids.DefinesExactly | Core/Src/uds_service.c:1466-1611 | What is defined is what the request lists, index by index, under either format |
| DynamicDids.CommitMeans | Core/Src/uds_service.c:1579-1635 | After a positive answer the identifier named stands for the records listed, or for nothing, and every other for what it stood for |
| DynamicDids.TableStaysOk | Core/Src/uds_service.c:1579-1635 | Identifiers in the table stay distinct and its slots well formed |
| DynamicDids.DidTable.Handle | Core/Src/uds_service.c:1466-1635 | The service in place: positive exactly if the request is to be carried out, the table unchanged otherwise |
| DynamicDids.ParseDefine | Core/Src/uds_service.c:1466-1611 | The checks of 0x2C in the order of the code |
| DynamicDids.ParseById | Core/Src/uds_service.c:1488-1522 | The validation loop with its break and the test behind it accepts exactly if every record does |
| DynamicDids.ParseByMemory | Core/Src/uds_service.c:1523-1578 | The same for definitions by memory address |
| DynamicDids.Assemble | Core/Src/uds_service.c:114-138 | All slices one behind the other, or nothing |
| DynamicDids.AssembledAt | Core/Src/uds_service.c:114-138 | Byte k of record i of what is assembled is byte position + k - 1 of its source, or the memory at its address + k |
| DynamicDids.StaysAssemblable | Core/Src/uds_service.c:114-138 | While source lengths stay, an accepted definition is assembled to its full size |
| DynamicDids.DidTable.FindSlot | Core/Src/uds_service.c:104-112 | The first slot of an identifier |
| DidRequests.ListedIsCommitted | Core/Src/uds_service.c:1466-1635 | A request that lists these records is carried out exactly if they may be defined and there is a slot, and then its identifier stands for them |
| DidRequests.IdRequestSays | Core/Src/uds_service.c:1488-1522 | A request written for up to 255 slices of identifiers lists just these, for the identifier it names |
| DidRequests.MemoryRequestSays | Core/Src/uds_service.c:1523-1578 | The same for stretches of memory, in address and size fields of 1 to 4 bytes |
| DidRequests.DefineAnswered | Core/Src/uds_service.c:1466-1635 | What 0x2C answers: the octets of the request without the suppress bit if it is carried out; 0x13 if it is too short or its records do not come out even, 0x12 for another sub-function, 0x31 else |
| DidRequests.ListsOnce | Core/Src/uds_service.c:1488-1578 | A request lists one sequence of records only |
| DidRequests.IdRecordExactly | Core/Src/uds_service.c:1500-1515 | A record by identifier is valid exactly if it names something and every byte it names, positions counted from 1, is there |
| DidRequests.MemoryRecordExactly | Core/Src/uds_service.c:1546-1566 | A record by address is valid exactly if it names 1..56 bytes, all of them flash or all of them RAM |
| PeriodicSends.SendsExactly | Core/Src/uds_service.c:1757-1787 | Over any run of the scheduler with all its slots, n ticks after a PDID was subscribed, its identifier staying defined: exactly floor(n/divider) frames with this PDID have gone out, the j-th with what the identifier stood for at the tick of that send |
| PeriodicSends.OnlyFrom | Core/Src/uds_service.c:1757-1787 | In one tick the frames with a PDID are those of its one active slot |
| PeriodicSends.RunIsRunSub | Core/Src/uds_service.c:1757-1787 | The run of the scheduler does to one slot, counters and frames, what the slot would do alone |
| PeriodicSends.StopsWithoutData | Core/Src/uds_service.c:1771-1783 | A send that is due but finds nothing ends the subscription without a frame |
| PeriodicSends.FramesFit | Core/Src/uds_service.c:1757-1787 | Every frame fits one Single Frame |
| PeriodicSends.Scheduler.Tick | Core/Src/uds_service.c:1757-1787 | Counters, auto-stop and frames of one tick, slot by slot |
| PeriodicSends.Scheduler.Subscribe | Core/Src/uds_service.c:1708-1740 | One PDID after another up to the first refused; active PDIDs stay distinct |
| PeriodicSends.TargetExactly | Core/Src/uds_service.c:1708-1730 | A PDID goes to its own slot if it is subscribed, else to a free one, and is refused exactly if its identifier is not defined or there is neither |
| PeriodicSends.SubscribeExactly | Core/Src/uds_service.c:1708-1740 | A request is served up to its first PDID refused: those before it are subscribed afresh, no other subscription changes |
| PeriodicSends.SubscribedMeans | Core/Src/uds_service.c:1708-1740 | A positive answer means that every PDID asked for is defined and freshly subscribed |
| PeriodicSends.Scheduler.StopAll | Core/Src/uds_service.c:1748-1755 | Nothing is subscribed any more |
| Rs485.PrintParse | Core/Src/rs485.c:111-187 | Any list of frames of 0..64 data bytes, printed and parsed, comes out as it went in |
| Rs485.FeedPrinted | Core/Src/rs485.c:111-187 | The bytes of any such list, fed one at a time to an empty assembler: exactly those frames are offered in order, and nothing is left over |
| Rs485.Assembler.Receive | Core/Src/rs485.c:151-187 | For any bytes: the frames offered are those the byte stream spells, the length stays below 67, and 3 or more bytes mean a data length of at most 64 not yet complete |
| Rs485.ParseMore | Core/Src/rs485.c:151-187 | Parsing may stop and go on anywhere |
| Rs485.Print | Core/Src/rs485.c:111-126 | The printer's loop |
| Rs485.Assembler.Restart | Core/Src/rs485.c:133-139 | Drops the partial frame only |
| Rs485.PrintedSays | Core/Src/rs485.c:111-126 | A printed frame names its identifier and data |

## Left out

- CrashSafety.CrashSafety: asks each 0x34 of the run to meet `CrashSafety.MayBegin` unless the meta rewrite is atomic (`CrashSafety.AnyRetries` asks nothing then). The condition cannot be dropped: `CrashWitnesses` has two runs from a checked image that break it, one of them without any loss of power. It is exact, as `CrashExactly.DownloadSafeExactly`, `CrashExactly.DownloadSafeWhen` and `CrashExactly.TornDownloadSafeWhen` say, the last two for fewer than 256 complete images; for more, on a tearing device, it is sufficient.
- UpdateRuns.ValidMeansAccepted: assumes that the meta page is rewritten in one step or not at all.
- UpdateRuns.AntiRollback: assumes the same; without it the counter reads low or high as `UpdateWindows.CounterFallsExactly` says.
- IsoTpLiveness.SendEnds: the tick and the time stamps are on one clock, as in the bootloader; the application's main task passes the RTOS tick against HAL ticks (`Core/Src/main.c:381`), for which nothing is claimed.
- IsoTpRoundTrip.RoundTrip: no other frame reaches either side in between, and no timeout runs out.
- DtcManager.ConfirmPicks: at most 65535 promotions since the clear, for the reason above.
- EventGroups.EventGroup.AfterTimeOut: the kernel's own removal of a timed-out task from the list is a separate step.
- RingQueue.Queue.Unlock: the number of tasks is fixed and at most 127, which the lock count asserts.
- StreamBuffer.Buffer.Send: the calls as interrupts make them; blocking, trigger levels and the batching mode are not modelled.
- PeriodicSends.Scheduler.Subscribe: a refusal part way through leaves the PDIDs before it subscribed, as in the code.
- HAL internals, registers, interrupt masking, the watchdog, clocks and debug prints: foreign calls; a HAL call is a nondeterministic success with the contract of `Flash.FlashDevice.HalErase` and `Flash.FlashDevice.HalProgram`, which refuse pages and addresses outside the array, a controller's answer to a frame is a parameter.
- The jump to the application: represented by the gate's decision only.
- Session, security and the services 0x10, 0x11, 0x27, 0x28, 0x3E, 0x85: the flash services see a session flag and an unlocked flag.
- When the superloop drops a transfer on the way back to Default: dropping is an event that may happen at any time.
- Preemption inside the transport: ProcessFrame, SendResponse and Tick are single steps.
- The demo injection of a fault, which bypasses the state machine.
- The read services 0x19, 0x22, 0x23, 0x2F and the OBD modes: each is settled by reading one branch.
- Stopping single PDIDs in 0x2A, and the layout of its answers.
- Timers: delete of a dynamically allocated timer, change of the reload mode, and what callbacks do. The daemon samples the tick at least once per wrap. The timers are not built into this firmware (`Core/Inc/FreeRTOSConfig.h:56`).
- Queues of item size zero, mutexes, queue sets and blocking on a queue beyond the waiting list.
- Task scheduling: waiting lists are sequences of tasks, the kernel's choice of order among them is not modelled.
