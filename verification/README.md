# Verification of the camera firmware glue

Dafny models of the stateful parts of the camera's firmware support code, with proofs
about all their runs. Each part has a specification module of values and lemmas, and a
class that updates fields, arrays and registers in place the way the C code does, proved
against that specification.

- **Event scheduler** (`ScheduleSpec`, `ScheduleArray`, `Schedule`, `ScheduleRuns`,
  `ScheduleRefinement`): a twelve-slot array ticked every 100 ms that fires at most one event
  a tick. Latency, firing order and time account of an event under any interleaving of
  operations on the others. Cancelling the free-slot code NONE is the one call that breaks
  the array, exactly when something is armed: runs without it follow the queue, and runs with
  it lose the last event armed at the next push of a new one, or never fire the event
  that would have fired last.
- **FIFO timestamping** (`Ewma`, `FifoTiming`, `FifoReader`): the accelerometer's interrupt
  average and chunked FIFO drain as a machine whose steps interleave sample by sample: what
  an interrupt measures, and the exact stamp of every sample, start-up samples counted.
- **SPI receive path** (`SpiRing`, `SpiFrames`, `SpiReceive`): the byte ring as a queue, the
  frame scan as the inverse of a printer, and both together end to end. A write that fills
  the ring empties it, and a frame cut by the end of a transfer leaves too large a remainder;
  both are modelled as coded, with the exact conditions under which no byte is harmed.
- **Stepper motor** (`StepMotor`, `StepMotorDriver`): forward and reverse share one counter,
  so turning round loses steps; the loss has a bound that is reached and, for stretches of
  two or more, is exact. A call turns the rotor the way it is asked, in both modes.
- **Day/night switch** (`NightMode`, `NightModeDriver`): two 8-bit counters against a
  specification over the history of readings; it holds for trigger counts up to 256 only.
- **Rates and events of the accelerometer** (`EventArbitration`, `SensorRates`,
  `SensorDriver`): an accumulator loop that is right exactly for sorted tables, agreement of
  register, mask and rate, and a rate search that cannot fail. The register does not always
  cover every enabled sensor, at the rate its code means to the hardware: a power call
  forgets the other sensor when it asks for 0, and an event call forgets the
  accelerometer's own rate. The exact condition is proved for every call and every run.
- **BLE address field** (`AddressDigits`): a right-to-left digit scan that can be read back.
  The code checks only the length of its text; the exact condition under which the scan
  stays inside its array is proved.

`Basics` holds what several of them use. Where the code would divide by zero or write outside
an array, the method that models it says so in a result and goes no further.

Inputs from outside (clock readings, bus contents and failures, light readings) are
parameters, so every statement holds for all of them. `dafny verify dfyconfig.toml` checks
the whole project.

## Model

| member | source | states |
|---|---|---|
| `ScheduleRuns.FiringWindow` | pegatron-diag/pega_misc/src/pega_schedule.c:52-119 | exact latency: under any interleaving of operations on other events, cancels of NONE excepted, an armed event with r > 0 ticks left fires after r ticks plus one for each tick an event ahead of it used up, of which there are at most as many as slots ahead; until then it stays armed and its counter accounts for every tick |
| `ScheduleRuns.PushLatency` | pegatron-diag/pega_misc/src/pega_schedule.c:193-244 | an event pushed with delay d > 0 into slot i fires no earlier than d and no later than d + i, so at most d + 10, ticks after the push, over the same runs |
| `ScheduleRuns.LatencyReached` | pegatron-diag/pega_misc/src/pega_schedule.c:95-119 | the bound is attained: with all slots due together, r ticks ahead for any r, slot i fires exactly i ticks late |
| `ScheduleRuns.FiringOrder` | pegatron-diag/pega_misc/src/pega_schedule.c:52-119 | an event ahead of another with no more ticks left fires strictly before it, over every run that leaves both alone and cancels no NONE |
| `ScheduleRuns.FiresIffPositive` | pegatron-diag/pega_misc/src/pega_schedule.c:61-69 | a pushed event can fire in some run if and only if its delay is positive as a signed 32-bit value |
| `ScheduleRuns.NeverFires` | pegatron-diag/pega_misc/src/pega_schedule.c:59-71 | an event armed with delay 0 (or a negative counter) never fires and counts exactly the ticks that reach it |
| `ScheduleRuns.TimeConserved` | pegatron-diag/pega_misc/src/pega_schedule.c:52-72 | remaining plus elapsed ticks of an armed event stay constant over every run that spares it, skipped ticks included |
| `ScheduleRuns.ReadersConserve` | pegatron-diag/pega_misc/src/pega_schedule.c:312-364 | what the two millisecond readers report adds up to 100 d, as 32-bit values and exactly below the wrap |
| `ScheduleRuns.RunWellFormed` | pegatron-diag/pega_misc/src/pega_schedule.c:193-310 | over every run that cancels NONE only when nothing is armed, the queue holds at most eleven distinct events, never NONE |
| `ScheduleRuns.StepOnArmed` | pegatron-diag/pega_misc/src/pega_schedule.c:74-119 | an operation that spares an armed event moves it up by at most the one slot taken out ahead of it, and only a tick that reaches it ages it |
| `ScheduleRuns.StepDisarms` | pegatron-diag/pega_misc/src/pega_schedule.c:95-119 | cancels of NONE excepted, an event leaves the queue exactly by firing, being cancelled, a cancel of all, or a pop of the head |
| `ScheduleRuns.PushArms` | pegatron-diag/pega_misc/src/pega_schedule.c:208-237 | a successful push leaves the event armed with its delay and no elapsed time, in a well-formed queue |
| `ScheduleRuns.PushReads` | pegatron-diag/pega_misc/src/pega_schedule.c:208-237 | right after a push the remaining-time reader reports 100 d as a 32-bit value, for every delay, and the elapsed-time reader 0 |
| `ScheduleRuns.CancelOutcome` | pegatron-diag/pega_misc/src/pega_schedule.c:253-286 | a cancel succeeds exactly for an armed event or the delete-all code; the event is gone afterwards, and a failed cancel changes nothing |
| `ScheduleRuns.PushOutcome` | pegatron-diag/pega_misc/src/pega_schedule.c:193-244 | a push of a real event is refused exactly when eleven other events are armed and then changes nothing; other events keep slot and place |
| `ScheduleRefinement.FollowsIffLegal` | pegatron-diag/pega_misc/src/pega_schedule.c:95-286 | refinement over runs: the array follows the queue after every operation, and represents any queue at all, if and only if the run never cancels NONE while an event is armed |
| `ScheduleRefinement.CancelNoneLosesLast` | pegatron-diag/pega_misc/src/pega_schedule.c:193-286 | a cancel of NONE loses the last event armed, whatever it is, at the next push of a new one, and nothing else |
| `ScheduleRefinement.CancelNoneStrandsLast` | pegatron-diag/pega_misc/src/pega_schedule.c:95-119 | after a cancel of NONE with anything armed no number of ticks empties the array: ticks do what the queue ticks would until one event is left, which none reaches |
| `ScheduleRefinement.LastToFireStranded` | pegatron-diag/pega_misc/src/pega_schedule.c:95-119 | when all counters are positive, the stranded event is the one the queue would fire last; it never fires and ends alone in the array |
| `ScheduleRefinement.OthersFireFirst` | pegatron-diag/pega_misc/src/pega_schedule.c:95-119 | that event is the only one the queue has not fired when a single event is left |
| `ScheduleRefinement.LostEventExample` | pegatron-diag/pega_misc/src/pega_schedule.c:193-286 | a concrete run of four calls from the empty array at whose end event 200 is gone without having fired |
| `ScheduleArray.CancelNone` | pegatron-diag/pega_misc/src/pega_schedule.c:253-286 | cancelling NONE succeeds; with nothing armed it changes nothing, otherwise no queue is represented and the last event sits in the free slot |
| `ScheduleArray.CancelRepresents` | pegatron-diag/pega_misc/src/pega_schedule.c:253-286 | cancelling any other code is the queue operation, with its result |
| `ScheduleArray.PushRepresents` | pegatron-diag/pega_misc/src/pega_schedule.c:193-244 | pushing is the queue operation for every code and delay, although the scan includes the free slot |
| `ScheduleArray.TickRepresents` | pegatron-diag/pega_misc/src/pega_schedule.c:95-119 | a tick over slots 0 to the count inclusive is the queue tick, with the event returned |
| `Schedule.Scheduler.Reset` | pegatron-diag/pega_misc/src/pega_schedule.c:41-50 | clears event and counter of every slot of any array, elapsed times stay behind, and the queue is empty |
| `Schedule.Scheduler.TimeoutCheck` | pegatron-diag/pega_misc/src/pega_schedule.c:52-72 | ages one slot in place and reports whether it came due |
| `Schedule.Scheduler.Reschedule` | pegatron-diag/pega_misc/src/pega_schedule.c:74-93 | shifts any array down over one slot and lowers a positive count; the last slot stays as it was |
| `Schedule.Scheduler.EventGet` | pegatron-diag/pega_misc/src/pega_schedule.c:95-119 | one tick of any array, which on a queue is the queue tick: slots before the first due one age, that one leaves and is returned, the rest wait |
| `Schedule.Scheduler.TickSlots` | pegatron-diag/pega_misc/src/pega_schedule.c:95-119 | the loop ages live slots up to the first due one, free slots included in the scan, and ends the tick there |
| `Schedule.Scheduler.EventPush` | pegatron-diag/pega_misc/src/pega_schedule.c:193-244 | the push on any array, which on a queue is the queue push; pushing NONE changes nothing live |
| `Schedule.Scheduler.PushSlot` | pegatron-diag/pega_misc/src/pega_schedule.c:193-244 | re-arms the slot found, refuses at a full array, otherwise appends at the count |
| `Schedule.Scheduler.Look` | pegatron-diag/pega_misc/src/pega_schedule.c:208-217 | the scan finds the first slot with the code among slots 0 to the count, so it also finds NONE |
| `Schedule.Scheduler.EventPop` | pegatron-diag/pega_misc/src/pega_schedule.c:246-251 | removes the head slot of any array, or nothing from an empty queue |
| `Schedule.Scheduler.EventCancel` | pegatron-diag/pega_misc/src/pega_schedule.c:253-286 | on any array the slot found is shifted out; a queue loses the event, or all for the delete-all code, and stays a queue if and only if the code is not NONE or nothing is armed |
| `Schedule.Scheduler.CancelSlot` | pegatron-diag/pega_misc/src/pega_schedule.c:253-286 | the cancel on any array: refused codes, delete-all, and the first slot that matches |
| `Schedule.Scheduler.EventCheck` | pegatron-diag/pega_misc/src/pega_schedule.c:288-310 | on any array true exactly when the inclusive scan finds the code: armed events, and also NONE |
| `Schedule.Scheduler.DelayTimeGet` | pegatron-diag/pega_misc/src/pega_schedule.c:312-337 | remaining time of an armed event in 32-bit milliseconds, 0 and failure otherwise |
| `Schedule.Scheduler.TimeGet` | pegatron-diag/pega_misc/src/pega_schedule.c:339-364 | elapsed time of an armed event in 32-bit milliseconds, 0 and failure otherwise |
| `FifoTiming.StampSafety` | accelerator/src/st_lis2dw12_buffer.c:34-60 | over every interleaving of interrupts, sample-by-sample drains, flushes, enables and sysfs writes, pushed timestamps never decrease and never exceed the clock at their push |
| `FifoTiming.StepSafe` | accelerator/src/st_lis2dw12_buffer.c:225-236 | each step keeps the interval and drain period non-negative and the watermark between 1 and 31 |
| `FifoTiming.DrainConservation` | accelerator/src/st_lis2dw12_buffer.c:157-169 | over any run at a constant level every sample read is dropped or pushed once: exactly the first ones up to the level are dropped, all others are pushed in order and unchanged |
| `FifoTiming.PushCount` | accelerator/src/st_lis2dw12_buffer.c:34-46 | n samples read since the buffer was enabled at level L make max(0, n - max(0, L - 1)) pushes |
| `FifoTiming.FirstPeriod` | accelerator/src/st_lis2dw12_buffer.c:41-46 | a drain begun after enabling and before any interrupt works with exactly the sample period of the rate, whatever the watermark |
| `FifoTiming.StampIsLeast` | accelerator/src/st_lis2dw12_buffer.c:157-169 | dropped samples counted, the stamp of sample k of a drain is the least of the start stamp advanced k periods and every clock reading taken for a pushed sample up to it advanced likewise, whatever interrupts interleave |
| `FifoTiming.FirstDrain` | accelerator/src/st_lis2dw12_buffer.c:34-46 | sample k of the first drain after enabling carries the enabling time advanced by k sample periods, or less where a clock reading says so; dropped samples advance it too |
| `FifoTiming.TwelfthSample` | accelerator/src/st_lis2dw12_buffer.c:157-169 | a concrete first drain: at 12 Hz with sample level 12 the one sample pushed is stamped eleven periods after enabling |
| `FifoTiming.StampsAfterEnabling` | accelerator/src/st_lis2dw12_buffer.c:41-46 | no stamp pushed after enabling is earlier than the enabling time, over every run |
| `FifoTiming.PeriodFillsInterval` | accelerator/src/st_lis2dw12_buffer.c:142 | the drain period is the interval split over the watermark, rounded down |
| `FifoTiming.IntervalBound` | accelerator/src/st_lis2dw12_buffer.c:225-236 | the averaged interval stays within any bounds that hold its value, all interrupt gaps and all intervals set by enabling |
| `FifoTiming.InterruptMeasures` | accelerator/src/st_lis2dw12_buffer.c:225-236 | whatever interleaves, an interrupt averages in its own clock reading less that of the latest interrupt, flush or enabling before it |
| `FifoTiming.IntervalKept` | accelerator/src/st_lis2dw12_buffer.c:21-32 | nothing but interrupts and enabling changes the interval |
| `FifoTiming.SteadyInterrupts` | accelerator/src/st_lis2dw12_buffer.c:225-236 | n interrupts spaced a gap apart, with samples and sysfs writes in between, leave the average of n times that gap |
| `FifoTiming.SteadyFromEnabling` | accelerator/src/st_lis2dw12_buffer.c:34-46 | the same from the moment of enabling, starting at the interval of the rate and watermark |
| `FifoTiming.WritesKept` | accelerator/src/st_lis2dw12_buffer.c:71-108 | watermark and sample level are those of the latest write, in range for the watermark, over every run |
| `Ewma.AverageStep` | accelerator/src/st_lis2dw12_buffer.c:21-32 | one average removes a sixteenth of the distance, rounded down, never crosses the new value, and stops exactly below 16 |
| `Ewma.Settles` | accelerator/src/st_lis2dw12_buffer.c:21-32 | at a constant gap the distance above 15 ns shrinks geometrically by 15/16 and is gone for good after at most as many interrupts as it was large |
| `FifoReader.Accelerometer.HandlerIrq` | accelerator/src/st_lis2dw12_buffer.c:225-236 | the hard interrupt handler is the interrupt step of the machine, whose measure and reference time the run laws fix |
| `FifoReader.Accelerometer.UpdateFifo` | accelerator/src/st_lis2dw12_buffer.c:34-46 | enabling restarts stamps, interval and sample count from one clock reading; at rate 0, and only then, the code divides by zero |
| `FifoReader.Accelerometer.SetHwfifoWatermark` | accelerator/src/st_lis2dw12_buffer.c:71-108 | sets the watermark exactly when the device can be claimed, the buffer is off, the text is a number in range and the write succeeds; nothing changes otherwise |
| `FifoReader.Accelerometer.TakeOne` | accelerator/src/st_lis2dw12_buffer.c:157-169 | one sample is dropped below the level, otherwise stamped and pushed |
| `FifoReader.StatusCounts` | accelerator/src/st_lis2dw12_buffer.c:136-149 | the low six status bits count samples of six bytes, bit 6 fetches 63 of them and bit 7 does not matter |
| `FifoReader.Accelerometer.ReadFifo` | accelerator/src/st_lis2dw12_buffer.c:125-174 | the chunked drain equals the run that takes every fetched sample once and in order, up to the first failing chunk |
| `FifoReader.Accelerometer.ReadChunks` | accelerator/src/st_lis2dw12_buffer.c:151-173 | the outer loop reads 36 bytes at a time, stops at the first failing read, and adds every sample of each chunk once |
| `FifoReader.Accelerometer.TakeChunk` | accelerator/src/st_lis2dw12_buffer.c:157-170 | the inner loop adds exactly the samples of its chunk to that run |
| `FifoReader.Accelerometer.FlushFifo` | accelerator/src/st_lis2dw12_buffer.c:176-199 | a flush is a drain followed by a new interrupt reference time |
| `SpiReceive.EndToEnd` | wifi/WIFI-BT-LNX_6_12_3_RC1-IMX8--MM6X18505.p23_V2-GPL/uartfwloader_src/src/fw_loader_io_linux_spi.c:256-304 | over any run of reads of up to 41 bytes with whole-frame ten-byte transfers, and other transfers that fit, the ring holds at most 50 bytes and returned bytes followed by queued bytes are exactly the frames received |
| `SpiReceive.ReadReturns` | wifi/WIFI-BT-LNX_6_12_3_RC1-IMX8--MM6X18505.p23_V2-GPL/uartfwloader_src/src/fw_loader_io_linux_spi.c:256-304 | a read of a 16-bit count returns exactly the smaller of the count and what is queued once its transfer is in, and leaves the rest; a small negative count takes everything without a transfer |
| `SpiReceive.ReadsInFull` | wifi/WIFI-BT-LNX_6_12_3_RC1-IMX8--MM6X18505.p23_V2-GPL/uartfwloader_src/src/fw_loader_io_linux_spi.c:256-304 | over admissible runs a read for which count bytes are available returns exactly the next count bytes of the stream |
| `SpiReceive.ReadLimitExact` | wifi/WIFI-BT-LNX_6_12_3_RC1-IMX8--MM6X18505.p23_V2-GPL/uartfwloader_src/src/fw_loader_io_linux_spi.c:264-302 | 41 is exact: reads of a given size lose no ten-byte whole-frame transfer in any state an admissible run from the empty ring reaches, if and only if the size is at most 41 |
| `SpiReceive.ReadOf42Loses` | wifi/WIFI-BT-LNX_6_12_3_RC1-IMX8--MM6X18505.p23_V2-GPL/uartfwloader_src/src/fw_loader_io_linux_spi.c:264-302 | the failing run: five polled transfers leave 41 bytes, and a read of 42 then returns nothing and leaves the ring empty |
| `SpiReceive.ReceiveFits` | wifi/WIFI-BT-LNX_6_12_3_RC1-IMX8--MM6X18505.p23_V2-GPL/uartfwloader_src/src/fw_loader_io_linux_spi.c:1072-1093 | a whole-frame transfer reaches the queue intact if and only if it leaves a byte free |
| `SpiReceive.AppendAllFits` | wifi/WIFI-BT-LNX_6_12_3_RC1-IMX8--MM6X18505.p23_V2-GPL/uartfwloader_src/src/fw_loader_io_linux_spi.c:1072-1093 | any list of writes appends everything exactly when the total stays below the ring size, and never exceeds 50 bytes |
| `SpiFrames.DeframePrint` | wifi/WIFI-BT-LNX_6_12_3_RC1-IMX8--MM6X18505.p23_V2-GPL/uartfwloader_src/src/fw_loader_io_linux_spi.c:730-761 | the scan of any valid frames with any idle bytes between them writes exactly the frames and leaves nothing outstanding |
| `SpiFrames.DeframeTransfers` | wifi/WIFI-BT-LNX_6_12_3_RC1-IMX8--MM6X18505.p23_V2-GPL/uartfwloader_src/src/fw_loader_io_linux_spi.c:707-761 | the same over any split into transfers of whole frames |
| `SpiFrames.FrameLenIsPacked` | wifi/WIFI-BT-LNX_6_12_3_RC1-IMX8--MM6X18505.p23_V2-GPL/uartfwloader_src/src/fw_loader_frames.c:61-99 | a frame length is one header byte and the widths of the packed fields; ten bytes hold any frame and only the version 3 data request fills them |
| `SpiFrames.PrintItems` | wifi/WIFI-BT-LNX_6_12_3_RC1-IMX8--MM6X18505.p23_V2-GPL/uartfwloader_src/src/fw_loader_frames.c:61-99 | every transfer that leaves nothing outstanding is a sequence of valid frames and idle bytes, and its writes are those frames |
| `SpiFrames.WholeIffNothingRemains` | wifi/WIFI-BT-LNX_6_12_3_RC1-IMX8--MM6X18505.p23_V2-GPL/uartfwloader_src/src/fw_loader_io_linux_spi.c:730-761 | nothing is outstanding exactly for transfers of whole frames |
| `SpiFrames.RemainderTooLarge` | wifi/WIFI-BT-LNX_6_12_3_RC1-IMX8--MM6X18505.p23_V2-GPL/uartfwloader_src/src/fw_loader_io_linux_spi.c:751-756 | the remainder the code keeps for a cut frame is larger than what is still to come, and right only when no frame is cut |
| `SpiFrames.OutstandingTaken` | wifi/WIFI-BT-LNX_6_12_3_RC1-IMX8--MM6X18505.p23_V2-GPL/uartfwloader_src/src/fw_loader_io_linux_spi.c:707-728 | outstanding bytes are stored as they come over any list of transfers, and the rest stays outstanding |
| `SpiFrames.IntendedSplit` | wifi/WIFI-BT-LNX_6_12_3_RC1-IMX8--MM6X18505.p23_V2-GPL/uartfwloader_src/src/fw_loader_io_linux_spi.c:707-757 | with the intended remainder, any list of transfers would write the same bytes as the whole stream, however many transfers a frame spans |
| `SpiFrames.SplitRightIffWhole` | wifi/WIFI-BT-LNX_6_12_3_RC1-IMX8--MM6X18505.p23_V2-GPL/uartfwloader_src/src/fw_loader_io_linux_spi.c:751-756 | the code writes the right bytes for every continuation if and only if the first transfer cuts no frame |
| `SpiFrames.StraddleExample` | wifi/WIFI-BT-LNX_6_12_3_RC1-IMX8--MM6X18505.p23_V2-GPL/uartfwloader_src/src/fw_loader_io_linux_spi.c:751-756 | a concrete cut frame that brings an idle byte along |
| `SpiRing.Ring.GetCount` | wifi/WIFI-BT-LNX_6_12_3_RC1-IMX8--MM6X18505.p23_V2-GPL/uartfwloader_src/src/fw_loader_io_linux_spi.c:969-984 | the number of queued bytes |
| `SpiRing.Ring.GetRoom` | wifi/WIFI-BT-LNX_6_12_3_RC1-IMX8--MM6X18505.p23_V2-GPL/uartfwloader_src/src/fw_loader_io_linux_spi.c:1006-1021 | count plus room is always 51 |
| `SpiRing.Ring.Flush` | wifi/WIFI-BT-LNX_6_12_3_RC1-IMX8--MM6X18505.p23_V2-GPL/uartfwloader_src/src/fw_loader_io_linux_spi.c:1043-1048 | empties the queue |
| `SpiRing.Ring.WriteData` | wifi/WIFI-BT-LNX_6_12_3_RC1-IMX8--MM6X18505.p23_V2-GPL/uartfwloader_src/src/fw_loader_io_linux_spi.c:1072-1093 | appends the data below the full room, across any wrap-around; a write that fills the room leaves the queue empty |
| `SpiRing.Ring.PutByte` | wifi/WIFI-BT-LNX_6_12_3_RC1-IMX8--MM6X18505.p23_V2-GPL/uartfwloader_src/src/fw_loader_io_linux_spi.c:1080-1088 | one byte at the write index, which wraps around |
| `SpiRing.Ring.ReadData` | wifi/WIFI-BT-LNX_6_12_3_RC1-IMX8--MM6X18505.p23_V2-GPL/uartfwloader_src/src/fw_loader_io_linux_spi.c:1117-1133 | removes and returns the longest prefix asked for |
| `SpiReceive.Receiver.DoSpiTransfer` | wifi/WIFI-BT-LNX_6_12_3_RC1-IMX8--MM6X18505.p23_V2-GPL/uartfwloader_src/src/fw_loader_io_linux_spi.c:705-761 | the in-place receive half of a transfer, cut frames and outstanding bytes as coded |
| `SpiReceive.Receiver.FindFrames` | wifi/WIFI-BT-LNX_6_12_3_RC1-IMX8--MM6X18505.p23_V2-GPL/uartfwloader_src/src/fw_loader_io_linux_spi.c:730-761 | the header loop writes what the recursive scan writes |
| `SpiReceive.Receiver.FindFrame` | wifi/WIFI-BT-LNX_6_12_3_RC1-IMX8--MM6X18505.p23_V2-GPL/uartfwloader_src/src/fw_loader_io_linux_spi.c:731-760 | one round of the loop: a byte skipped, a whole frame stored, or a cut frame |
| `SpiReceive.Receiver.WholeFrame` | wifi/WIFI-BT-LNX_6_12_3_RC1-IMX8--MM6X18505.p23_V2-GPL/uartfwloader_src/src/fw_loader_io_linux_spi.c:736-743 | a frame that ends within the transfer is stored whole |
| `SpiReceive.Receiver.CutFrame` | wifi/WIFI-BT-LNX_6_12_3_RC1-IMX8--MM6X18505.p23_V2-GPL/uartfwloader_src/src/fw_loader_io_linux_spi.c:747-757 | a cut frame is stored as far as it goes and leaves its whole length outstanding |
| `SpiReceive.Receiver.ComReadChars` | wifi/WIFI-BT-LNX_6_12_3_RC1-IMX8--MM6X18505.p23_V2-GPL/uartfwloader_src/src/fw_loader_io_linux_spi.c:256-304 | reads from the ring when it holds enough, otherwise after at most one ten-byte transfer |
| `SpiReceive.Receiver.ComGetBufferSize` | wifi/WIFI-BT-LNX_6_12_3_RC1-IMX8--MM6X18505.p23_V2-GPL/uartfwloader_src/src/fw_loader_io_linux_spi.c:421-429 | polls one transfer and reports the queue length |
| `StepMotor.StepLoss` | pegatron-diag/pega_misc/src/pega_motor_awd8833.c:138-226 | from any energised state, over any full steps with k direction changes the rotor is within 3 + 2 (k / 2) steps of forward less reverse calls; a stretches in a direction leave it at most 2 a + 1 steps behind in that direction, none leave it not behind at all |
| `StepMotor.StepLossReached` | pegatron-diag/pega_misc/src/pega_motor_awd8833.c:138-226 | that bound is attained for every number of changes, in both directions |
| `StepMotor.ZigzagExact` | pegatron-diag/pega_misc/src/pega_motor_awd8833.c:138-226 | with stretches of two steps or more the error is exactly the initial slack plus two steps for each reversal at an odd counter |
| `StepMotor.ReversalSlack` | pegatron-diag/pega_misc/src/pega_motor_awd8833.c:185-226 | a reversal after a clean stretch loses 0 or 2 steps by the parity of the shared counter |
| `StepMotor.StretchTravel` | pegatron-diag/pega_misc/src/pega_motor_awd8833.c:138-226 | a stretch turns the rotor by its steps less the slack it pays, all of it after two steps |
| `StepMotor.ThereAndBack` | pegatron-diag/pega_misc/src/pega_motor_awd8833.c:372-411 | from any energised state, n >= 2 steps out and n back return the rotor home if and only if the slack at the start is what the turn loses: 0 at an even counter, 2 at an odd one |
| `StepMotor.StepPaysSlack` | pegatron-diag/pega_misc/src/pega_motor_awd8833.c:138-226 | the potential function: what one step fails to turn is what it takes off the slack |
| `StepMotor.HalfRefinesFull` | pegatron-diag/pega_misc/src/pega_motor_awd8833.c:233-355 | from equal pins and aligned counters, doubled half steps in any directions follow the full steps |
| `StepMotor.HalfwayOverRuns` | pegatron-diag/pega_misc/src/pega_motor_awd8833.c:233-355 | at odd half counters, over runs in any directions, a pin is high when it is so before or after the full step: a turning winding passes through both pins high |
| `StepMotorDriver.HalfActionRefines` | pegatron-diag/pega_misc/src/pega_motor_awd8833.c:372-411 | 2 n half steps of one call end where n full steps end, in both directions |
| `StepMotorDriver.FullActionTurns` | pegatron-diag/pega_misc/src/pega_motor_awd8833.c:372-411 | from any energised state a forward call of n full steps takes the phase n quarter turns on and a reverse call n back, less the slack in that direction, and the counter goes on by n |
| `StepMotorDriver.HalfActionTurns` | pegatron-diag/pega_misc/src/pega_motor_awd8833.c:372-411 | the same in half mode from an even counter, with 2 n half steps for n quarter turns |
| `StepMotorDriver.HalfActionBetween` | pegatron-diag/pega_misc/src/pega_motor_awd8833.c:372-411 | after 2 n + 1 half steps of a call each pin is high when it is so after n or n + 1 full steps |
| `StepMotorDriver.OtherCodesDoNothing` | pegatron-diag/pega_misc/src/pega_motor_awd8833.c:372-411 | other direction or mode codes leave the motor as it was |
| `StepMotorDriver.Driver.FullStepForward` | pegatron-diag/pega_misc/src/pega_motor_awd8833.c:138-178 | sets two pins and the counter in place as one full forward step |
| `StepMotorDriver.Driver.FullStepReverse` | pegatron-diag/pega_misc/src/pega_motor_awd8833.c:185-226 | the same in reverse, on the same counter |
| `StepMotorDriver.Driver.HalfStepForward` | pegatron-diag/pega_misc/src/pega_motor_awd8833.c:233-291 | sets one pin and the half counter |
| `StepMotorDriver.Driver.HalfStepReverse` | pegatron-diag/pega_misc/src/pega_motor_awd8833.c:298-355 | the same in reverse |
| `StepMotorDriver.Driver.StepFunctionAction` | pegatron-diag/pega_misc/src/pega_motor_awd8833.c:372-411 | the counted loop makes that many steps of the mode and direction selected |
| `NightMode.DebounceExact` | pegatron-diag/pega_misc/src/pega_nv_mode.c:330-358 | the counters follow the counter-free specification on every history if and only if the trigger count is at most 256 |
| `NightMode.CountersAfter` | pegatron-diag/pega_misc/src/pega_nv_mode.c:330-358 | before a mode is chosen the counters are totals, afterwards one is full and the other is the streak of the opposite side |
| `NightMode.FlipExactly` | pegatron-diag/pega_misc/src/pega_nv_mode.c:330-358 | a mode the counters have chosen flips exactly when a reading completes t in a row on the other side, dead band apart, whatever the trigger count |
| `NightMode.FlipsApart` | pegatron-diag/pega_misc/src/pega_nv_mode.c:330-358 | two successive flips of the mode have at least t readings of the new side between them |
| `NightMode.NeverSwitches` | pegatron-diag/pega_misc/src/pega_nv_mode.c:332-341 | with a trigger count above 256 an 8-bit counter never gets there, no mode is ever chosen, and the counters are the totals modulo 256 |
| `NightMode.OutputsMatch` | pegatron-diag/pega_misc/src/pega_nv_mode.c:189-250 | day and night are forced alternately and the lamp and filter always match the mode |
| `NightMode.LampNeedsFilterOut` | pegatron-diag/pega_misc/src/pega_nv_mode.c:189-203 | wherever the commands stop, the lamp is never on with the filter in place: the reason for their order |
| `NightMode.ReportsInForce` | pegatron-diag/pega_misc/src/pega_nv_mode.c:330-358 | a mode is reported exactly at the readings on the side of the mode in force after them |
| `NightModeDriver.NightSwitch.ForceDayNightMode` | pegatron-diag/pega_misc/src/pega_nv_mode.c:189-203 | the two commands of each mode, in their order |
| `NightModeDriver.NightSwitch.NightModeSet` | pegatron-diag/pega_misc/src/pega_nv_mode.c:205-227 | sets night and commands the board only on a change |
| `NightModeDriver.NightSwitch.DayModeSet` | pegatron-diag/pega_misc/src/pega_nv_mode.c:229-250 | sets day and commands the board only on a change |
| `NightModeDriver.NightSwitch.ManualSet` | pegatron-diag/pega_misc/src/pega_nv_mode.c:168-187 | the mode set by hand is commanded in full once for each setting, even when it is the current mode |
| `NightModeDriver.CalibrationMovesThresholds` | pegatron-diag/pega_misc/src/pega_nv_mode.c:68-85 | a calibrated reading is on the side the raw one is on between thresholds moved back through offset and gain, and on the other side when the gain is negative |
| `NightModeDriver.NightSwitch.Judge` | pegatron-diag/pega_misc/src/pega_nv_mode.c:330-358 | both comparisons in their order, the new counters and mode, one forced command pair per change, and exactly when each of the three values is returned |
| `NightModeDriver.NightSwitch.Processing` | pegatron-diag/pega_misc/src/pega_nv_mode.c:309-361 | one round: in manual mode the mode set by hand, otherwise a negative reading changes nothing and any other is one reading of the specification |
| `EventArbitration.ArbitrationExact` | accelerator/src/st_lis2dw12_events.c:661-692 | the overwriting loop gives the maximum for every event set, event and direction if and only if the nonzero rates are nondecreasing |
| `EventArbitration.RequiredIsMaximum` | accelerator/src/st_lis2dw12_events.c:661-692 | the specification is an upper bound of the enabled rates and attained, 0 for none |
| `EventArbitration.ScanEnables` | accelerator/src/st_lis2dw12_events.c:675-689 | enabling over a sorted table gives the maximum, with what the partial scan holds |
| `EventArbitration.ScanDisables` | accelerator/src/st_lis2dw12_events.c:675-689 | disabling gives the maximum for any table |
| `SensorRates.EventAgreement` | accelerator/src/st_lis2dw12_events.c:785-820 | over every run, bus failures included, the interrupt bits match the enabled events and the recorded rate is the exact maximum throughout, if and only if no event call that would change something fails after the register write |
| `SensorRates.OtherBitsKept` | accelerator/src/st_lis2dw12.h:327-336 | the interrupt bits of no event never change in any run, bus failures included |
| `SensorRates.TapAgreement` | accelerator/src/st_lis2dw12_events.c:762-770 | over every run the double tap bit is set exactly when that event is enabled, throughout, if and only if no changing call for it fails after its first access |
| `SensorRates.StepInStep` | accelerator/src/st_lis2dw12_events.c:785-820 | one call keeps bits, events and recorded rate in agreement if and only if it is harmless |
| `SensorRates.FailureAgrees` | accelerator/src/st_lis2dw12_events.c:794-819 | a failed event call keeps bit and set in agreement exactly when it fails before the register write or asks for what was so, and the recorded rate exactly when it fails that early or the required rate is the same |
| `SensorDriver.FailedEventDisagrees` | accelerator/src/st_lis2dw12_events.c:785-820 | a call that disagrees: free fall enabled after probe with the last bus access failing leaves bit and rate set and no event enabled |
| `SensorDriver.FirstEvent` | accelerator/src/st_lis2dw12_events.c:694-820 | the register bit and rate of the first event enabled after probe, for each event |
| `SensorRates.RateTotality` | accelerator/src/st_lis2dw12_core.c:302-332 | after any run, bus failures included, the rate search of the next event or power call succeeds |
| `SensorRates.StepValid` | accelerator/src/st_lis2dw12_core.c:302-348 | every call keeps the rates listed, and event and power calls fail only with the bus |
| `SensorRates.TargetListed` | accelerator/src/st_lis2dw12_core.c:76-173 | the rate any listed request comes to is in the accelerometer table of each chip |
| `SensorRates.SetOdrCodes` | accelerator/src/st_lis2dw12_core.c:329-345 | the code written runs the hardware at exactly the rate the request comes to, by the doubling of rates from 12.5 Hz, powers it down exactly for 0, and serves the events at least |
| `SensorRates.CodesMeanRates` | accelerator/src/st_lis2dw12_core.c:80-173 | every rate code of every chip's table means its rate: 12.5 Hz for code 2, doubled for each code after it |
| `SensorRates.RegisterRate` | accelerator/src/st_lis2dw12_core.c:302-345 | the rate in the register after a successful call, in numbers: the largest of the rates asked for, 100 Hz at most, or of the events |
| `SensorRates.LowPowerAlways` | accelerator/src/st_lis2dw12_core.c:320-336 | every successful request for a listed rate selects low-power mode 2: the high-performance mode is never reached |
| `SensorRates.CoverageExact` | accelerator/src/st_lis2dw12_core.c:302-345 | after any call, rate writes and bus failures included, the register serves every enabled sensor, up to the 100 Hz cut, if and only if a condition on the fields before the call holds; an event call must outdo the accelerometer's own rate, which it forgets |
| `SensorRates.CoverageOverRuns` | accelerator/src/st_lis2dw12_core.c:302-345 | over every run the register serves every enabled sensor throughout if and only if each call finds its condition met |
| `SensorRates.ThermometerOffStops` | accelerator/src/st_lis2dw12_core.c:551-583 | turning the thermometer off with no event rate stops an enabled accelerometer |
| `SensorRates.FreeFallSlows` | accelerator/src/st_lis2dw12_events.c:803-810 | enabling free fall slows an accelerometer set to 100 Hz down to 25 Hz |
| `SensorRates.RateWriteUncovers` | accelerator/src/st_lis2dw12_core.c:690-705 | a rate written to an enabled sensor is not in force until the next request, so one above the register's rate leaves the sensor uncovered |
| `SensorRates.SampFreqValid` | accelerator/src/st_lis2dw12_core.c:690-705 | a rate write keeps the rates listed, also when it is refused half way |
| `SensorRates.RefusedRateMovesLevel` | accelerator/src/st_lis2dw12_core.c:690-705 | a refused rate still changes the sample level where the level table has it |
| `SensorRates.SettlingShrinks` | accelerator/src/st_lis2dw12_core.c:267-281 | sample levels grow with the rate while the time they take shrinks, from a second to a twenty-fifth of one |
| `SensorRates.BitMoved` | accelerator/src/st_lis2dw12.h:327-336 | setting one event bit moves that bit and no other |
| `SensorRates.LowBitIsLowest` | accelerator/src/st_lis2dw12.h:327-336 | the bit moved is the lowest one set in the mask, for every nonzero mask |
| `SensorDriver.Driver.GetOdrIdx` | accelerator/src/st_lis2dw12_core.c:248-265 | the first index of a rate, or failure when it is not in the table |
| `SensorDriver.Driver.SetStdLevel` | accelerator/src/st_lis2dw12_core.c:267-281 | the sample level of a rate, or failure with the level unchanged |
| `SensorDriver.Driver.CheckOdrDependency` | accelerator/src/st_lis2dw12_core.c:283-300 | the larger of a request and the other sensor's enabled rate |
| `SensorDriver.Driver.WantedOdr` | accelerator/src/st_lis2dw12_core.c:312-319 | the larger of the request and the rate of the other sensor when enabled |
| `SensorDriver.Driver.SetOdr` | accelerator/src/st_lis2dw12_core.c:302-348 | the cut, the lookup and the register write, for every outcome |
| `SensorDriver.Driver.SensorSetEnable` | accelerator/src/st_lis2dw12_core.c:551-583 | rate first, then the enable bit, only on success; enabling the thermometer at rate 0 divides by zero after the register write |
| `SensorDriver.Driver.WriteSampFreq` | accelerator/src/st_lis2dw12_core.c:690-705 | the level changes even when the rate is then refused |
| `SensorDriver.Driver.CheckEventsOdrDependency` | accelerator/src/st_lis2dw12_events.c:661-692 | the overwriting loop returns the exact maximum over the events enabled after the call, for each chip |
| `SensorDriver.Driver.WriteEventConfig` | accelerator/src/st_lis2dw12_events.c:694-820 | register, recorded rate, CTRL1 and mask in the order of the code, for any number of bus accesses that succeed, and where a call comes to a mask of 0 |
| `AddressDigits.AdvertisementDataUpdate` | pegatron-diag/pega_ble/src/main.c:37-85 | any text of admissible length that uses at most twelve cells gives its field, a dotted quad its four octets zero-padded to three digits; other lengths give -1, and other texts run over the array |
| `AddressDigits.InsideIffTwelve` | pegatron-diag/pega_ble/src/main.c:62-85 | the scan writes inside its array if and only if the text uses at most twelve cells, dots rounding up to a whole octet |
| `AddressDigits.ThirteenDigitsOverrun` | pegatron-diag/pega_ble/src/main.c:37-85 | a text of accepted length that leaves the array: thirteen digits |
| `AddressDigits.ShortPartsFit` | pegatron-diag/pega_ble/src/main.c:62-85 | a guard to test before the call: at most four dot-separated parts of at most three characters of any kind always fit |
| `AddressDigits.FieldOfQuad` | pegatron-diag/pega_ble/src/main.c:62-85 | the field of every dotted quad is its four octets zero-padded, so the index jumps land on octet ends |
| `AddressDigits.PlaceDigits` | pegatron-diag/pega_ble/src/main.c:62-85 | the right-to-left scan with its jumps writes the field of any text, and runs over the array exactly when the text uses more than twelve cells |
| `AddressDigits.DecodeDigits` | pegatron-diag/pega_ble/src/main.c:62-85 | reading the twelve digits back gives the four octet values |
| `AddressDigits.SameFieldSameAddress` | pegatron-diag/pega_ble/src/main.c:62-85 | two addresses share a field if and only if their octets are equal as numbers |
| `AddressDigits.DottedInjective` | pegatron-diag/pega_ble/src/main.c:37-38 | a text is the dotted form of one quad only |

## Left out

- Threads, mutexes and signals: each scheduler operation is one atomic step. In `pega_schedule.c` the mutex is held only in push and in the shift, so a tick that another thread interrupts between slots is not covered.
- Dispatch of a fired event, and the wrappers that push a four-hour event and read it back: they add nothing to the queue.
- Scheduler elapsed time is unbounded: the C `int` overflows after 2^31 ticks (about 6.8 years). The readers' 32-bit milliseconds are modelled.
- FifoTiming.Apply: 64-bit nanoseconds are unbounded integers; the code's products stay below 2^63 for some 36 years of gap.
- FifoReader.Accelerometer.UpdateFifo: the buffer mode write and the sensor enable that follow the timing fields are in the rate model. What happens after a division by zero is not modelled; `SampFreq` shows that only the thermometer can be given the rate 0.
- Suspend, resume, self-test, one-shot reads and register caching of the accelerometer driver.
- Waits for the interrupt line, `select`, the transmit half of SPI transfers and `Flush`'s read loop: a call is given whether a transfer took place and what it received.
- The single-character read: it is `ComReadChars` with a count of 1.
- SensorRates.EventAgreement: event kinds come as an event number, the refused kind and direction codes are not modelled, and runs leave out tap events on the AIS2DW12 for the reason given next.
- SensorDriver.Driver.WriteEventConfig: nothing is promised of a tap event on the AIS2DW12 once it comes to its interrupt mask, which is 0 in the table: the code asks for the lowest set bit, which the kernel leaves undefined for 0, so which register bit changes is not determined by the source.
- SensorDriver.Driver.SensorSetEnable: the thermometer's timer is left out, and so is what follows the division by zero when its rate is 0; the runs of `SensorRates` take that call as if it succeeded.
- NightModeDriver.NightSwitch.Processing: lux values are real numbers, so rounding of `float` is not modelled; the setters of the manual and automatic settings, the lamp override and the first-value record are left out, and the debounce theorems hold the thresholds and the trigger count fixed with the night threshold not above the day threshold.
- StepMotor.StepLoss: starts with both windings energised; pin states after `awd8833c_gpio_init` or `awd8833c_stop`, delays, speed settings and the timed loop are left out. `motor/src` and `pega_motor/src` hold the same switch code.
- AddressDigits.AdvertisementDataUpdate: what a text that uses more than twelve cells does to the memory before the array is not modelled, only that it happens and for which texts. The radio commands and the command string are left out.
- `mlan_11ac.c`, the LED driver and the diagnostic command tables: lookup and fixed sequences without state to reason about.
