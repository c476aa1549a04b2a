# The message path of the can4linux driver

can4linux drives Philips SJA1000 CAN controllers. A process hands CAN messages to `write`; the driver
queues them in a ring (`msgq.c`) and feeds them to the controller one by one, from three contexts: the
process itself, the transmit interrupt, and a high-resolution timer for messages that ask for a delay.
Received frames go the other way, from the controller's FIFO through the interrupt handler and a second
ring to `read`. The rings have no lock around their contents: they rely on there being one producer and
one consumer at any time.

This project models that path, and the programs in `examples/` that exercise it, and proves

- that the ring with its wrapping 32-bit counters is an unbounded first-in first-out queue;
- that over every interleaving of process, interrupt, timer, poller, controller and bus there is one
  consumer at a time, no stall, no lost wake-up, and every accepted message goes to the controller once
  and in order, exactly under five stated assumptions about the surroundings, each of which is shown to
  be needed, at every size of the queues, by a run that breaks the driver without it;
- that no received frame is lost, doubled or reordered on its way to `read`, whatever the transmit side
  does, but for those that a bus-off takes from the controller's FIFO; exactly under a sixth assumption;
- that a message is delayed at most once, that consumers find the queue non-empty at most twice for each
  accepted message over any run, and for which messages the delay is right;
- that the bytes written to the controller are the frame in the data sheet's layout, and that reading such
  bytes back gives the frame, for both register spacings;
- when the interrupt handler's loop ends on a quiet bus, and what it leaves;
- which frames the acceptance filter lets through, for which masks it does what is documented, and when the
  filter registers hold what was last set;
- exactly when the monitor is silent about what it reads of the traffic generator's stream, end to end
  through two drivers;
- the move-to-front list and the pointer texts of the SWIG run-time code.

## How it is laid out

| file | subject |
|---|---|
| Options, Words, Bits, CanTypes | C integers and bit operators, message and frame records |
| Rings, MsgQueue | the ring as a value, and the queue of `msgq.c` in memory |
| Codec, Sja1000 | frame layout and codec as functions, and the controller's registers with the routines that use them |
| Driver | the transition system: five contexts, the controller and the bus |
| Token, Order, Receive, Polling | what every step keeps: the consumer token, order, received frames, wake-ups |
| Theorems | what holds after every run |
| Hazards | what breaks without each assumption; exact conditions |
| Progress, Effort | delays, and a bound on the work of the consumers |
| Configured | the driver's own codec put into the transition system |
| Device, QuietBus, Interrupt | the routines in memory, run without interference |
| Refinement | the steps of Driver for `qconsume`, one message written or read, `rxproduce` and a pass of the handler, taken without interruption, do what Device does |
| Timers | the static timer table, and several devices at it |
| Acceptance | filter settings and the acceptance filter |
| Traffic, Monitor, Lengths, EndToEnd | generator and monitor, streams with gaps and error messages, and the path between two computers |
| Swig, LostTypes, PointerText | type list and pointer texts of the SWIG wrapper |

What the source updates in place is a class here (queue, controller, device, board settings, timer table,
generator, monitor, type list). The concurrent behaviour is a transition system on values, because the steps
of several contexts have to be interleaved; `Refinement` ties the two together, routine by routine. The
register accesses of `Sja1000.Chip` and the step functions of
`Driver` are definitions and claim nothing by themselves; what they keep is stated in Token, Order, Receive,
Polling and Theorems.

### Assumptions about the surroundings

The first six are fields of `Driver.Config`, looked at in `Driver.Enabled`, `HandlerMayStep` and `Consume`:

- `locked`: the transmit queue was created with its lock (`util.c:60` does so).
- not `early`: the handler does not act on a TX interrupt, real or simulated (`sja1000funcs.c:654-657`),
  while another context is between its transmission request (`sja1000funcs.c:442`) and the return of its
  `qconsume` (`msgq.c:42`). It may read and serve everything else then.
- not `hasty`: when a bus-off has lost a frame, the handler does not test for it (`sja1000funcs.c:633-635`)
  before the sender of the frame has set `txinprogress` (`sja1000funcs.c:443`).
- not `stale`: a free transmit buffer seen at `sja1000funcs.c:635` means a lost interrupt, not a frame that
  completed since the interrupt register was read.
- not `crowded`: no other device has this device's entry of the timer table. `linux_2.6.c:143-151` does
  not see to that when two devices delay their first messages at the same time:
  `Timers.SharedExactlyIfInterleaved` and `Timers.TimerIsKeptExactlyUnlessCrowded`.
- not `torn`: a bus-off does not empty the FIFO in which the handler saw a frame before it has finished its
  copy of the frame window (`sja1000funcs.c:448-489`). The register reads are one step, at their end; a
  bus-off in the middle of them is one before that step, and the copy may then show anything.
- The controller raises one TX interrupt for each requested frame unless a bus-off loses the frame.
- A session starts with equal queue counters. `qcreate` does not reset them, and
  `Hazards.ReopenIsSafeExactlyIfDrained` shows that this matters.
- One process writes and one reads. Going to reset mode, as a bus-off does, empties the receive FIFO; no
  frame arrives in reset mode. The log `arrived` keeps all frames, and `wiped` marks those taken by a
  reset. Nobody else stops or resets the chip.
- Memory is sequentially consistent.

### Where code and documentation differ

- `ioctl.c:114-115` says that bits 0 to 20 of code and mask do not matter for standard frames. Bit 20 is the
  RTR bit, and bits 0 to 15 are compared with the first two data bytes: `Acceptance.StdSelectsExactly`.
- `ioctl.c:74-113` gives one code for each format. The filter does not look at the format, and every code
  lets frames of both in: `Acceptance.FormatIsNotCompared`, `StdCodeOnExtended`, `ExtCodeOnStandard`.
- `can_verify.c:166-169` passes error messages on as if they were part of the stream, and complains about
  each, and about what follows it: `EndToEnd.ErrorMessageIsReported`.
- `can_verify.c:70-108` does not set its round counter from what it reads. After a loss it stays behind for ever,
  and reports the data of later messages: `Lengths.DataAfterGaps`.
- `sja1000funcs.c:403-405` means to subtract the minimal time of the frame. For a remote frame it also
  subtracts data bytes that are never sent: `Progress.WaitIsRightExactlyWithoutPhantomData`.
- `sja1000funcs.c:584` loops as long as the controller shows interrupts. With a full receive queue the
  receive interrupt never goes away: `Interrupt.Spin`.
- `select.c:53-54` wakes writers at half a queue; with a queue of one slot the kick in `write.c:86-90`
  makes room without waking anybody: `Hazards.PollSafeExactlyFromTwoSlots`. The driver uses 128 slots
  (and 2048 for receiving; both are powers of two, as the theorems ask).
- `canLtwo_wrap.c:84-109` adds names to a registered type without repairing a back pointer, which
  `canLtwo_wrap.c:123` relies on: `Swig.LookUpAfterRegistration`, `Swig.RegisterTwice`.

## Model

| member | source | states |
|---|---|---|
| Words.MaskIsModuloExactlyForPowersOfTwo | msgq.c:61 | `& (sz-1)` is the remainder modulo `sz` for every count exactly if `sz` is a power of two |
| Rings.CountersAreExact | msgq.c:16-49 | across counter wrap: `qlen` is the true number of queued messages, the full and the empty test are exact |
| Rings.MaskedIndex | msgq.c:18-41 | the masked index of a wrapped counter is the unbounded position modulo the size |
| Rings.FillAndDrainDiffer | msgq.c:16-41 | the slot being filled and the slot being drained are never the same |
| Rings.FillKeepsContents | msgq.c:18 | filling the free slot disturbs no queued message |
| Rings.PublishAppends | msgq.c:20-22 | counting up appends exactly what the slot holds |
| Rings.SetHeadKeepsRest | msgq.c:41 | rewriting the drained slot changes neither the rest of the queue nor a slot being filled |
| Rings.AdvanceDropsOldest | msgq.c:42 | counting consumed drops exactly the oldest message |
| MsgQueue.MsgQ.constructor | core.c:165 | the all-zero queue of the static device record |
| MsgQueue.MsgQ.QCreate | msgq.c:56-69 | -1 and no change without memory; else an idle queue that keeps its counters and is empty exactly if they were equal |
| MsgQueue.MsgQ.QLen | msgq.c:46-49 | number of queued messages |
| MsgQueue.MsgQ.QSize | msgq.c:51-54 | number of slots |
| MsgQueue.MsgQ.HasRoom | msgq.c:16-17 | the full test tells exactly whether a slot is free |
| MsgQueue.MsgQ.FreeSlot | msgq.c:18 | the slot handed to the producer is that of the next position |
| MsgQueue.MsgQ.Publish | msgq.c:20-22 | the ring afterwards is the published ring; the message is appended |
| MsgQueue.MsgQ.QProduce | msgq.c:12-24 | appends what the callback makes of the free slot, or changes nothing and returns 0 exactly if the queue is full |
| MsgQueue.MsgQ.FindOrPark | msgq.c:33-39 | reports whether there is a message, and sets `idle` exactly if there is none |
| MsgQueue.MsgQ.HeadSlot | msgq.c:41 | the slot handed to the consumer holds the oldest message |
| MsgQueue.MsgQ.Advance | msgq.c:42 | removes exactly the oldest message |
| Codec.WrittenCarries | sja1000funcs.c:414-440 | the bytes that `sendcanmsg` stores are the message's frame in the layout of the SJA1000 data sheet, sections 6.4.13 and 6.4.14 |
| Codec.ReceivedSeesFrame | sja1000funcs.c:448-491 | reading any window that carries a frame, with any junk in unused bits and in the slot, shows exactly that frame |
| Codec.RoundTrip | sja1000funcs.c:414-489 | reading back what was stored for a message: identifier modulo 2^29 or 2^11, the same RTR and format, length up to 8 and that many data bytes |
| Codec.CarriesAtMostOne | sja1000.h:14-48 | a window carries at most one frame, although the two layouts overlap |
| Codec.ReceivedIsNoError | sja1000funcs.c:466-497 | no received identifier is that of an error message |
| Codec.ReceivedReadsAs | sja1000funcs.c:448-489 | for every window, bit by bit: the time noted, each flag bit, each identifier bit, the length code, the bytes copied for it and the slot's old bytes behind them |
| Configured.SeenIsDecoded | sja1000funcs.c:448-491 | also for length codes 9 to 15, what is read depends neither on the slot nor on the preset flags |
| Sja1000.Chip.Out | io.h:90-91 | a write to the frame window hits filter, transmit buffer or nothing, depending on mode and lock, in one register only |
| Sja1000.Chip.LeaveReset | sja1000funcs.c:612-617 | clears the reset bit and no other |
| Sja1000.Chip.StoreHeader | sja1000funcs.c:414-430 | frame information and identifier bytes, at either register spacing |
| Sja1000.Chip.StoreFrame | sja1000funcs.c:414-440 | header and data together: no identifier byte is overwritten by data |
| Sja1000.Chip.FetchFrame | sja1000funcs.c:448-491 | the message is what the codec makes of the head of the FIFO, which is then released |
| Sja1000.Chip.FetchId | sja1000funcs.c:466-476 | the identifier in either format |
| Sja1000.Chip.FetchData | sja1000funcs.c:481-489 | the data bytes, and the slot's old bytes behind them |
| Device.Dev.SendCanMsg | sja1000funcs.c:382-446 | caps the length in place; arms the timer and clears the delay, or requests exactly the message's frame; all other slots unchanged |
| Device.Dev.Wait | sja1000funcs.c:397-407 | the computed wait |
| Device.Dev.Request | sja1000funcs.c:414-445 | the frame that the controller is given carries the message |
| Device.Dev.Transmit | msgq.c:26-44 | with `sendcanmsg` as callback: parks the queue, delays its head, or hands its head to the controller and drops it |
| Device.Dev.DelayedMsgWorker | sja1000funcs.c:372-379 | the same, and wakes pollers exactly if the queue is at most half full |
| Device.Dev.WriteOne | write.c:81-90 | one message accepted exactly if there is room; the consumer is kicked exactly if the queue was idle |
| Device.Dev.WriteAll | write.c:80-92 | the loop stops only at the end of the buffer or with a full queue |
| Device.Dev.CanWrite | write.c:80-93 | accepts min(count, free) messages, one more if the queue was idle and the first is sent at once; always a prefix; new state in full |
| Device.Dev.CanRead | read.c:33-39 | returns exactly the min(count, queued) oldest messages and leaves the rest |
| Device.Dev.CanSelect | select.c:35-67 | readable exactly if the receive queue holds something, writable exactly if the transmit queue is at most half full |
| Device.Dev.ProduceFrame | sja1000funcs.c:504-515 | with room, the frame is queued, read bit by bit with the flags and the time noted, and released; without, nothing happens but the overrun mark |
| Device.Dev.ProduceError | sja1000funcs.c:493-515 | with room, a message with identifier 0xFFFFFFFF, length 0, the flags and the time noted is queued; without, only the overrun mark |
| Device.Dev.ReportError | sja1000funcs.c:504-515 | an error message with the flags and the time noted takes its place behind the reports already queued in this pass, if there is one |
| Device.Dev.ReceiveStage | sja1000funcs.c:600-606 | the frame is queued and released, or both not; the overrun status is cleared |
| Device.Dev.ErrorStage | sja1000funcs.c:608-648 | ends the reset, reports bus-off before error-passive, and simulates a transmit interrupt exactly in the case described there |
| Device.Dev.TransmitStage | sja1000funcs.c:654-660 | clears `txinprogress`, serves the queue once and wakes writers exactly at half a queue |
| Device.Dev.NoticeStage | sja1000funcs.c:597-652 | receive and error branch: the messages queued and their flags bit by bit, bit 7 exactly after an overrun of the queue; the mark afterwards; which transmit interrupt is simulated |
| Device.Dev.ActStage | sja1000funcs.c:654-675 | transmit and overrun branch |
| Device.Dev.HandlePass | sja1000funcs.c:583-676 | one pass, on the messages queued: frame, bus state and overrun in this order as far as there is room; bit 7 exactly if the queue had overrun before, bit 5 exactly on bus-off, bit 4 exactly on error status without it, bit 1 exactly if the data overrun is still to be seen in its branch, no others; the mark afterwards says whether the last of them found no room; the transmit queue is served exactly if there was a real or simulated interrupt |
| QuietBus.LoopEndsExactlyIfEveryFrameFits | sja1000funcs.c:583-676 | for the load of frames, room and errors that a pass changes as `Interrupt.RunPass` states: frames are left after every number of passes if and only if not every frame finds a slot |
| Interrupt.RunPass | sja1000funcs.c:583-676 | a pass moves the head of the FIFO behind the receive queue, and changes the load exactly as counted, whether or not everything fits |
| Interrupt.OverrunIsTold | sja1000funcs.c:504-598 | a frame that finds the queue full is the next to be queued after a read, with bit 7 set, and that clears the mark |
| Interrupt.Turn | sja1000funcs.c:583-676 | a turn of the loop changes the load exactly as counted and loses no frame, whether or not everything fits |
| Interrupt.Loop | sja1000funcs.c:583-676 | the loop ends with no interrupt left, and loses no frame on the way |
| Interrupt.Spin | sja1000funcs.c:583-676 | if not every frame fits, then after any number of turns of the loop on the device frames are left, the load is the counted one, no frame is lost, and the loop condition holds again: it goes round for ever |
| Interrupt.CanInterrupt | sja1000funcs.c:550-702 | if every frame fits, the handler ends with an empty FIFO; exactly its frames are queued in order, with as many error messages as fit; transmit is served once |
| Interrupt.TookIsSeen | sja1000funcs.c:448-502 | a reader finds in the queued messages exactly the frames reported, and none in error messages |
| Token.StepKeepsToken | write.c:80-91 | every step of every context that the assumptions allow keeps the invariant: the right to consume is one token, and the controller holds it while a frame is out or lost |
| Token.ConsumeHasEffect | msgq.c:26-44 | what each step of `qconsume` with `sendcanmsg` does to token, queue and controller |
| Order.TokenIsExclusive | msgq.c:6 | at most one context is between emptiness test and `consumed++` |
| Order.StepKeepsOrder | msgq.c:33-43 | every step keeps: handed over, then queued, is what was accepted |
| Receive.StepKeepsRx | sja1000funcs.c:448-515 | without torn reads every step keeps: delivered, queued, in the handler's hands and in the FIFO are the frames that arrived and that no reset took from the FIFO, in order |
| Receive.StepKeepsShape | sja1000funcs.c:504-515 | with no assumption at all every step keeps: the queue is sound, whoever fills or drains it has a slot or a message, and the reader holds the oldest one |
| Receive.WipedIsAccounted | sja1000funcs.c:608-617 | a reset takes exactly the frames that the FIFO holds and that the handler has not copied |
| Polling.StepKeepsPoll | select.c:31-65 | every step keeps: a sleeping poller has nothing to do, or is about to be woken |
| Theorems.TransmitIsSafe | msgq.c:6-44 | after every run: one consumer, no stall, accepted messages go out once and in order, slots of writer and consumer are apart and the drained slot holds what was published for it |
| Theorems.ReceiveIsSafe | sja1000funcs.c:504-515 | after every run without torn reads, and without any assumption on the transmit side: of the frames that arrived and that no reset took from the FIFO none is lost, doubled or reordered; the reader takes the oldest message from a slot that nobody fills |
| Theorems.PollIsSafe | select.c:31-65 | after every run: a poller that has registered sleeps only while nothing is ready or a wake-up is due |
| Hazards.EarlyInterruptSendsTwice | sja1000funcs.c:442-443 | with queues of any size, a run in which an early interrupt makes two contexts consume and sends one message twice |
| Hazards.UnlockedQueueStalls | msgq.c:30-39 | with queues of any size, a run in which, without the lock, a message is published and left behind: in every run from there nobody looks at the queue before the next write |
| Hazards.HastyTestStalls | sja1000funcs.c:633-645 | with queues of any size, a run in which the handler tests for a lost frame before its sender has set `txinprogress`: in every run from there nothing more is sent, whatever is written, before the next error warning |
| Hazards.StaleBufferBreaksExclusion | sja1000funcs.c:633-645 | with queues of any size, a run in which a completed frame is taken for a lost one and two contexts consume |
| Hazards.CrowdedTimerStalls | linux_2.6.c:143-159 | with queues of any size, a run in which another device takes the timer away from a delayed message: in every run from there, without exception, nothing more is sent |
| Hazards.RunDeserted | sja1000funcs.c:372-676 | in every run from a state in which no consumer, timer or interrupt is due, nothing is sent and nobody attends to the queue, unless an idle queue is written to or an error warning comes while `txinprogress` is set |
| Hazards.SafeExactlyWhenSound | sja1000funcs.c:372-446 | for all sizes of the queues: the transmit side is safe in every run if and only if all five assumptions hold |
| Hazards.TornReadMakesFrame | sja1000funcs.c:448-502 | with queues of any size, a run in which a bus-off empties the FIFO before the handler has finished its copy, and whatever the copy shows is queued as a frame |
| Hazards.ReceiveSafeExactlyIfNotTorn | sja1000funcs.c:504-515 | for all sizes of the queues: the receive side is safe in every run if and only if there are no torn reads |
| Hazards.ReopenIsSafeExactlyIfDrained | msgq.c:56-69 | a newly opened device is safe in every run if and only if its transmit counters are equal |
| Hazards.OneSlotLosesWakeUp | write.c:86-90 | a run in which a poller sleeps over an empty transmit queue of one slot |
| Hazards.PollSafeExactlyFromTwoSlots | write.c:86-90 | for all sizes of the queues: polling loses no wake-up if and only if the transmit queue has at least two slots |
| Progress.WaitIsRightExactly | sja1000funcs.c:397-412 | at every bit rate, the time until the timer runs out plus the exact frame time lies in [requested, requested+1) microseconds if and only if the timer can keep the wait (`Timers.ElapsingIsExact`) and counted bits and frame take equally many whole microseconds; frame time from section 3.2.1 of the Bosch CAN Specification 2.0, Part B |
| Progress.WaitsExactly | sja1000funcs.c:397-408 | a message waits if and only if it asks for more than the counted frame time in whole microseconds, or the difference wraps; and the wait is that difference |
| Progress.DataFramesAreOnTime | sja1000funcs.c:397-412 | so it does for a data frame if and only if the timer can keep the wait |
| Progress.WaitIsRightExactlyWithoutPhantomData | sja1000funcs.c:397-412 | up to 8 Mbit/s it does if and only if the timer can keep the wait and the message is no remote frame with a length |
| Progress.ActivationLeavesLessWork | sja1000funcs.c:372-412 | every look that finds a message leaves strictly less: queued messages plus queued delays |
| Progress.DelayedOnlyOnce | sja1000funcs.c:407-411 | after every run, a message that the timer comes back for is sent and not delayed again |
| Effort.ConsumePays | msgq.c:26-44 | each step of a consumer pays for what it found |
| Effort.FindsAreBounded | sja1000funcs.c:372-446 | over any run, consumers find a message at most twice for each message accepted |
| Effort.FindsEndWithoutWrites | sja1000funcs.c:372-446 | from any reachable state, without further writes, they find one at most as often as there are messages and delays queued; after that many, at most the last message is left, in the hand of its consumer |
| Configured.DriverIsSafe | sja1000funcs.c:372-676 | all of this for the driver's own codec at every bit rate |
| Configured.DriverIsSafeExactlyWhenSound | sja1000funcs.c:372-515 | for the driver's own codec and all sizes of the queues: the transmit side is safe in every run exactly in the surroundings described above, and the receive side exactly without torn reads |
| Configured.DriverFindsAreBounded | sja1000funcs.c:372-446 | and its consumers find a message at most twice for each one accepted |
| Refinement.ActivationIsTransmit | msgq.c:26-44 | a whole `qconsume` of the transition system is what `Device.Dev.Transmit` is proved to do |
| Refinement.StepsAreProduceFrame | sja1000funcs.c:504-515 | the steps of `rxproduce` taken together are what `Device.Dev.ProduceFrame` is proved to do |
| Refinement.StepsAreProduceError | sja1000funcs.c:493-515 | the same for an error message and `Device.Dev.ProduceError`, down to its identifier, length, flags and time |
| Refinement.WriterIsWriteOne | write.c:81-90 | the steps of the writer for one message are what `Device.Dev.WriteOne` is proved to do: accepted exactly if there is room, and the kick is a whole `qconsume` |
| Refinement.ReaderTakesOldest | read.c:33-39 | the steps of the reader take exactly the oldest message, or nothing from an empty queue: one turn of the loop of `Device.Dev.CanRead` |
| Refinement.PassIsHandlePass | sja1000funcs.c:583-676 | the steps of a whole pass of the handler are what `Device.Dev.HandlePass` is proved to do: the same reports in the same order, the same FIFO, and the transmit queue served in the same cases |
| Refinement.ReadIrqIsRead | sja1000funcs.c:578-598 | the handler begins a pass with the bits of the interrupt register, as `Sja1000.Chip.ReadIrq` reads them, and clears all but the receive one |
| Refinement.NotedFlags | sja1000funcs.c:598 | and with bit 7 of its flags set exactly if the queue had overrun |
| Refinement.ReadAndPass | sja1000funcs.c:578-676 | from one look at the interrupt register to the next the steps add the messages, and leave the mark, that `Device.Dev.HandlePass` is proved to, bit by bit |
| Timers.Table.ScheduleDelayed | linux_2.6.c:138-160 | always starts a timer: the device's own; it is never out of timers, and no other device's timer is touched |
| Timers.Table.Fire | linux_2.6.c:129-136 | a device's timer does the work of that device |
| Timers.Table.TimersAreApart | linux_2.6.c:126-151 | no two devices have the same timer |
| Timers.SharedExactlyIfInterleaved | linux_2.6.c:143-151 | of any number of devices taking any turns, two end with one timer if and only if nobody has counted up between their first looks |
| Timers.TurnsKeepCounted | linux_2.6.c:143-151 | after any turns every counted entry is behind `idly`, so no later look finds it |
| Timers.TimerIsKeptExactlyUnlessCrowded | linux_2.6.c:157-159 | whatever the devices do next, a device keeps the timer it has started if and only if no other device has its entry |
| Timers.WaitIsExact | linux_2.6.c:159 | the timer is told the right number of nanoseconds exactly up to 2147483 microseconds |
| Timers.ElapsingIsExact | linux_2.6.c:159 | the timer runs out when it should exactly up to 2147483 microseconds where a `long` has 64 bits, and up to 4294967 where it has 32; a longer wait ends too early |
| Acceptance.Board.SetMask | sja1000funcs.c:254-284 | in reset the eight filter registers hold code and mask afterwards; outside reset they are untouched |
| Acceptance.Board.StoreSettings | ioctl.c:283 | the settings reach the filter exactly in reset |
| Acceptance.Board.SetReset | sja1000funcs.c:203-239 | after stopping the chip is in reset, after starting it is not; the other mode bits and the filter stay |
| Acceptance.Board.Config | ioctl.c:269-318 | target 0 sets mask and code from first and second value, 1 the mask, 2 the code, and no other target either; in reset the filter registers hold both afterwards, else they stay; -22 exactly for targets outside 0 to 4 |
| Acceptance.Board.ChipReset | sja1000funcs.c:115-161 | with a chip present it is in reset and in single filter mode (mode register 9), and its filter holds the settings; a missing one is noticed, with -1 and no change, exactly if the bit of the reset request reads as 0 |
| Acceptance.FilterHoldsLastSettings | ioctl.c:278-294 | after any sequence of settings made in reset, resets, stops and starts, filter and settings agree |
| Acceptance.MaskIsLastSet | ioctl.c:278-291 | after any operations the mask is the first value of the last one that set it |
| Acceptance.CodeIsLastSet | ioctl.c:278-294 | the code is the second value of the last operation that set both, or the first of the last that set it alone, whichever is later |
| Acceptance.ResetIsLastSwitch | sja1000funcs.c:203-239 | the chip is in reset if and only if the last of resets, stops and starts was no start |
| Acceptance.FilterHoldsWhatWasSet | ioctl.c:278-294 | when all settings are made in reset, the registers hold the last mask and code so set, or what they held when none was |
| Acceptance.SettingOutsideResetIsLost | ioctl.c:278-294 | exactly when a single operation leaves the filter out of step |
| Acceptance.ChipResetRestoresFilter | sja1000funcs.c:155 | a chip reset puts the filter in step again |
| Acceptance.HoldsAtMostOne | sja1000funcs.c:264-280 | the registers determine code and mask |
| Acceptance.ExtFilterIsExact | ioctl.c:85-96 | the documented code for extended frames passes exactly the extended frames of that identifier and type |
| Acceptance.StdFilterIsExact | ioctl.c:98-113 | the documented code for standard frames passes exactly the standard frames of that identifier and type, with the low 20 mask bits set |
| Acceptance.ExtSelectsExactly | ioctl.c:85-96 | for every mask: the documented code for extended frames selects exactly that identifier and type among them if and only if mask bits 2 to 31 are clear |
| Acceptance.StdSelectsExactly | ioctl.c:98-115 | for every mask: the documented code for standard frames selects exactly that identifier and type among them if and only if mask bits 20 to 31 are clear and, for data frames, bits 0 to 15 are set |
| Acceptance.StdCodeOnExtended | ioctl.c:98-113 | a code for standard frames passes exactly the extended frames whose first eleven identifier bits are that identifier and whose next bit is that type |
| Acceptance.ExtCodeOnStandard | ioctl.c:74-96 | a code for extended frames passes exactly the standard frames whose identifier, type and first two data bytes, if present, agree with its bits |
| Acceptance.SelectsMessages | sja1000funcs.c:414-430 | for a fixed code and the documented mask: exactly which messages pass, whatever the format in which they were sent |
| Acceptance.FormatIsNotCompared | ioctl.c:74-83 | whatever code and mask, a frame of each format passes, so no code selects one format alone |
| Acceptance.ZeroMaskComparesData | ioctl.c:114-115 | in particular with all mask bits clear a standard frame passes exactly if its first data bytes are zero |
| Traffic.Sender.UpdateSeq | examples/can_send.c:826-858 | the nine messages in memory go from one round of the intended stream to the next, also where identifiers start again |
| Traffic.Sender.constructor | examples/can_send.c:868-889 | the initialised array is the first round of the stream |
| Traffic.Sender.Renumber | examples/can_send.c:835-849 | the identifier loops compute the function that the stream is proved for |
| Traffic.Sender.Count | examples/can_send.c:852-857 | the data loop does too |
| Traffic.NextRound | examples/can_send.c:835-857 | the same for the functions that the loops compute |
| Traffic.Sender.SendRound | examples/can_send.c:896-924 | whatever each `write` takes, the round goes out complete and in order, or up to the error |
| Traffic.Sender.Test10 | examples/can_send.c:860-941 | the messages written are a prefix of the intended stream; exactly `soll` rounds of it when it finishes |
| Traffic.Verifier.VerifyMessage | examples/can_verify.c:48-118 | one message against the expected one: what is complained about, and what is expected next; what that means over streams with losses is stated in Monitor and Lengths |
| Traffic.Verifier.VerifyBatch | examples/can_verify.c:166-169 | the messages of one read, one after the other |
| Traffic.StreamIsAccepted | examples/can_verify.c:48-118 | any number of messages that show the intended stream cause no complaint, in both formats, across all wraps |
| Traffic.IdResynchronises | examples/can_verify.c:64-115 | after any gaps the next identifier is expected, and `errs` counts the gaps that are no multiple of the identifier cycle |
| Traffic.ErrsCountGaps | examples/can_verify.c:64-69 | `errs` is the number of gaps if and only if no gap swallowed a whole number of cycles |
| Monitor.ErrsCountComplaints | examples/can_verify.c:64-115 | for every stream of messages and error messages `errs` is exact: one for each error message, and one for each identifier that is not awaited, where 0 is awaited after an error message |
| Monitor.SilentExactly | examples/can_verify.c:48-118 | the monitor complains about nothing if and only if there is no error message and every message has the identifier, the length and the compared data that are due at its place |
| Monitor.PassingNeedsWholeCycles | examples/can_verify.c:64-69 | a loss that passes unseen is one of whole identifier cycles |
| Lengths.PlaceIsExact | examples/can_verify.c:70-108 | after any messages at all, those not reported for their length have taken the places in order: awaited length and round counter are those of the next place |
| Lengths.CountsAreExact | examples/can_verify.c:70-108 | whatever was lost, how many messages are reported for their length and for their data, from the numbers of the messages |
| Lengths.LengthsAfterGaps | examples/can_verify.c:70-108 | after any gaps g, each with enough messages behind it, (9 - g % 9) % 9 lengths have been reported for each and no more, the awaited length is that of the next message, and the monitor is behind by one round for each nine messages lost or part of nine |
| Lengths.MonitorAfterGaps | examples/can_verify.c:48-118 | the same of the monitor's own variables: lengths reported, awaited length, round counter |
| Lengths.DataAfterGaps | examples/can_verify.c:74-101 | from then on a message is reported for its data if and only if it has 1, 2, 4 or 8 bytes and the rounds behind do not vanish in that many |
| EndToEnd.ReadShowsWritten | write.c:80-93 | any states of two drivers, any loss between and in the controllers, the bytes as `sendcanmsg` stores and `readcanmsg` reads them: the frame messages read show what was written, in order |
| EndToEnd.CarriedIsWire | sja1000funcs.c:414-440 | a bus that carries over whatever frame is in the sender's registers carries over the frame that the message asks for |
| EndToEnd.SentIsAccepted | write.c:80-93 | what was handed to the controller is a prefix of what was accepted, but for delays and over-long lengths |
| EndToEnd.ReadShowsStream | read.c:33-39 | the frame messages read of the generator's stream show that stream, with the gaps of bus and resets |
| EndToEnd.DrainedHasReadAll | read.c:33-39 | once the receiving side is empty, every frame that no reset took from the FIFO has been read |
| EndToEnd.DrainedHasSentAll | write.c:80-93 | once the sending side is empty, every accepted message has been handed to the controller |
| EndToEnd.MonitorIsSilentExactly | examples/can_verify.c:146-173 | on everything that `read` returned, error messages included: the monitor complains about nothing if and only if no error message was read and every frame message passes for its place; `errs` is exact |
| EndToEnd.MonitorAcceptsGenerator | examples/can_verify.c:146-173 | so without loss and without error messages there is never a complaint, and the monitor expects the next message of the stream |
| EndToEnd.ErrorMessageIsReported | examples/can_verify.c:166-169 | at every bit rate, for both formats and all sizes of the queues, a run in which nothing is lost, an error message is read, and the monitor complains and expects a wrong length next |
| Swig.Relink | examples/canLtwo_wrap.c:123-131 | taking a node out and putting it in front loses exactly the nodes that its back pointer skips; if all back pointers but its own are right, they all are afterwards, the front one aside |
| Swig.TypeCheck | examples/canLtwo_wrap.c:114-137 | with sound back pointers the hit is in front, the others keep their order and no node is lost; a hit on a node with a stale one loses the nodes before it; without a hit nothing changes |
| Swig.TypeCheckStale | examples/canLtwo_wrap.c:114-137 | any sequence of lookups on a list with one stale back pointer: which names are left, in which order, and where the stale pointer is |
| LostTypes.NamesAreLostExactly | examples/canLtwo_wrap.c:114-137 | such a sequence loses names if and only if some lookup asks for the stale node before one has repaired its pointer; then exactly its own name and those behind it that were not looked up before are left |
| Swig.TypeCheckAll | examples/canLtwo_wrap.c:114-137 | the same after any sequence of lookups on one list |
| Swig.LookUpsRearrange | examples/canLtwo_wrap.c:123-131 | after any lookups: the same names, the last hit in front, names never asked for in the order of registration |
| Swig.Registry.TypeRegister | examples/canLtwo_wrap.c:76-111 | for any table: its nodes are linked behind the registered head of that name, or behind a new head in front of the others, and go on with the list that was there |
| Swig.Registry.FindHead | examples/canLtwo_wrap.c:81-90 | a registered head of that name, or none exactly if there is none |
| Swig.LinkUp | examples/canLtwo_wrap.c:99-109 | the loop links a table of any length both ways, and goes on with the given node |
| Swig.LinkedExactlyIfNotJoined | examples/canLtwo_wrap.c:81-109 | a list is linked both ways after a registration if and only if nothing was added or the list was empty before: otherwise a back pointer goes stale |
| Swig.LookUpAfterRegistration | examples/canLtwo_wrap.c:76-137 | after registering a type again with more names, looking up the name that was first in its list loses all the names that were added |
| Swig.RegisterTwice | examples/canLtwo_wrap.c:76-111 | the same table registered twice makes a circular list |
| Swig.CircularNeverEnds | examples/canLtwo_wrap.c:120-135 | on which the search never comes to an end by itself |
| PointerText.MakePtr | examples/canLtwo_wrap.c:256-276 | the text of a pointer, within its 24-byte buffer |
| PointerText.WrittenText | examples/canLtwo_wrap.c:256-276 | an underscore, the numeral of at most sixteen digits and without leading zero that has the value, and the name; "NULL" for a null pointer |
| PointerText.StoreDigits | examples/canLtwo_wrap.c:264-268 | the digits come out in reverse, at most sixteen of them |
| PointerText.CopyBack | examples/canLtwo_wrap.c:269-271 | and are put right behind the underscore |
| PointerText.ReadHex | examples/canLtwo_wrap.c:207-215 | value and length of the leading digits |
| PointerText.ConvertPtrFromString | examples/canLtwo_wrap.c:191-227 | result and value for any text and any type list, with converters applied; which texts these are is stated next |
| PointerText.AcceptedExactly | examples/canLtwo_wrap.c:199-221 | accepted are "NULL" and the texts of an underscore, digits and a name that starts with no digit, which is in the list whenever a type is asked for, and no others; without the underscore the pointer is null |
| PointerText.AcceptedValue | examples/canLtwo_wrap.c:207-224 | the pointer is the value of the digits, or what the converter of the first entry with that name makes of it |
| PointerText.DigitsAreHexadecimal | examples/canLtwo_wrap.c:207-257 | the digits are 0 to 9 and a to f, with these values |
| PointerText.PointerTypeFromString | examples/canLtwo_wrap.c:239-253 | what follows the leading digits |
| PointerText.TypeFoundExactly | examples/canLtwo_wrap.c:239-253 | a type is found exactly in the texts with the underscore: the name behind the digits |
| PointerText.PointerSurvives | examples/canLtwo_wrap.c:191-276 | every 64-bit value, and every type whose name starts with no hexadecimal digit, survive being written and read; a converter is applied to the value |
| PointerText.PointerReadsAs | examples/canLtwo_wrap.c:191-276 | for every name: what is read back, where digits at its start count as digits of the value |
| PointerText.PointerSurvivesExactly | examples/canLtwo_wrap.c:191-276 | without converters, a pointer is read back if and only if it is null, or, for `k` digits of value `v` at the start of the name, `p * (16^k - 1) + v` is 0 in 64 bits and the rest of the name is a type asked for |
| PointerText.TypeSurvivesExactly | examples/canLtwo_wrap.c:239-253 | the type name is read back if and only if it starts with no hexadecimal digit |

## Left out

- Weak memory orderings: steps of module Driver are sequentially consistent, and a test such as
  `qlen(q) <= qsize(q)/2` reads each counter once, in one step.
- Several processes writing or reading one device, and STOP or RESET while frames are under way.
- `open`, `close`, use counts, `sysctl`, interrupt and region requests, PCI scan and vendor reset: early
  returns and hardware plumbing. Reopening is covered as far as the queue counters go.
- Bit timing and output control (`CAN_SetTiming`, `CAN_SetOMode`): finite tables.
- The software filter and RTR response of `util.c`: never consulted by the interrupt handler.
- The address checks of `can_write` and `can_read` (`access_ok`) and copying from and to the process.
- Negative `length` and zero `Baud`: `sendcanmsg` does not handle them, so they are preconditions.
- Register writes of `sendcanmsg` during a bus-off reset, which hit the filter registers: module Driver
  counts the frame as lost, module Sja1000 leaves the filter contents open.
- Interrupt and status register as bits: `Sja1000.Chip` has a named condition for each bit that the driver uses.
- Address arithmetic of port, indexed and memory access (`io.h`): registers are reached by byte offset.
- DLC 9 to 15 on the wire: such a frame carries 8 bytes, and `reg %= 9` copies fewer; frames of module Codec
  have lengths up to 8, and for longer codes only `Configured.SeenIsDecoded` and the array bounds are proved.
- The data overrun status is a free choice at each handler step of module Driver; Device.Dev tracks it.
- A shared timer that runs out while both devices start it, and two counts of `idly` at once that give one:
  of several devices at the timer table only the order of looks, counts and starts is modelled.
- `errs` of `can_verify` is unbounded here; its C `int` would overflow after 2147483647 complaints.
- The output mode of `test10` to standard output, where byte counts are used as message indices.
- `SWIG_TypeQuery`.
- Other examples, Tcl wrappers, debug output, `linux_2.4.c`, `trm816`.
