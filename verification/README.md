# Verified model of the host-bus transport, memory and device engines

This project models, in Dafny, the part of the system that moves data between a host,
a RISC-V target and its peripherals, and proves what that part is relied on for.

**Host-bus transport.** Packets are printed and parsed one byte at a time
(`Packets.dfy`). `HostBusHandler.dfy` states each operation of the handler on an abstract
state and proves the class, with its receive state machine and its buffers, against it;
`HandlerLaws.dfy` says what each operation accepts, refuses and changes without using
those step functions. `HandlerRuns.dfy` proves what holds over every sequence of calls,
`LinkedHandlers.dfy` what holds between two handlers joined by byte links under every
interleaving, and `Staging.dfy` adds the 64-byte buffers in front of the serial port.
`CpuRequests.dfy` serves the requests of the target.

**Host requests.** `BusTypes.dfy` holds the region rules, `Memory.dfy` the sparse byte
memory, `SystemBus.dfy` the routing, `DirectBurst.dfy` the two beat loops for requests
outside the RTL half, `BurstEffects.dfy` what such a burst does to other devices and to a
single address, and `RegionTransfer.dfy` the planner that cuts a memory region into
bursts, halfwords and bytes. `PendingSlot.dfy` is the hand-off between the caller and the
simulator's worker thread as a state machine over the steps of both.

**Clocked devices.** `Dma.dfy` copies one byte per clock cycle, `Video.dfy` and
`Audio.dfy` read in the chunks of `ChunkedReads.dfy`; `Clocked.dfy` holds their events.

**Around them.** `AudioQueue.dfy` (bounded chunk queue and recording backend),
`HungDetector.dfy` (verdict on a trace), `VcdQueries.dfy` with `VcdLaws.dfy` (waveform
queries and what they mean), and `Instructions.dfy` with `InstructionLaws.dfy`
(instruction encoders and the trace decoder, against each other and against the fixed bits
of each instruction).

How the model is built:

- State that the source updates in place is a class whose methods are proved against step
  functions on values; the laws are lemmas about those functions and their runs.
- A 32-bit register is a bounded integer, and every wrap-around, truncation and checked
  addition is written out. Instruction words are 32-bit vectors.
- A callback becomes a recorded sequence (`presented`, `delivered`, `configured`).
- What the environment decides is an argument: bytes that the port delivers or takes,
  elapsed time, whether a timeout has expired, responses of the target, other events
  polled in between, and the answers of devices other than DRAM (a function of all
  accesses before).

Where a promise does not hold of the code, the project says so:

- A packet's final byte can be absorbed and still be refused, and is then offered again.
  The intended packet is delivered if and only if it has no payload
  (`HandlerRuns.OfferedAgain`, `HandlerRuns.CorruptedPayload`). So a stream arrives intact
  if and only if the request slot is free at the final byte of each request with payload
  (`HandlerRuns.StreamDelivered`, `Staging.ChunkingIsInvisible`).
- A buffered response need not belong to the outstanding request: one that nobody asked
  for is kept (`HandlerRuns.UnaskedResponseIsKept`). `HandlerRuns.ResponsesMatch` says
  exactly which packets may arrive when.
- After a timeout a late response can complete the next request
  (`PendingSlots.ResponseStaysBehind`, `PendingSlots.StaleResponse`). Indeed no completion
  after the first timeout is ever the right one (`PendingSlots.FirstTimeoutDecides`).
- A caller that sends again before dequeuing a completion can find the slot full when it
  dequeues it (`PendingSlots.DequeuedWhileFull`); one that dequeues the completion of its
  last request never does (`PendingSlots.DequeuedLast`).
- A wait loop skips a response of the wrong kind or size and then never ends
  (`RegionTransfer.AwaitFinds`).
- A runtime answers a request of the target with one beat. The answer is taken if and only
  if the request is a write or has one beat (`CpuRequests.ReplyTaken`); a longer read is
  never completed (`CpuRequests.BurstReadNeverAnswered`; the simulator panics there), and
  of a longer write only the first beat is stored (`CpuRequests.FirstBeatStored`).
- After an audio configuration with a threshold of zero the buffer is not ready until a
  batch has been completed (`Audios.RoomAgain`).
- The trace decoder tells system instructions apart by one bit
  (`Instructions.SystemByParity`), and leaves some fixed bits unread
  (`InstructionLaws.DecoderExact`).
- A comment on the video device says that it reads one byte per cycle and is triggered by
  writing zero. The code reads up to four bytes per cycle and any write triggers it; the
  model follows the code.

## Model

| member | source | states |
|---|---|---|
| Packets.DecodeEncode | bus-shared/src/host_bus_handler.rs:737-758 | a legal packet of any kind prints to exactly one packet, which decodes to itself |
| Packets.WireFormat | bus-shared/src/host_bus_handler.rs:737-758 | the printed packet byte by byte: kind, size code and flags, direction, beats less one and address with the least byte first, then the payload, which requests have when they write and responses when they read |
| Packets.EncodeDecode | bus-shared/src/host_bus_handler.rs:657-678 | decoding a packet's bytes and printing again gives the very same bytes |
| Packets.CutIsPartial | bus-shared/src/host_bus_handler.rs:401-483 | a packet cut before its end is an unfinished packet, never a shorter whole one |
| Packets.ParseAfterPrint | bus-shared/src/host_bus_handler.rs:401-483 | any mix of printed legal packets and ignorable bytes is split back into exactly those items, with nothing left over |
| Packets.PrintAfterParse | bus-shared/src/host_bus_handler.rs:401-483 | on any byte stream, the parsed items and the unfinished rest print back to every byte |
| Packets.ParsedItemsWellFormed | bus-shared/src/host_bus_handler.rs:406-480 | whatever is parsed is something a sender may legally send |
| Packets.ParseContinues | bus-shared/src/host_bus_handler.rs:406-480 | parsing a longer stream continues from the unfinished rest alone, so the cut into chunks cannot matter |
| HostBusHandlers.HostBusHandler.TransferRxByte | bus-shared/src/host_bus_handler.rs:401-483 | the state machine with its accumulators does what the packet under way calls for, including absorbed but refused final bytes; no payload is kept outside the payload state, and inside it collected and remaining bytes are the expected length |
| HostBusHandlers.HostBusHandler.FinalizeRxPacket | bus-shared/src/host_bus_handler.rs:657-734 | a finished packet lands with every field, its first four payload bytes as the scalar, in the slot for its kind, or is refused when that slot is taken; a type-3 response that does not fit is dropped |
| HostBusHandlers.HostBusHandler.TransferTxByte | bus-shared/src/host_bus_handler.rs:486-502 | hands out the next byte of the packet being sent, or begins the next packet |
| HostBusHandlers.HostBusHandler.StartTxPacket | bus-shared/src/host_bus_handler.rs:619-655 | a ready response is begun first, then a request not yet begun |
| HostBusHandlers.HostBusHandler.HasTxData | bus-shared/src/host_bus_handler.rs:504-511 | true exactly when the next transmit call yields a byte |
| HostBusHandlers.HostBusHandler.SendRequest | bus-shared/src/host_bus_handler.rs:514-536 | one outstanding request; burst length, payload length and region are validated in that order |
| HostBusHandlers.HostBusHandler.ReceiveResponse | bus-shared/src/host_bus_handler.rs:539-552 | a buffered response is returned only against an outstanding or accepted request, and frees the request |
| HostBusHandlers.HostBusHandler.AcceptRequest | bus-shared/src/host_bus_handler.rs:555-569 | hands over the buffered request once, and not before the previous one is completed |
| HostBusHandlers.HostBusHandler.CompleteRequest | bus-shared/src/host_bus_handler.rs:572-605 | a response is taken only if, with missing metadata filled in, it echoes the accepted request and carries exactly its data; the pending response then has the data and scalar given, under the address, length and flags of the request |
| HostBusHandlers.HostBusHandler.Reset | bus-shared/src/host_bus_handler.rs:388-391 | back to the initial state |
| HandlerSpec.RxByteSound | bus-shared/src/host_bus_handler.rs:401-483 | every received byte keeps the handler sound: a pending response always belongs to an accepted request it echoes with exact payload length |
| HandlerSpec.ScalarOfPayload | bus-shared/src/host_bus_handler.rs:657-734 | the scalar of a received request, and of a response to a read, has the first four payload bytes as its little-endian bytes, missing ones zero; a response to a write has none |
| HandlerSpec.NextPacketLegal | bus-shared/src/host_bus_handler.rs:619-655 | whatever is sent next is a legal packet |
| HandlerLaws.CompleteExact | bus-shared/src/host_bus_handler.rs:572-605 | exactly which responses are taken, with which error the others are refused, and every field of what is kept |
| HandlerLaws.SendExact | bus-shared/src/host_bus_handler.rs:514-536 | exactly which requests are queued: none outstanding, 1 to 65536 beats, exact payload, all bytes in the lower half; the first that fails names the error |
| HandlerLaws.RefusalExact | bus-shared/src/host_bus_handler.rs:393-483 | exactly which bytes are answered with BufferFull: the first of a packet when both slots are full, and the last of one whose own slot is taken |
| HandlerLaws.SkippedExact | bus-shared/src/host_bus_handler.rs:406-424 | between packets exactly the bytes of unknown kind or size are dropped; a second byte above 1 undoes the opening |
| HandlerLaws.DeliverExact | bus-shared/src/host_bus_handler.rs:657-734 | the slot, every field and the scalar of a received packet, and exactly when it is refused or dropped |
| HandlerRuns.HandlerParsesItsStream | bus-shared/src/host_bus_handler.rs:401-569 | over every run in which refused bytes are offered again, the handler holds the bytes the parser could not finish and has delivered one request for each that the parser found; they differ exactly if a request with payload was overdue |
| HandlerRuns.StreamDelivered | bus-shared/src/host_bus_handler.rs:401-569 | when any mix of printed packets and ignorable bytes has arrived, exactly its requests are delivered, in order, with the fields, the payload and the leading payload bytes as scalar of their packets, if and only if the request slot was free at the final byte of each request with payload |
| HandlerRuns.RequestSurvivesPacket | bus-shared/src/host_bus_handler.rs:737-776 | a request printed as type 0 or 2 arrives unchanged, but that its scalar is made of the first four payload bytes |
| HandlerRuns.OfferedAgain | bus-shared/src/host_bus_handler.rs:469-483 | a final byte refused any number of times: the next offer yields the intended packet if and only if it was never refused or the packet has no payload |
| HandlerRuns.CorruptedPayload | device-runtime/src/fpga.rs:618-628 | a run from the initial state, for any two requests, in which the second one is delivered with its last payload byte twice |
| HandlerRuns.TransmitStream | bus-shared/src/host_bus_handler.rs:486-655 | over all runs the bytes sent are whole legal packets that never interleave; responses answer accepted requests one by one, and each request goes out at most once, in order |
| HandlerRuns.ResponseGoesFirst | bus-shared/src/host_bus_handler.rs:619-655 | at a packet boundary a ready response precedes a waiting request, which keeps its place |
| HandlerRuns.RxKeepsFit | bus-shared/src/host_bus_handler.rs:679-728 | one received byte keeps the response slot right if and only if the packet it finishes, if any, may enter it: outstanding request repeated with no payload byte counted twice, or type 3 and dropped |
| HandlerRuns.ResponsesMatch | bus-shared/src/host_bus_handler.rs:679-728 | over every run, a buffered response matches the outstanding request in all metadata and data length at every moment if and only if every packet that found the response slot free was such a packet when its final byte arrived |
| HandlerRuns.UnaskedResponseIsKept | bus-shared/src/host_bus_handler.rs:539-552 | a run from the initial state that breaks the match: any response packet that arrives first is kept and answers whatever is sent later |
| LinkedHandlers.LinkDelivers | bus-shared/src/host_bus_handler.rs:401-734 | over every interleaving on both sides, requests arrive unchanged and in order, each reply answers its request, and the asking side fetches for each exactly the data that the user of the far side gave |
| LinkedHandlers.NeverRefused | bus-shared/src/host_bus_handler.rs:393-404 | between two linked handlers no byte is ever refused |
| LinkedHandlers.NothingLost | bus-shared/src/host_bus_handler.rs:486-605 | once links and slots are drained, every request asked has been answered and fetched |
| CpuRequests.ProcessCpuRequest | device-runtime/src/fpga.rs:681-725 | a request of the target makes one bus access at its address with its scalar, and is answered with a single-beat response |
| CpuRequests.ReplyTaken | device-runtime/src/fpga.rs:681-725 | that response is taken if and only if the request is a write or has one beat, and then goes back with the bytes read under the metadata of the request |
| CpuRequests.BurstReadNeverAnswered | device-runtime/src/fpga.rs:681-725 | over all calls a read of more than one beat stays accepted: no response is sent for it and no later request of the target is handed over |
| CpuRequests.FirstBeatStored | device-runtime/src/fpga.rs:690-694 | of a received write to DRAM exactly the first beat is stored |
| Staging.StagingBuffers.FillRxBuffer | device-runtime/src/fpga.rs:587-611 | delivered bytes are appended to the staged ones, no more than fit |
| Staging.StagingBuffers.DrainRxBufferToHandler | device-runtime/src/fpga.rs:613-634 | staged bytes are fed until one is refused; exactly the bytes not taken stay, moved to the front |
| Staging.StagingBuffers.FillTxBufferFromHandler | device-runtime/src/fpga.rs:637-650 | bytes are pulled until the buffer is full or the handler has none |
| Staging.StagingBuffers.DrainTxBuffer | device-runtime/src/fpga.rs:653-678 | what the port did not take stays, in order |
| Staging.DrainExhausts | device-runtime/src/fpga.rs:613-634 | draining stops only for want of bytes or at a byte that the handler refuses, and would refuse again |
| Staging.PullExhausts | device-runtime/src/fpga.rs:637-650 | pulling stops only for want of room or when the handler has nothing more to send |
| Staging.ChunkingIsInvisible | device-runtime/src/fpga.rs:587-678 | however the port cuts the stream and whenever buffers are drained, the requests handed over are exactly those of the stream if and only if the request slot was free whenever a drain reached the final byte of a request with payload; what goes out is whole packets |
| BusTypes.BeatStaysInSpan | bus-shared/src/host_bus_handler.rs:264-279 | whenever a request has an end address, no beat address overflows or passes it |
| BusTypes.RouteKeepsHalf | device-runtime/src/lib.rs:259-269 | a routed request keeps every beat in the half of the address space its route serves |
| BusTypes.RouteExact | device-runtime/src/lib.rs:259-269 | the route in plain arithmetic on address, width, beats and fixed flags, both ways for each of the three routes |
| BusTypes.ConstructorsExact | bus-shared/src/host_bus_handler.rs:77-149 | every field of single and burst reads and writes, the scalar of a burst being its first beat |
| Memories.LoadAfterStore | bus-shared/src/memory.rs:22-63 | bytes stored at any address, wrapping at 2^32, are loaded back |
| Memories.StoredByte | bus-shared/src/memory.rs:43-63 | each stored byte is found at its address |
| Memories.Untouched | bus-shared/src/memory.rs:43-63 | every other address keeps its byte |
| Memories.Memory.WriteWord | bus-shared/src/memory.rs:43-52 | a word write is the store of its four little-endian bytes |
| Memories.Memory.WriteHalfword | bus-shared/src/memory.rs:59-63 | a halfword write is the store of its two little-endian bytes |
| Memories.AlignedIsBytewise | riscv_shared/src/bus.rs:320-338 | an aligned access sees what single-byte accesses see, also at the edges of DRAM and outside it |
| Memories.DramRangeExact | riscv_shared/src/bus.rs:306-338 | the valid ranges are the non-empty ones inside the 256 MiB from 0x8000_0000 |
| Memories.CheckedExact | bus-shared/src/bus_device.rs:48-95 | a device reads the bytes at its addresses when all of them are in DRAM, and zeros otherwise |
| Memories.CheckedStoreExact | bus-shared/src/bus_device.rs:102-155 | a device writes byte by byte when all its bytes are in DRAM, and not at all otherwise |
| Memories.SystemContext.WriteWord | bus-shared/src/bus_device.rs:102-115 | a write reaches memory exactly when all its bytes are in DRAM, else it is dropped |
| SystemBuses.SystemBus.RegisterDevice | bus-shared/src/bus.rs:96-154 | a device gets its range exactly when size and base are legal and no range overlaps; each error is reported as such and changes nothing |
| SystemBuses.FindDeviceFinds | bus-shared/src/bus.rs:175-183 | in a sound map the search finds the one covering entry, wherever it stands |
| SystemBuses.FindDeviceMisses | bus-shared/src/bus.rs:175-183 | an address that no entry covers belongs to no device |
| SystemBuses.DramIsRouted | bus-shared/src/bus.rs:51-78 | every DRAM address is routed to DRAM, whatever has been registered |
| SystemBuses.RegistrationRoutes | bus-shared/src/bus.rs:96-154 | registering a device routes its range to it and moves no other address |
| SystemBuses.OverlapExact | bus-shared/src/bus_device.rs:484-486 | two ranges overlap if and only if they share an address |
| SystemBuses.ControlIsRouted | bus-shared/src/bus.rs:51-78 | the word at 0xF000_0000 is the simulation control, whatever has been registered |
| SystemBuses.DeviceWrite | bus-shared/src/bus.rs:227-260 | a write in the range of a device other than DRAM reaches it once, with the offset into its range and the value cut to the width, and changes nothing else |
| SystemBuses.DeviceRead | bus-shared/src/bus.rs:189-222 | a read there reaches it once and gives its answer cut to the width, or zero when it reports an error |
| SystemBuses.UnmappedAccess | bus-shared/src/bus.rs:189-260 | at an address of no device nothing changes and a read gives zero |
| SystemBuses.DramWrite | bus-shared/src/bus.rs:227-260 | a write in DRAM stores the low bytes of its value, least first, or nothing when it runs past the end |
| SystemBuses.DramRead | bus-shared/src/bus.rs:189-222 | a read in DRAM gives its bytes as a zero-extended value, or zero when it runs past the end |
| SystemBuses.SystemBus.Read | bus-shared/src/bus.rs:189-222 | a read goes to the covering device; errors and unmapped addresses of the upper half read as zero |
| SystemBuses.SystemBus.Write | bus-shared/src/bus.rs:227-260 | a write goes to the covering device, truncated to its width, or is dropped |
| DirectBurst.ProcessSystemBusRequest | device-runtime/src/fpga.rs:728-790 | the beat loop makes the specified bus accesses in order and reports the bytes read; neither its range expectations nor the bus panic can fire |
| DirectBurst.SendDirectRequest | device-runtime/src/sim/sim_core.rs:389-457 | the simulator's loop makes the same accesses and keeps the same bytes |
| DirectBurst.RuntimesAgree | device-runtime/src/sim.rs:239-262 | the event built from the simulator's response is the one the FPGA runtime reports |
| DirectBurst.EventExact | device-runtime/src/fpga.rs:728-790 | a write completion repeats address, scalar and size of its request; a read completion has all bytes read, and those of the first beat as its scalar |
| DirectBurst.DramBurstWrite | device-runtime/src/fpga.rs:728-757 | an incrementing write burst inside DRAM is one bytewise store of its payload and changes nothing else |
| DirectBurst.DramBurstRead | device-runtime/src/fpga.rs:758-790 | an incrementing read burst inside DRAM collects the bytes of its range and changes nothing |
| DirectBurst.BurstRoundTrip | device-runtime/src/fpga.rs:728-790 | reading a burst just written returns its payload |
| BurstEffects.DeviceBurstWrite | device-runtime/src/fpga.rs:728-757 | a write burst to another device reaches it once a beat, in order, at the address of the beat, with its bytes of the payload; without them, with the scalar first and then zero |
| BurstEffects.DeviceBurstRead | device-runtime/src/fpga.rs:758-790 | a read burst from another device reaches it once a beat, in order, and collects the low bytes of each answer |
| BurstEffects.FixedBurstWrite | device-runtime/src/fpga.rs:728-757 | a write burst to one DRAM address leaves its last beat there and touches nothing else |
| BurstEffects.FixedBurstRead | device-runtime/src/fpga.rs:758-790 | a read burst from one DRAM address repeats its bytes once a beat and changes nothing |
| RegionTransfer.PlanTiles | device-runtime/src/lib.rs:437-485 | the planned requests tile the region in increasing order, without gap, overlap or outside byte, each aligned and of legal burst length |
| RegionTransfer.PlanCount | device-runtime/src/lib.rs:437-485 | at most ceil(len / 262144) + 4 requests |
| RegionTransfer.NoneRefused | bus-shared/src/host_bus_handler.rs:514-536 | in a region within one half of the address space no request is refused by range, burst or payload validation |
| RegionTransfer.RegionWriteIsStore | device-runtime/src/lib.rs:406-541 | writing a DRAM region is one bytewise store of its data; every other address, the map and all devices are unchanged, and no completion is discarded |
| RegionTransfer.RegionRoundTrip | device-runtime/src/lib.rs:406-678 | reading the region back returns the bytes written |
| RegionTransfer.DeviceRuntime.WriteMemoryRegion | device-runtime/src/lib.rs:406-541 | for every region: over-long and overflowing ones are refused without effect, all others carry out exactly the plan up to the first error, wait loops and callback included, and have exactly the effect of its requests |
| RegionTransfer.UpperWrite | device-runtime/src/lib.rs:437-541 | in the upper half writing cannot fail and never asks the RTL half |
| RegionTransfer.UpperRead | device-runtime/src/lib.rs:582-678 | in the upper half reading cannot fail, and the bytes of bursts, halfwords and bytes are put together without loss |
| RegionTransfer.LowerWrite | device-runtime/src/lib.rs:437-541 | in the RTL half the bus is untouched; the target is asked to write the planned pieces in order, each with its own bytes and its first beat as scalar, and writing stops only at a request that is not answered or answered in another kind or size |
| RegionTransfer.LowerRead | device-runtime/src/lib.rs:582-678 | so is it for reading, which stops also at a burst of another length; on success the region is made of the answers to the planned pieces, each in its place |
| RegionTransfer.AwaitCompletion | device-runtime/src/lib.rs:455-485 | the wait loop stops at the first poll that matches while the slot is empty or that reports a timeout of its address, and passes on all other events |
| RegionTransfer.AwaitFinds | device-runtime/src/lib.rs:455-485 | with other events before it, the loop ends at the completion and passes on exactly the others; a completion of another kind or size is passed on too, and the loop never ends |
| RegionTransfer.DeviceRuntime.ReadMemoryRegion | device-runtime/src/lib.rs:551-678 | the same for reading: exactly the plan is issued up to the first error, and the bytes of its responses are returned in order; a burst of the wrong length is an error |
| PendingSlots.OneCompletionPerFilling | device-runtime/src/sim.rs:176-306 | over every interleaving each filling of the slot gets at most one completion, in order and with its address, and an empty slot none; the unlocked slot is full exactly when a completion is due |
| PendingSlots.SecondSendRefused | device-runtime/src/sim.rs:275-292 | a second request while the slot is full is refused and changes nothing |
| PendingSlots.FirstSendFills | device-runtime/src/sim.rs:275-306 | with the slot empty, a request within one half of the address space fills it, any other is refused and changes nothing |
| PendingSlots.TimeoutReported | device-runtime/src/sim.rs:216-231 | a timeout noticed while the slot is full empties it and is reported under the address that filled it |
| PendingSlots.RefusalReported | device-runtime/src/sim.rs:179-196 | so is a request that the simulator cannot take |
| PendingSlots.CompletionFollows | device-runtime/src/sim.rs:234-263 | once the bytes or the response for the request have been found, the next look for responses reports them and empties the slot |
| PendingSlots.GuardNeverDiscards | device-runtime/src/lib.rs:455-465 | a caller that dequeues every completion before it sends again finds the slot empty after each, so the wait loops' guard discards nothing |
| PendingSlots.DequeuedLast | device-runtime/src/sim.rs:308-327 | dequeuing the completion of the last filling leaves the unlocked slot empty |
| PendingSlots.DequeuedWhileFull | device-runtime/src/sim.rs:275-327 | a run, for any two requests, of a caller that sends again before dequeuing what is due: it dequeues while the slot is full |
| PendingSlots.ResponsesBelong | device-runtime/src/sim.rs:234-263 | without timeouts, refusals and unasked responses every completion is that of the request that filled the slot: its address and size, and exactly the bytes its direct access found or the scalar and data its target answered |
| PendingSlots.FirstTimeoutDecides | device-runtime/src/sim.rs:176-266 | over every interleaving with acceptable requests and solicited replies, timeouts allowed: a completion is that of the request that filled the slot, with exactly what was found for it, if and only if neither it nor any completion before it is a timeout |
| PendingSlots.InitialState | device-runtime/src/sim.rs:90-92 | the initial state meets the premises of these laws |
| PendingSlots.ResponseStaysBehind | device-runtime/src/sim.rs:216-231 | after a timeout of a direct request its response stays in the simulator |
| PendingSlots.StaleResponse | device-runtime/src/sim.rs:234-263 | a run from the initial state, for any two requests, in which that response is reported as the completion of the next request |
| Dmas.Dma.TransferOneByte | bus-shared/src/dma.rs:95-118 | one byte moves from the latched source to the latched destination, both advance with wrap-around, and the last byte ends the transfer |
| Dmas.Dma.WriteWord | bus-shared/src/dma.rs:145-175 | register writes touch their register only; a dispatch latches address and size when idle and is ignored when busy |
| Dmas.Dma.ReadWord | bus-shared/src/dma.rs:128-143 | each register reads back, the busy bit tells whether a transfer is active |
| Dmas.RegistersHold | bus-shared/src/dma.rs:128-175 | a configuration register holds what was written to it last, even during a transfer, and shares nothing with the others |
| Dmas.InterfaceExact | bus-shared/src/dma.rs:128-175 | every offset for reading and writing: what it holds, the busy bit, which accesses are errors and which |
| Dmas.TransferInFlight | bus-shared/src/dma.rs:66-118 | under any register writes and dispatches, after k clock cycles memory holds k steps of the copy from the latched addresses, and busy clears exactly with the last byte |
| Dmas.DispatchLatches | bus-shared/src/dma.rs:66-92 | a transfer uses the register values at its dispatch, and the status register reads busy exactly until its last byte |
| Dmas.IdleKeepsMemory | bus-shared/src/dma.rs:95-101 | without a dispatch memory does not change |
| Dmas.CopyEffect | bus-shared/src/dma.rs:95-118 | closed form of the copy for ranges that do not wrap, overlapping or not, inside DRAM or not |
| Dmas.ExactCopy | bus-shared/src/dma.rs:95-118 | inside DRAM, copying downwards or between separate ranges is exact and changes nothing else |
| Dmas.RepeatingCopy | bus-shared/src/dma.rs:95-118 | copying upwards into the own source repeats the bytes between the two start addresses |
| ChunkedReads.ReadMemoryChunk | bus-shared/src/bus_device.rs:198-218 | a chunk is exactly the bytes of single-byte reads, zero-padded to four |
| ChunkedReads.FetchKeepsTotal | bus-shared/src/bus_device.rs:170-218 | collected bytes and bytes still to be read always make up the same total |
| ChunkedReads.CycleBound | bus-shared/src/bus_device.rs:170-182 | reading n bytes from any address takes at least ceil(n / 4) and at most two more cycles |
| Videos.Video.PresentChunk | bus-shared/src/video.rs:157-203 | one chunk per cycle; the last one hands over the frame and records the time |
| Videos.RegistersHold | bus-shared/src/video.rs:209-262 | the same for the video registers |
| Videos.ConfigExact | riscv_shared/src/video.rs:75-124 | the configuration register: width and height less one in twelve bits each, the four format codes, and the bytes of a frame; any other code is no configuration |
| Videos.InterfaceExact | bus-shared/src/video.rs:209-262 | every offset for reading and writing: what it holds, the two status bits, which accesses are errors and which |
| Videos.NothingStarted | bus-shared/src/video.rs:121-154 | a present while another is in progress, or with an unknown format code, starts nothing |
| Videos.Video.IsFrameReady | bus-shared/src/video.rs:106-118 | a frame is due when none has been shown, or when the microseconds since the last, plus one, times the rate exceed a million |
| Videos.PresentInFlight | bus-shared/src/video.rs:157-203 | under any register writes nothing is handed over early, and the last cycle hands over exactly the bytes of single-byte reads, once |
| Videos.PresentShowsFrame | bus-shared/src/video.rs:121-203 | a present from idle shows the whole frame within ceil(n / 4) + 2 cycles: as many bytes as the width, height and format in the register call for, each as a single-byte read finds it, with that configuration |
| Videos.IdleShowsNothing | bus-shared/src/video.rs:157-161 | from idle nothing is handed over until a present is triggered |
| Audios.Audio.ParseSamples | bus-shared/src/audio.rs:242-275 | the nested loops decode the whole batch; of a complete batch no sample is skipped |
| Audios.DecodeIsComplete | bus-shared/src/audio.rs:258-275 | the bytes of each decoded sample are the bytes it came from |
| Audios.RegistersHold | bus-shared/src/audio.rs:341-395 | the same for the audio registers |
| Audios.ConfigExact | riscv_shared/src/audio.rs:105-165 | the configuration register: rate code, channel bit and samples less one, and the bytes of a batch; the fourth rate code is no configuration |
| Audios.InterfaceExact | bus-shared/src/audio.rs:304-395 | every offset for reading and writing: what it holds, the two status bits, the new window and the callback of a configuration write, which accesses are errors and which |
| Audios.NothingStarted | bus-shared/src/audio.rs:152-205 | a trigger while a transfer is in progress, or with the unused rate code, starts nothing |
| Audios.ReadyExact | bus-shared/src/audio.rs:125-149 | exactly when SAMPLE_BUFFER_READY is set |
| Audios.BatchInFlight | bus-shared/src/audio.rs:208-230 | under any register writes the batch handed over is the decoding of exactly the bytes of single-byte reads, once |
| Audios.TriggerDeliversBatch | bus-shared/src/audio.rs:152-302 | a trigger from idle delivers one complete batch, of as many values as the register asks for, within ceil(n / 4) + 2 cycles |
| Audios.IdleDeliversNothing | bus-shared/src/audio.rs:208-212 | from idle nothing is handed over until a transfer is triggered |
| Audios.FlowStep | bus-shared/src/audio.rs:125-149 | one event keeps the window invariant |
| Audios.FlowControl | bus-shared/src/audio.rs:125-320 | with monotone time and triggers only while SAMPLE_BUFFER_READY, for every threshold: the window counter is, in 32-bit arithmetic, the samples completed since the window opened, all within one second, exactly so if the threshold leaves room for one batch, and never exceeds threshold + 65536 |
| Audios.NewDeviceFlows | bus-shared/src/audio.rs:96-111 | a new device meets the premise of that law |
| Audios.RoomAgain | bus-shared/src/audio.rs:125-149 | a second after the last event there is room again, unless no batch has been completed since the configuration was written and its threshold is zero |
| Audios.ReplayWatches | bus-shared/src/audio.rs:208-320 | the history used for flow control only observes the device |
| AudioQueues.SharedAudioBuffer.PushSamples | sim-view/src/shared_buffers.rs:143-165 | samples go to the back with the current configuration; a queue of 100 chunks gives up exactly its oldest; empty pushes change nothing |
| AudioQueues.SharedAudioBuffer.PullSamples | sim-view/src/shared_buffers.rs:177-199 | exactly the oldest min(max, buffered) samples leave, in order; the chunks that stay keep their configuration |
| AudioQueues.SharedAudioBuffer.SampleCount | sim-view/src/shared_buffers.rs:214-217 | the number of samples buffered |
| AudioQueues.Replay | sim-view/src/shared_buffers.rs:143-199 | over all runs every pushed sample is pulled, dropped or still buffered, oldest first, and pulled samples come out in order |
| AudioQueues.HeadlessAudioBackend.Update | sim-view/src/headless_backends.rs:155-177 | terminates, records everything buffered in order, with contiguous offsets and the current configuration |
| HungDetectors.HungDetector.CheckCycle | device-runtime/src/sim/hung_detector.rs:168-213 | up to the first report, exactly the verdict on the cycles since the last reset is reported, stuck counter and history included |
| HungDetectors.HungDetector.CheckPcLoop | device-runtime/src/sim/hung_detector.rs:216-249 | reports exactly when the last counter is repeated often enough |
| HungDetectors.LoopVerdict | device-runtime/src/sim/hung_detector.rs:216-249 | the counter reports if and only if the last completed instructions, as many as the threshold (at least two), are all at one address; the history is the last entries |
| HungDetectors.VerdictExact | device-runtime/src/sim/hung_detector.rs:168-249 | the verdict in full: exactly when a stuck counter or a long instruction is reported, with every field of the report, told by the completed cycles and the last completion |
| VcdQueries.CountSignalEdges | vcd-mcp/src/domain.rs:319-386 | counts the neighbouring changes that form an edge and of which the later is in range |
| VcdQueries.GetSignalChanges | vcd-mcp/src/domain.rs:183-226 | the changes in range, or else the one that set the value before |
| VcdQueries.GetSignalSummary | vcd-mcp/src/domain.rs:250-309 | count, first and last time of the changes in range, last known value, width of the first known one |
| VcdQueries.GetSignalValueAt | vcd-mcp/src/domain.rs:153-175 | the last change not after the given time |
| VcdQueries.EdgesSplit | vcd-mcp/src/domain.rs:319-386 | edge counts over adjoining ranges add up; rising plus falling equals both |
| VcdQueries.SummaryAgrees | vcd-mcp/src/domain.rs:153-309 | a summary exists exactly when the change list is not empty; its count and times are those of the list entries in range, its last value is the last of the list and the value at the end |
| VcdQueries.HistoryInOrder | vcd-mcp/src/domain.rs:153-309 | a sorted timeline gives an ordered history of each signal |
| VcdLaws.HistoryHas | vcd-mcp/src/domain.rs:153-309 | every recorded change of a signal is in its history, in order, with its time and value |
| VcdLaws.HistoryOnly | vcd-mcp/src/domain.rs:153-309 | nothing else is in the history |
| VcdLaws.BitHasWeight | vcd-mcp/src/domain.rs:62-87 | bit k of a known vector is the one of weight 2^k in the number it spells |
| VcdLaws.BitExact | vcd-mcp/src/domain.rs:39-87 | exactly which bits of which values are known, and the width of each kind of value |
| VcdLaws.EdgeExact | vcd-mcp/src/domain.rs:319-386 | a rising edge goes from 0 to 1 and a falling one from 1 to 0; an unknown bit makes no edge |
| VcdLaws.EdgesCounted | vcd-mcp/src/domain.rs:319-386 | the edge count is the number of places in the history where the later change is in range and the bit goes the right way |
| VcdLaws.WithinIsStretch | vcd-mcp/src/domain.rs:183-226 | the changes in range are one stretch of the history, and all of them |
| VcdLaws.KnownExact | vcd-mcp/src/domain.rs:153-309 | the value known at a time is that of the last change not after it; the first such change is the first one looked at |
| VcdLaws.SummaryWidth | vcd-mcp/src/domain.rs:250-309 | the width in a summary is that of the very first change |
| Instructions.DecodeEncode | riscv_core/src/trace.rs:117-445 | every legal RV32I, M and Zicsr encoding decodes to its mnemonic, registers and immediate |
| Instructions.EncodeIsInjective | riscv_core/src/instruction.rs:10-56 | two legal encoder calls share a word if and only if they are the same, up to the low bits of an upper immediate, which the encoders ignore |
| Instructions.SystemByParity | riscv_core/src/trace.rs:374-392 | a system word without CSR decodes by the parity of its immediate alone |
| InstructionLaws.EncoderExact | riscv_core/src/instruction.rs:10-377 | every legal encoder call gives a word with the fixed bits that the ISA lists for its mnemonic, and with registers and immediate in the places of its format |
| InstructionLaws.DecoderExact | riscv_core/src/trace.rs:117-445 | over all 32-bit words, the decoder reports a mnemonic if and only if the word has the fixed bits it looks at |

## Left out

- RegionTransfer.DeviceRuntime.Transact: one request is served before it is waited for, because `PendingSlot.dfy` treats the interleaving; the RTL half is an arbitrary function that answers a request with any response or not at all, and a wait loop that never ends returns a value that the source does not have.
- PendingSlots.OneCompletionPerFilling: shutdown, simulator reset, fatal simulation errors and a broken command channel are not steps of the model.
- RegionTransfer.RegionRoundTrip: accesses of the target that are polled in between are passed to the callback but do not change memory.
- Audios.FlowControl: the product of sample rate and `f32` multiplier is an abstract threshold per rate.
- Videos.PresentInFlight: memory is stable while a frame is read, as for `Audios.BatchInFlight`.
- Dmas.TransferInFlight: no other writer changes memory during the transfer.
- SystemBuses.SystemBus.Read: the six width-specific methods are one method with a size; a device other than DRAM is a function of the accesses before, and does not itself write memory during a register access.
- VcdQueries.CountSignalEdges: queries start from a sorted timeline; VCD text parsing and left-extension of shortened vectors are not modelled.
- AudioQueues.Replay: chunk timestamps are left out; pushes from another thread between two pulls of one update are not interleaved.
- HungDetectors.HungDetector.CheckCycle: what the detector reports after its first report, without a reset, is not stated.
- Instructions.DecodeEncode: register values, which are passed through, compressed, atomic and floating-point words and disassembly text are left out.
- The handler's receive address accumulator is kept as its four bytes, and its fields are grouped in a record; the source's guard for an assembled burst length of zero cannot be reached and is omitted.
- The FPGA runtime's timeout, which drains the port and resets the handler, and its scheduling of one poll after the other.
- Device reset through the bus, clocking of all devices, wall clock, sleeps, serial errors, thread start and stop, log messages and error texts.
- CpuRequests.ProcessCpuRequest: the devices that are clocked after each request, and the simulator's configurable latency before the response.
- Failure to allocate an audio buffer; the size checks before it cannot fail for a valid configuration.
- The RTL, waveform dumping, ELF loading, GUI and terminal programs, packaging and the tool server.
