# Verified models of the repository's data-moving drivers

The repository is mostly HDL and register headers; a few C and C++ drivers move data through bounded FIFOs or
over bus handshakes. This project models those drivers together with the hardware they talk to, in Dafny, and
proves what they guarantee over every run, schedule or fault.

- **UART Lite driver** (`uart_*.dfy`). The device is four registers over two 16-byte FIFOs; hardware activity
  (bytes leaving, bytes arriving) may happen before every register access. The driver is a class with the
  source's fields. `uart_spec.dfy` says what each call does as one step of a transition system; every method
  of the class is proved to be such a step; `uart_invariants.dfy`, `uart_theorems.dfy` and `uart_callbacks.dfy`
  prove the guarantees over all runs; `uart_link.dfy` joins two instances by a wire and runs scripts of calls on a
  real instance.
- **Memory test** (`words.dfy`, `memory_*.dfy`). `MemeTest` on a memory with an arbitrary, possibly faulty,
  offset-to-cell decode, arbitrary stuck bits and either bus polarity: which memories pass, which work, and for
  which decodings passing means working or fault-free, exactly.
- **GPIO-to-Wishbone bridge** (`gpio_words.dfy`, `wishbone_master.dfy`, `gpio_bus.dfy`, `gpio_plain.dfy`). The
  processor's polling accesses against the bus master of `Wishbone/uc2_wb_master.vhd`, clock by clock. The master's clock and
  the slaves' answer times are arbitrary, except that the master is clocked at least once in any 24 system
  clocks, that a slave acknowledges only during a bus cycle, and that every bus cycle is answered at last; `ReleaseWindowExact` shows
  that the first condition cannot be relaxed.
- **SERDES loopback** (`serdes_*.dfy`). Blocking transfers through 512-word FIFOs and the two self-tests. The
  core moves words, and the interrupt handler runs, at any moment; `serdes_test.dfy` has the interrupt test as a
  transition system, which the test's method is proved to follow.
- **Pattern generator window** and **look-up table layout** (`pattern_rom.dfy`, `lut_layout.dfy`).

Assumptions, all visible in the contracts. For the UART, the interrupt handler runs between driver calls, not inside
them; application callbacks do not re-enter the driver; an array being sent is not also an array being received into
while both transfers are unfinished, and its unsent bytes are not changed by the application. The transmit stream
would not be exact otherwise. `XASSERT` conditions on arguments are preconditions.

Where the code and its comments or intent disagree, the code is modelled and the difference is a theorem:

- `RecvHandler` is not called once per reception: it is called on every receive interrupt while the last
  request is full, even before any `XUartLite_Recv` (`RecvHandlerTwice`). `RecvHandlerOnceExact` says
  exactly when it is called at most once.
- `WB_read16` of an address with bit 12 set performs a write of zero (`RequestMeaning`, `RoundTripExact`).
- The memory test can pass a memory that loses data: none of the four patterns ever differs between words in the
  lowest two bits, so a cell that words share goes unseen if its other bits are stuck at the value that drives
  nothing. `WorkingExact` says for which decodings that can happen; in `BlindSpot` the bus is AND-wired and the bits
  are stuck at 1.
- `SerDesHandler` always clears the overrun flag, so the interrupt test never reports a lost word
  (`TestReadsRamp`), though it can lose all it writes from its 33rd turn on (`FirstLossExact`, `LosesUnseen`);
  and its flags can be stale, so a read can hang for good (`StaleFlagHangs`), exactly when it starts with less than a
  page on hand (`TurnHangsExact`).
- `PG_Start` does not centre the interferogram in a cube of more than 131079 images: the image number is compared
  with the start register in 16 bits (`CentredExact`).

## Model

| member | source | states |
|---|---|---|
| UartRegisters.StatusWord | Wishbone/wb_uart_lite/src/uartlite_core.vhd:256-263 | the status register: each mask of the driver, and each bit by its number, recovers exactly its own flag |
| UartRegisters.MaskedStatusRestoresEnable | Wishbone/wb_uart_lite/driver/xuartlite.c:226-228 | writing the masked status word back to the control register restores the enable bit and resets no FIFO; with the reset bits it resets both |
| UartLine.ExchangeChains | Wishbone/wb_uart_lite/driver/xuartlite.c:461-471 | exchanges with the FIFOs compose: bytes pushed and popped in two stretches are pushed and popped in order in the whole |
| UartLine.HardwareIsQuiet | Wishbone/wb_uart_lite/src/uartlite_rx.vhd:424-450 | a byte leaving on the wire or arriving, a full receive FIFO dropping it, keeps both streams intact |
| UartLine.AccessTransfers | Wishbone/wb_uart_lite/driver/xuartlite.c:461-464 | a register access the status word just allowed moves exactly its byte |
| UartLine.ExchangeKeepsInv | Wishbone/wb_uart_lite/driver/xuartlite.c:461-483 | since the last reset, pushed bytes are the wire and the transmit FIFO, and accepted bytes are the popped ones and the receive FIFO |
| UartDeviceModel.UartDevice.Settle | Wishbone/wb_uart_lite/src/uartlite_core.vhd:357-385 | any interleaving of departures and arrivals is hardware activity only |
| UartDeviceModel.UartDevice.ReadStatus | Wishbone/wb_uart_lite/src/uartlite_core.vhd:256-263 | a status read reports the state of the FIFOs at the read |
| UartDeviceModel.UartDevice.WriteTx | Wishbone/wb_uart_lite/src/uartlite_core.vhd:238-239 | a transmit write is queued after any activity, or refused if the FIFO is full |
| UartDeviceModel.UartDevice.ReadRx | Wishbone/wb_uart_lite/src/uartlite_rx.vhd:424-445 | a receive read takes the oldest byte, or is refused if the FIFO is empty |
| UartDeviceModel.UartDevice.WriteControl | Wishbone/wb_uart_lite/src/uartlite_core.vhd:336-355 | after any activity, a control write sets the enable bit and clears exactly the FIFOs it names, in all combinations |
| UartDriver.XUartLite.CfgInitialize | Wishbone/wb_uart_lite/driver/xuartlite.c:120-157 | leaves the FIFOs alone, interrupts off, and starts both sessions empty: an initial state of the transition system |
| UartDriver.XUartLite.EnterCritical | Wishbone/wb_uart_lite/driver/xuartlite.c:476-477 | interrupts are off afterwards and the sampled word restores what the enable bit was |
| UartDriver.XUartLite.LeaveCritical | Wishbone/wb_uart_lite/driver/xuartlite.c:493-495 | writes back that bit and disturbs neither FIFO |
| UartDriver.XUartLite.FillFifo | Wishbone/wb_uart_lite/driver/xuartlite.c:455-471 | pushes a prefix of the unsent bytes in order and stops early only when its last status read found the FIFO full; one status read before the first byte and one after each |
| UartDriver.XUartLite.AdvanceSend | Wishbone/wb_uart_lite/driver/xuartlite.c:476-495 | moves the session on by the bytes pushed between switching interrupts off and restoring the enable bit |
| UartDriver.XUartLite.SendBuffer | Wishbone/wb_uart_lite/driver/xuartlite.c:446-502 | the whole new state: session, counters, streams, enable bit, return value; and its register accesses, in order |
| UartDriver.XUartLite.UpdateStats | Wishbone/wb_uart_lite/driver/xuartlite_i.h:77-91 | each error bit of the status word adds one, modulo 2^32, to its own counter |
| UartDriver.XUartLite.TakeByte | Wishbone/wb_uart_lite/driver/xuartlite.c:558-565 | the byte popped lands in its slot of the caller's buffer and is charged with the status word's errors |
| UartDriver.XUartLite.DrainFifo | Wishbone/wb_uart_lite/driver/xuartlite.c:546-573 | pops up to the missing bytes in order, stops early only when a status read found the FIFO empty, overwrites only their slots; one status read before each byte |
| UartDriver.XUartLite.ReceiveBuffer | Wishbone/wb_uart_lite/driver/xuartlite.c:536-600 | the whole new state, and the caller's buffer is the bytes received over its old contents; and its register accesses, in order |
| UartDriver.XUartLite.Send | Wishbone/wb_uart_lite/driver/xuartlite.c:190-235 | is a Send step of the transition system and returns the bytes pushed; all its register accesses, in order |
| UartDriver.XUartLite.Recv | Wishbone/wb_uart_lite/driver/xuartlite.c:270-315 | is a Recv step, returns the bytes stored, and the buffer is exactly those over its old contents; all its register accesses, in order |
| UartDriver.XUartLite.ResetFifos | Wishbone/wb_uart_lite/driver/xuartlite.c:332-356 | is a reset step: both FIFOs empty, the enable bit kept |
| UartDriver.XUartLite.SetInterrupt | Wishbone/wb_uart_lite/driver/xuartlite_intr.c:272-311 | sets the enable bit and nothing else |
| UartDriver.XUartLite.ClearStats | Wishbone/wb_uart_lite/driver/xuartlite_stats.c:111-122 | zeroes every counter and nothing else |
| UartDriver.XUartLite.ReceiveDataHandler | Wishbone/wb_uart_lite/driver/xuartlite_intr.c:185-209 | is a receive-interrupt step: buffer, RecvHandler call and counter; adds one to the 32-bit receive interrupts |
| UartDriver.XUartLite.ReportSent | Wishbone/wb_uart_lite/driver/xuartlite_intr.c:230-243 | forgets the session, then reports the saved byte count |
| UartDriver.XUartLite.SendDataHandler | Wishbone/wb_uart_lite/driver/xuartlite_intr.c:224-255 | is a transmit-interrupt step: report a finished session or push more of it; adds one to the 32-bit transmit interrupts |
| UartDriver.XUartLite.InterruptHandler | Wishbone/wb_uart_lite/driver/xuartlite_intr.c:149-170 | both halves decide on one status word, receive half first, and each counts exactly if taken; the instance stays valid |
| UartInvariants.StreamKept | Wishbone/wb_uart_lite/driver/xuartlite.c:215-217 | every step keeps the pushed bytes equal to the pushed prefixes of all sessions |
| UartInvariants.CurrentIsTail | Wishbone/wb_uart_lite/driver/xuartlite.c:482-483 | the current session's pushed prefix is the tail of everything pushed |
| UartInvariants.RecvKept | Wishbone/wb_uart_lite/driver/xuartlite.c:584-585 | every step keeps the popped bytes equal to what all Recv sessions stored |
| UartInvariants.ReportedIsOnWire | Wishbone/wb_uart_lite/driver/xuartlite_intr.c:230-243 | when a session is reported, the wire ends with exactly its bytes, unless a reset came in between |
| UartInvariants.CallKept | Wishbone/wb_uart_lite/driver/xuartlite_intr.c:200-204 | every step keeps every logged callback right |
| UartInvariants.TallyConcat | Wishbone/wb_uart_lite/driver/xuartlite_i.h:77-91 | error counts of consecutive receptions add up |
| UartInvariants.TallyOne | Wishbone/wb_uart_lite/driver/xuartlite_i.h:77-91 | one reception counts each error its status word showed |
| UartInvariants.StatKept | Wishbone/wb_uart_lite/driver/xuartlite.c:488 | every step keeps every counter equal to what the histories say since the last clear |
| UartInvariants.NextKeepsInv | Wishbone/wb_uart_lite/driver/xuartlite_intr.c:149-170 | every call and any hardware activity keep all the invariants together |
| UartTheorems.RunInv | Wishbone/wb_uart_lite/driver/xuartlite.h:39-62 | the invariants hold in every reachable state |
| UartTheorems.TransmitExact | Wishbone/wb_uart_lite/driver/xuartlite.c:446-502 | transmit stream exactness over every run without a reset, for exactly the buffers the application sent |
| UartTheorems.ExactSinceReset | Wishbone/wb_uart_lite/driver/xuartlite.c:332-356 | both streams are exact since the last reset, in every run |
| UartTheorems.ReceiveExact | Wishbone/wb_uart_lite/driver/xuartlite.c:536-600 | receive stream exactness over every run without a reset |
| UartTheorems.AccessesSafe | Wishbone/wb_uart_lite/driver/xuartlite.c:455-471 | no run ever writes a full transmit FIFO or reads an empty receive FIFO, and only the enable calls change the enable bit |
| UartTheorems.StatisticsExact | Wishbone/wb_uart_lite/driver/xuartlite_i.h:77-115 | character and error counters equal what happened since the last clear; errors never exceed characters |
| UartCallbacks.SendCompletion | Wishbone/wb_uart_lite/driver/xuartlite_intr.c:230-243 | in every run SendHandler at most once per Send, never for an empty one, with NumBytes; the wire then ends with that session's bytes if its report is intact, as all are without resets |
| UartCallbacks.SparedSinceSend | Wishbone/wb_uart_lite/driver/xuartlite.c:332-356 | a report is intact unless a reset came between the Send and it; resets before the Send do no harm |
| UartCallbacks.EntryPays | Wishbone/wb_uart_lite/driver/xuartlite_intr.c:230-250 | a transmit interrupt finds the FIFO empty, so it pushes a full load, the rest, or reports: entries so far plus those still needed stay within the bound |
| UartCallbacks.EntriesSinceSend | Wishbone/wb_uart_lite/driver/xuartlite_intr.c:254 | the transmit-interrupt counter counts exactly the entries into SendDataHandler |
| UartCallbacks.InterruptsExact | Wishbone/wb_uart_lite/driver/xuartlite_intr.c:208-254 | in every run both interrupt counters are the entries into the data handlers since the last clear |
| UartCallbacks.TransmitInterruptBound | Wishbone/wb_uart_lite/driver/xuartlite_l.h:82-86 | at most ceil(left/16) + 1 transmit interrupts for a Send that left so many bytes unsent, none for an empty one: ceil(N/16), one more if the FIFO was not empty |
| UartCallbacks.SendCompletes | Wishbone/wb_uart_lite/driver/xuartlite_intr.c:230-254 | once SendDataHandler has run as often as that bound, every byte is pushed and SendHandler has been called for the session |
| UartCallbacks.BoundAttained | Wishbone/wb_uart_lite/driver/xuartlite_intr.c:161-169 | the bound is exact: after any Send of at least one byte some schedule takes that many interrupts, whatever is received meanwhile |
| UartCallbacks.RecvCompletion | Wishbone/wb_uart_lite/driver/xuartlite_intr.c:200-204 | RecvHandler runs only with its buffer full and RequestedBytes as argument |
| UartCallbacks.StepReports | Wishbone/wb_uart_lite/driver/xuartlite_intr.c:161-204 | which handler call calls RecvHandler for which session: those that find data and leave the current session full |
| UartCallbacks.RecvHandlerCalls | Wishbone/wb_uart_lite/driver/xuartlite_intr.c:200-204 | over a run RecvHandler is called once for a session if at all, and once more for every later handler call that finds data while the session is current |
| UartCallbacks.RecvHandlerOnceExact | Wishbone/wb_uart_lite/driver/xuartlite_intr.c:200-204 | at most once for a session exactly when no handler call finds data after the session was reported and while it is current |
| UartCallbacks.RecvHandlerTwice | Wishbone/wb_uart_lite/driver/xuartlite_intr.c:200-204 | at-most-once is false for RecvHandler: from every initial state one unwanted byte has it called twice for one session |
| UartLink.EndToEnd | Wishbone/wb_uart_lite/driver/xuartlite.h:60-72 | with a lossless wire and no overrun, what one end has stored is a prefix of what the other has pushed, and all of it once drained |
| UartLink.Play | Wishbone/wb_uart_lite/driver/xuartlite.h:52-72 | any script of calls on a real instance is a run of the transition system; its device refuses no access and ends with the interrupt enable last asked for, and its 32-bit statistics tell what happened since the last clear |
| UartLink.PlayExact | Wishbone/wb_uart_lite/driver/xuartlite.c:190-235 | so the device has sent or queues exactly what the script's Sends pushed |
| Words.WithinOrders | Telops_Memory_Interface/Plb_Tmi_bridge_tst/sw/plb_bram_tst/main.c:64-67 | a ramp word whose bits are among another's is no larger |
| Words.CheckerBits | Telops_Memory_Interface/Plb_Tmi_bridge_tst/sw/plb_bram_tst/main.c:109-133 | the two data-bus patterns set every bit between them and no bit twice |
| MemoryTest.Memory.Access | Telops_Memory_Interface/Plb_Tmi_bridge_tst/sw/plb_bram_tst/main.c:33-47 | one read or write through the decode map |
| MemoryTest.Memory.Fill | Telops_Memory_Interface/Plb_Tmi_bridge_tst/sw/plb_bram_tst/main.c:64-67 | a writing loop leaves every cell with its last writer's datum |
| MemoryTest.Memory.Check | Telops_Memory_Interface/Plb_Tmi_bridge_tst/sw/plb_bram_tst/main.c:72-81 | a checking loop fails exactly when some word reads back wrong |
| MemoryTest.Memory.MemeTest | Telops_Memory_Interface/Plb_Tmi_bridge_tst/sw/plb_bram_tst/main.c:54-155 | counts exactly the patterns that read back wrong, and leaves the last one in the memory |
| MemoryTheorems.WrittenByLast | Telops_Memory_Interface/Plb_Tmi_bridge_tst/sw/plb_bram_tst/main.c:64-67 | after a fill, a cell holds the datum of the last word that selects it |
| MemoryTheorems.HealthyHolds | Telops_Memory_Interface/Plb_Tmi_bridge_tst/sw/plb_bram_tst/main.c:62-149 | soundness: a fault-free memory passes every pattern from any contents |
| MemoryTheorems.CheckersFindStuck | Telops_Memory_Interface/Plb_Tmi_bridge_tst/sw/plb_bram_tst/main.c:107-148 | the two data-bus patterns find every missing cell and every stuck bit |
| MemoryTheorems.RisingFindsSharing | Telops_Memory_Interface/Plb_Tmi_bridge_tst/sw/plb_bram_tst/main.c:62-81 | on an OR-wired bus the rising ramp finds every shared cell |
| MemoryTheorems.FallingFindsSharing | Telops_Memory_Interface/Plb_Tmi_bridge_tst/sw/plb_bram_tst/main.c:85-104 | on an AND-wired bus the falling ramp does |
| MemoryTheorems.DetectsExactly | Telops_Memory_Interface/Plb_Tmi_bridge_tst/sw/plb_bram_tst/main.c:54-155 | sound and complete at any depth: zero errors exactly when the decode is injective and total and no bit is stuck |
| MemoryTheorems.PassingIsRam | Telops_Memory_Interface/Plb_Tmi_bridge_tst/sw/plb_bram_tst/main.c:54-155 | a memory that passes is random-access memory for every data, not only for the four patterns |
| MemoryTheorems.SingleCellWords | Telops_Memory_Interface/Plb_Tmi_bridge_tst/sw/plb_bram_tst/main.c:33-47 | for a plain decode map to single cells the fault model has no restriction |
| MemoryTheorems.MissesRepeat | Telops_Memory_Interface/Plb_Tmi_bridge_tst/sw/plb_bram_tst/main.c:181-186 | the errors counted do not depend on the memory's earlier contents |
| MemoryTheorems.RepeatTest | Telops_Memory_Interface/Plb_Tmi_bridge_tst/sw/plb_bram_tst/main.c:181-186 | the repeat loop reports the first pass's count: 1024 passes, or one that fails |
| MemoryTheorems.FallingRampNeeded | Telops_Memory_Interface/Plb_Tmi_bridge_tst/sw/plb_bram_tst/main.c:85-104 | at any depth some sharing is seen by the falling ramp only |
| MemoryTheorems.RisingRampNeeded | Telops_Memory_Interface/Plb_Tmi_bridge_tst/sw/plb_bram_tst/main.c:62-81 | at any depth of three words or more some sharing is seen by the rising ramp only |
| MemoryBoundary.BitPassesExact | Telops_Memory_Interface/Plb_Tmi_bridge_tst/sw/plb_bram_tst/main.c:62-149 | one bit lane of one word reads right in all four patterns exactly if some cell works there, none jams it, and both ramps come from a last writer that agrees |
| MemoryBoundary.MissesCount | Telops_Memory_Interface/Plb_Tmi_bridge_tst/sw/plb_bram_tst/main.c:54-155 | the number MemeTest returns, whatever the faults: one for each pattern that some word does not read back |
| MemoryBoundary.AbsentCountsFour | Telops_Memory_Interface/Plb_Tmi_bridge_tst/sw/plb_bram_tst/main.c:54-155 | for one, a memory that is not there returns 4 |
| MemoryBoundary.PassesExact | Telops_Memory_Interface/Plb_Tmi_bridge_tst/sw/plb_bram_tst/main.c:54-155 | which memories pass, whatever their faults: those with no bit lane the test can fault |
| MemoryBoundary.RamExact | Telops_Memory_Interface/Plb_Tmi_bridge_tst/sw/plb_bram_tst/main.c:33-47 | which memories work: those that answer in every bit lane and share no working bit between words |
| MemoryBoundary.PassingWorksExact | Telops_Memory_Interface/Plb_Tmi_bridge_tst/sw/plb_bram_tst/main.c:54-155 | of the memories that pass, those work that share no working bit |
| MemoryBoundary.MaskableExact | Telops_Memory_Interface/Plb_Tmi_bridge_tst/sw/plb_bram_tst/main.c:54-155 | from the decoding alone: some memory with it passes exactly if every bit lane can be had from cells whose sharing the ramps cannot find |
| MemoryBoundary.WorkingExact | Telops_Memory_Interface/Plb_Tmi_bridge_tst/sw/plb_bram_tst/main.c:54-155 | for which decodings every passing memory works, whatever is stuck: unless some cell is shared and the decoding is maskable |
| MemoryBoundary.CompleteExact | Telops_Memory_Interface/Plb_Tmi_bridge_tst/sw/plb_bram_tst/main.c:54-155 | for which decodings every passing memory is fault-free, whatever is stuck: if none can pass, or each word has a single cell of its own |
| MemoryBoundary.OwnCellsExact | Telops_Memory_Interface/Plb_Tmi_bridge_tst/sw/plb_bram_tst/main.c:54-155 | if each word has a cell of its own, the test is complete exactly if it has no other, and passing means working exactly if no other is shared |
| MemoryBoundary.BlindSpot | Telops_Memory_Interface/Plb_Tmi_bridge_tst/sw/plb_bram_tst/main.c:62-149 | an example at any depth of two words or more, on an AND-wired bus: it passes and loses data |
| GpioWords.RequestMeaning | Common_Projects/CAMEL/Pattern_gen/Active-hdl/src/SystemC/uc2_gpio.cpp:24 | what a request word asks of the master for every 16-bit address, high bits leaking into the command |
| GpioWords.RequestsExact | Common_Projects/CAMEL/Pattern_gen/Active-hdl/src/SystemC/uc2_gpio.cpp:75 | a request means what the caller asked exactly on twelve-bit addresses |
| WishboneMaster.ClockedChains | Wishbone/uc2_wb_master.vhd:86-154 | clocking for two stretches is clocking for the whole |
| WishboneMaster.ReleaseExact | Wishbone/uc2_wb_master.vhd:129-133 | under the release word the master changes nothing and drops its acknowledgement exactly when clocked |
| WishboneMaster.EdgeServes | Wishbone/uc2_wb_master.vhd:103-149 | each clock edge keeps a request either untouched or performed once and acknowledged |
| WishboneMaster.RequestServed | Wishbone/uc2_wb_master.vhd:103-149 | a held request is performed at most once, and acknowledged only when performed |
| WishboneMaster.ServedAtLast | Wishbone/uc2_wb_master.vhd:120-143 | and at last it is |
| WishboneMaster.AckExact | Wishbone/uc2_wb_master.vhd:103-149 | the acknowledgement is set from the slave's first answer after the second clock edge on, and not before |
| WishboneMaster.ReleaseWindowExact | Common_Projects/CAMEL/Pattern_gen/Active-hdl/src/SystemC/uc2_gpio.cpp:44-46 | the next request is seen exactly when the master was clocked while the release word was out; otherwise it is never performed and the old acknowledgement shows |
| GpioBus.Uc2.InstructionDelay | Common_Projects/CAMEL/Pattern_gen/Active-hdl/src/SystemC/uc2_transactor.cpp:18-32 | four clocks an instruction, the master clocked meanwhile |
| GpioBus.Uc2.ReadGpio | Common_Projects/CAMEL/Pattern_gen/Active-hdl/src/SystemC/uc2_transactor.cpp:34-41 | samples the master after one instruction, before what the last clock edge changes |
| GpioBus.Uc2.WriteGpio | Common_Projects/CAMEL/Pattern_gen/Active-hdl/src/SystemC/uc2_transactor.cpp:43-47 | changes the output after one instruction |
| GpioBus.Uc2.PlaceRequest | Common_Projects/CAMEL/Pattern_gen/Active-hdl/src/SystemC/uc2_gpio.cpp:74-77 | whenever the release word was out it has been for at least 24 clocks, so the request finds the master idle and unacknowledging |
| GpioBus.Uc2.AwaitAck | Common_Projects/CAMEL/Pattern_gen/Active-hdl/src/SystemC/uc2_gpio.cpp:80-86 | the polling loop ends, at twelve clocks a poll, with the first poll that can see the request served, the request performed once and its answer read |
| GpioBus.Uc2.WbWrite16 | Common_Projects/CAMEL/Pattern_gen/Active-hdl/src/SystemC/uc2_gpio.cpp:18-47 | one write performed, once; exactly 32+12k clocks, k the first poll after the master's clock and the slave let it be served |
| GpioBus.Uc2.WbRead16 | Common_Projects/CAMEL/Pattern_gen/Active-hdl/src/SystemC/uc2_gpio.cpp:68-96 | one read performed, once, returning the register's current value, in exactly 32+12k clocks, k the first poll after it is served |
| GpioBus.Uc2.WbWrite32 | Common_Projects/CAMEL/Pattern_gen/Active-hdl/src/SystemC/uc2_gpio.cpp:49-66 | two writes in order, in 64+12k clocks |
| GpioBus.Uc2.WbRead32 | Common_Projects/CAMEL/Pattern_gen/Active-hdl/src/SystemC/uc2_gpio.cpp:98-107 | two reads in order, joined, in 64+12k clocks |
| GpioBus.RegisterRoundTrip | Common_Projects/CAMEL/Pattern_gen/Active-hdl/src/SystemC/uc2_gpio.cpp:49-107 | below address 0xFFF a 32-bit write is read back and only its two cells change |
| GpioBus.RoundTripExact | Common_Projects/CAMEL/Pattern_gen/Active-hdl/src/SystemC/uc2_gpio.cpp:49-107 | for every address: data always reads back exactly when neither half's address has bit 12 set |
| GpioBus.RunProgram | Common_Projects/CAMEL/Pattern_gen/Active-hdl/src/SystemC/uc2_gpio.cpp:18-107 | any program of accesses, with any pauses between them, is carried out once each, in order, each read returning the current value, whatever the timing |
| GpioWords.HalvesValue | Common_Projects/CAMEL/Pattern_gen/Active-hdl/src/SystemC/uc2_gpio.cpp:54-62 | which half of a 32-bit value is the high one |
| GpioWords.WordsSpelled | Common_Projects/CAMEL/Pattern_gen/Active-hdl/src/SystemC/uc2_gpio.cpp:24-44 | the request, release and reply words bit by bit on an example |
| GpioPlain.CallPlain | Common_Projects/CAMEL/Pattern_gen/Active-hdl/src/SystemC/uc2_gpio.cpp:18-107 | each access, at any address, does and answers what it does on a plain memory of 16-bit cells, the high half first |
| GpioPlain.ProgramPlain | Common_Projects/CAMEL/Pattern_gen/Active-hdl/src/SystemC/uc2_gpio.cpp:18-107 | so does any program the bus carries out, each answer as of its place |
| SerdesCore.ShiftKeeps | edk_cores/MyProcessorIPLib/pcores/edk_serdes_v1_00_a/hdl/vhdl/user_logic.vhd:291-305 | a word moves from the write to the read FIFO in order, or is dropped when that is full |
| SerdesCore.ShiftLossless | edk_cores/MyProcessorIPLib/pcores/edk_serdes_v1_00_a/hdl/vhdl/user_logic.vhd:295-297 | with no more than 512 words in flight nothing is dropped |
| SerdesCore.LoopExact | edk_cores/MyProcessorIPLib/pcores/edk_serdes_v1_00_a/hdl/vhdl/user_logic.vhd:353-363 | without drops reading is what was written; with drops, positions only skip forward |
| SerdesDriver.Serdes.WriteBuf | edk_cores/MyProcessorIPLib/drivers/edk_serdes_v1_00_a/src/serdes.c:56-65 | writes every word in order, waiting for room; the core and the handler act at any moment of it |
| SerdesDriver.Serdes.ReadBuf | edk_cores/MyProcessorIPLib/drivers/edk_serdes_v1_00_a/src/serdes.c:71-80 | reads words in order, the core and the handler acting at any moment; a read of up to 512 words hangs exactly when fewer are on hand in both FIFOs at its start |
| SerdesDriver.Serdes.Handler | edk_cores/MyProcessorIPLib/drivers/edk_serdes_v1_00_a/src/serdes.c:102-120 | sets both flags from the FIFO levels at two moments, WrEmpty exactly if the write FIFO is empty, and always clears the overrun flag |
| SerdesDriver.SerdesSelfTest | edk_cores/MyProcessorIPLib/drivers/edk_serdes_v1_00_a/src/serdes_selftest.c:54-67 | whenever the core moves words or the handler runs, every turn ends and the k-th word printed is k modulo 2^32 |
| SerdesDriver.SelfTestTurn | edk_cores/MyProcessorIPLib/drivers/edk_serdes_v1_00_a/src/serdes_selftest.c:55-66 | one turn sends and reads back the next sixteen words, dropping none |
| SerdesDriver.SerdesInterruptTest | edk_cores/MyProcessorIPLib/drivers/edk_serdes_v1_00_a/src/serdes_selftest.c:129-160 | it is a run of the transition system; the words stored obey ReadsRamp, even while a read hangs, which takes a stale flag, and no overrun is ever flagged; it makes all its turns unless it has 512 pages or hangs |
| SerdesCore.DoesEffects | edk_cores/MyProcessorIPLib/pcores/edk_serdes_v1_00_a/hdl/vhdl/user_logic.vhd:291-363 | any stretch of events writes and reads what the driver did, in order, never sets the overrun flag, and drops nothing while at most 512 words were on their way |
| SerdesTest.TurnKeeps | edk_cores/MyProcessorIPLib/drivers/edk_serdes_v1_00_a/src/serdes_selftest.c:132-160 | a turn of the test, with the core and the handler acting at any moment, sends more of the counter's ramp and reads whole pages |
| SerdesTest.TestReadsRamp | edk_cores/MyProcessorIPLib/drivers/edk_serdes_v1_00_a/src/serdes_selftest.c:129-160 | under any interrupt schedule the words read are 0, 1, 2, ... until a drop before the last one, none is dropped while at most 512 are on their way, and no overrun is flagged |
| SerdesTest.RampRead | edk_cores/MyProcessorIPLib/drivers/edk_serdes_v1_00_a/src/serdes_selftest.c:131-160 | words read are 0, 1, 2, ... exactly until a word before the last one read was dropped |
| SerdesLevels.ReadEndsExact | edk_cores/MyProcessorIPLib/drivers/edk_serdes_v1_00_a/src/serdes.c:71-80 | from the levels at its start: some timing lets a read end exactly if its words are on hand, every timing does exactly if besides they are at most 512 |
| SerdesLevels.LossExact | edk_cores/MyProcessorIPLib/pcores/edk_serdes_v1_00_a/hdl/vhdl/user_logic.vhd:291-305 | some timing of the core loses a word exactly if more than 512 are on hand |
| SerdesTest.TurnEndsExact | edk_cores/MyProcessorIPLib/drivers/edk_serdes_v1_00_a/src/serdes_selftest.c:135-145 | once its flags are tested a turn can end exactly if no read is called for or a page was on hand at its start, and then its read ends under every timing |
| SerdesTest.TurnHangsExact | edk_cores/MyProcessorIPLib/drivers/edk_serdes_v1_00_a/src/serdes_selftest.c:135-145 | a turn can hang exactly if the read flag is set at its start with less than a page on hand |
| SerdesTest.TurnLosesExact | edk_cores/MyProcessorIPLib/drivers/edk_serdes_v1_00_a/src/serdes_selftest.c:132-160 | a turn can lose a word exactly if more than 512 are on hand, or more than 496 and it need not first read a page |
| SerdesTest.FirstLossExact | edk_cores/MyProcessorIPLib/drivers/edk_serdes_v1_00_a/src/serdes_selftest.c:132-160 | the test can have lost a word after so many turns exactly if they are more than 32 |
| SerdesTest.LosesUnseen | edk_cores/MyProcessorIPLib/drivers/edk_serdes_v1_00_a/src/serdes_selftest.c:135-160 | without interrupts the test reads nothing and from its 33rd turn on loses every word it writes, with no overrun flagged |
| SerdesTest.StaleFlagHangs | edk_cores/MyProcessorIPLib/drivers/edk_serdes_v1_00_a/src/serdes_selftest.c:135-145 | the read flag is only as fresh as the last interrupt: a run in which the second page's read can hang |
| SerdesLevels.StarvedForever | edk_cores/MyProcessorIPLib/drivers/edk_serdes_v1_00_a/src/serdes.c:77 | and no schedule ever ends that read |
| PatternRom.PatGenConfig.Start | Common_Projects/CAMEL/Pattern_gen/src/Driver/PatGen.cpp:89-130 | sizes modulo 2^32, and a ROM window inside ROM and cube with entry 508 at most 4 images before the middle, for every 32-bit ZSIZE; played in the middle exactly up to 131079 images |
| PatternRom.RomIndexClosed | Common_Projects/CAMEL/Pattern_gen/src/IGM_generator.vhd:137-165 | the entry the generator plays in each of the first 65536 images, in closed form |
| PatternRom.CentredExact | Common_Projects/CAMEL/Pattern_gen/src/IGM_generator.vhd:134-165 | below 2^24 images the generator plays the zero path difference in exactly one image next to the middle if and only if the cube has at most 131079 |
| PatternRom.FirstUncentred | Common_Projects/CAMEL/Pattern_gen/src/IGM_generator.vhd:146-148 | the smallest cube that fails: 131080 images play it in images 65536 and 65537 |
| PatternRom.UnbrokenExact | Common_Projects/CAMEL/Pattern_gen/src/IGM_generator.vhd:146-148 | every image plays its own entry, and a cube longer than the ROM all of it, if and only if the cube has at most 130051 images |
| LutLayout.Lutf.SendConfig | Telops_Memory_Interface/TMI_LL_LUT/driver/TMI_LL_LUT_fix.cpp:23-35 | start and end address in wrapping arithmetic |
| LutLayout.Lutf.UpdateTableIdx | Telops_Memory_Interface/TMI_LL_LUT/driver/TMI_LL_LUT_fix.cpp:37-46 | the same addresses as a full configuration with that index, wrap-around and size 0 included, and the module's registers read back as them |
| LutLayout.RegisterOffsets | Telops_Memory_Interface/TMI_LL_LUT/driver/TMI_LL_LUT_fix.h:49-50 | which of the two address registers is which |
| LutLayout.TablesAbut | Telops_Memory_Interface/TMI_LL_LUT/driver/TMI_LL_LUT_fix.cpp:29-30 | consecutive tables abut, even across wrap-around |
| LutLayout.TablesDisjoint | Telops_Memory_Interface/TMI_LL_LUT/driver/TMI_LL_LUT_fix.cpp:29-30 | without overflow tables of distinct indices are disjoint and in order |
| LutLayout.OverlapExact | Telops_Memory_Interface/TMI_LL_LUT/driver/TMI_LL_LUT_fix.cpp:29-30 | with overflow, tables overlap exactly when their wrapped starts are closer than a table |

## Left out

- Preemption of the UART driver by its own interrupt handler inside a copy loop: exactness would not hold there, since the loop pushes from a stale position.
- Error bits of the UART status register: each status read reports arbitrary ones; how the receiver latches and clears them is not modelled.
- Serial line timing, parity and framing; the UART model moves whole bytes.
- `XUartLite_IsSending`, `XUartLite_SelfTest`, `XUartLite_GetStats`, the polled byte routines and the configuration table: single register reads or copies.
- UartDriver.XUartLite.Send: not from an array that an unfinished `XUartLite_Recv` is still filling, since the bytes sent would then be later ones.
- UartDriver.XUartLite.Recv: not into an array that an unfinished `XUartLite_Send` still reads from, for the same reason.
- UartLink.EndToEnd: stated without FIFO resets and without receive overrun, which do lose bytes.
- MemoryTheorems.DetectsExactly: assumes no word has both several cells and a stuck one among them; without that `PassesExact` and `CompleteExact` take its place.
- MemoryTheorems.CheckersFindStuck: under the same assumption; without it a stuck bit is seen exactly as `BitPasses` says.
- Register contents that change without a bus write; the registers behind the Wishbone slave are plain storage.
- SerdesDriver.SerdesSelfTest: the endless loop is followed for any number of turns.
- SerdesDriver.SerdesInterruptTest: the loop is followed for any number of turns; it hangs under the schedules `TurnEndsExact` names and may never read if the handler does not run.
- SerdesDriver.Serdes.ReadBuf: a hang is a result of the model; the core is taken to move a waiting word after finitely many polls.
- `SerdesInit`'s control word and return value, the FIFO status word's bit layout and the interrupt controller set-up.
- PatternRom.CentredExact: for cubes below 2^24 images; the generator's image counter and its size register have 24 bits.
- `PG_Start`'s mode switch, `WriteStruct` and the control register writes; `WriteStruct` is not part of this model.
- LutLayout.Lutf.UpdateTableIdx: the registers read back as written on module addresses below 0xFE0, within the bus's twelve address bits.
- `LUTF_UpdateXrange`, `LUTF_UpdateCTRL`, `LUTF_Done` and the floating-point table driver: the same writes and arithmetic.
- Console output, cache control, SD card, SPI, file system, header extractor and histogram drivers.
