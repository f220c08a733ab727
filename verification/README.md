# Verified models of the USB MIDI and AVRISP firmware

Two programs for AVR microcontrollers share this repository: a USB/serial MIDI device (`MIDI.c`, `avr-midi/`) and a
programmer for AVR targets that speaks the STK500v2 protocol to its host (`isp/`). The project models their stateful
parts in Dafny 4.11 and proves what they are there for. `dafny verify dfyconfig.toml` checks everything.

## What is modelled

**The bit-banged USART** (`UsartFrames`, `SoftUsart`, `UsartReception`, `UsartProgress`, `UsartTarget`). A timer
interrupt shifts bits out of and into the same word that the main line loads and reads. `SoftUsart` is a machine whose
steps are single accesses to shared state, with the interrupt free to fall between any two of them, including between
the two byte stores of the 16-bit word, in either order. `UsartReception` says what its receive side takes in,
`UsartProgress` that sending comes to an end. `UsartTarget` has the C functions in their own form: whatever they do is
a run of that machine under the program of the calls made.

**Serial programming** (`SpiBus`, `SpiTarget`, `UsbPackets`, `SpiMulti`, `Timers`, `Polling`, `IspStreams`,
`IspProgrammer`, `IspLegacy`, `IspRoundTrip`, `DirectTargets`, `EepromPages`, `SlowTargets`, `ExtendedAddress`). The
programmer prints four-byte SPI instructions; the target is a byte-at-a-time decoder, with a page buffer, an extended
address register and a flash, or with EEPROM or a flash without pages (`DirectTargets`). The theorems say what the
printed bytes do to the target's memory, over one command, over a program/read pair, and over whole sessions; and what
a reply of OK says about a target that needs time.

**PDI and TPI** (`PdiTargets`, `XmegaNvm`, `XmegaMemories`, `TpiTargets`, `TinyNvm`). The same for the two other target
interfaces. The PDI decoder has a pointer and a repeat counter, and counts as a fault every byte sent while an answer
is due and every byte received while none is; all operations keep that count at zero and end between instructions.
Behind it `XmegaMemories` has a controller with a command register, a page buffer and a memory.

**MIDI input and output** (`ByteQueue`, `MidiDevice`, `MidiParser`, `MidiSend`, `Debounce`). An interrupt-fed ring
buffer refines a sequence; the main loop drains it under interruption; the parser follows an exact trace
specification for every length table; sends come out of a receiver as the same messages; the debounced inputs follow
their eight-sample specification.

Bytes are integers below 256 and words and double words are bounded alike; every cut to 8, 16 or 32 bits is written
out. `Bits` has the bit operations as functions on numbers, `Seqs` a few laws of concatenation.

## Where the code does not do what it seems to promise

The model follows the code. For each of these there is a lemma that says exactly when the code is right.

- `midi_packet_length` switches on `status & 0x80`, so every status byte counts as three bytes long, although the
  case labels list lengths 1, 2 and 3. The parser theorems hold for every length table. Messages arrive exactly if the
  table knows their lengths (`EndToEnd`, `DeviceEndToEnd`); the table of the labels knows all of them (`CaseLabelsFit`),
  the one as written all but the short ones that are not realtime (`AsWrittenFits`, `AsWrittenLosesProgramChange`).
- A status that the table does not define yields nothing, except a stray SYSEX_END, which is reported as the message
  [0xF7, 0xF7] (`UndefinedStatusIff`).
- A SysEx message arrives whole only with a payload of at most two bytes (`SysExSurvives`).
- `XPROGTarget_SetTxMode` and `XPROGTarget_SetRxMode` first wait, without a timeout, for the bit count to reach zero. If
  the count is still twelve, as after a receive that timed out before its start bit, the target has to send a frame
  after all (`TransmitModeIff`, `AbandonedIff`, `AbandonedReceiveStalls`). Both a later send and the end of the session
  (`Release`) come to such a wait.
- In paged programming the poll address 0 doubles as "none yet", so on the first page the programmer can poll a byte
  it should not, and one that it can never see finished (`PollTargetIff`, `PollsDifferingIff`, `FirstPageMispolls`).
- A committed page without a poll address is meant to fall back to the timed delay. If its mode asked for ready/busy
  polling it gets no wait at all (`FallBackIff`, `WaitLostIff`, `BlankPageUnawaited`), and OK then says nothing about the
  page (`OkMeansDoneIff`).
- Word mode sets the high bit of the poll command and never clears it again (`WordPollHigh`, `WordPollsWritten`). As
  long as no byte has differed from the poll value, word and byte mode poll address 0, whatever that holds, and if it
  holds the poll value the check fails (`BlankPollSees`, `BytePassesIff`).
- The toggling loops agree with the older set/clear loops only if the host's command has bit 3 clear
  (`WriteToggleRefines`, `ReadToggleRefines`).
- PDI repeat counts are one byte: a block write needs at most 256 bytes, a block read 1 to 256 (`BlockIff`,
  `BlockReadIff`). A read of 0 bytes is the input that a host can send. Longer transfers would first not fit the
  256-byte buffers of their callers (isp/Lib/XPROG/XPROGProtocol.c, lines 280 and 375).
- `SPIMulti` does not send transmit data beyond `RxStartAddr + RxBytes` (`DeliversAllIff`).
- The extended address is not renewed when a transfer runs past 64K words (`ConsecutiveIff`).
- A TPI write from an odd address spoils a byte below it and loses its last one (`WritesRightIff`, `OddStores`).
- A TPI write of 65535 bytes would wrap its length to 0 when the pad byte is counted (`WriteMemory`); its caller's buffer
  of 256 bytes does not let it get that far.

## Model

| member | source | states |
|---|---|---|
| UsartFrames.ComputeFrame | isp/Lib/XPROG/XPROGTarget.c:303-312 | the parity loop builds the frame word of every byte: start bit, eight data bits, even parity, two stop bits |
| UsartFrames.DropLowestBit | isp/Lib/XPROG/XPROGTarget.c:311 | `x & (x - 1)` lowers the number of set bits by exactly one, so the loop ends after one turn per set bit |
| UsartFrames.TogglesParity | isp/Lib/XPROG/XPROGTarget.c:310 | one turn of the loop flips exactly the parity bit of the frame |
| UsartFrames.OneBitFewer | isp/Lib/XPROG/XPROGTarget.c:308-312 | one whole turn keeps the frame in step with the bits dropped so far, and the number gets smaller |
| UsartFrames.FrameLayout | isp/Lib/XPROG/XPROGTarget.c:317 | shifted out from the least significant end, the frame word is low start, data low bit first, even parity, high, high |
| UsartFrames.FrameAccepted | isp/Lib/XPROG/XPROGTarget.c:302-312 | start bit low, an even number of ones in data and parity bit together, both stop bits high: a receiver that checks all this accepts the frame of every byte |
| UsartFrames.ShiftInValue | isp/Lib/XPROG/XPROGTarget.c:75-78 | below bit 11, setting bit 3 of the high byte and shifting puts the pin into bit 10 and halves the rest |
| UsartFrames.IdleWaits | isp/Lib/XPROG/XPROGTarget.c:70-71 | any number of high samples before a start bit leaves word and count alone |
| UsartFrames.BitsShiftIn | isp/Lib/XPROG/XPROGTarget.c:73-79 | closed form of a partial receive: the new bits stand below bit 11, above what is left of the stale contents |
| UsartFrames.FrameReceived | isp/Lib/XPROG/XPROGTarget.c:62-80 | frame round trip for every byte, every idle time and every stale word below 2^11: count 0 and the byte in the low half, and the word is below 2^11 again |
| UsartFrames.CountLeft | isp/Lib/XPROG/XPROGTarget.c:65-80 | a waiting receive needs all twelve bits until a start bit, then one fewer with each sample |
| UsartFrames.ReceivesIff | isp/Lib/XPROG/XPROGTarget.c:65-80 | a receive completes if and only if a start bit and eleven more samples have been seen |
| SoftUsart.ControlTick | isp/Lib/XPROG/XPROGTarget.c:53-96 | an interrupt keeps the agreement of mode, count and main-line position |
| SoftUsart.ControlMain | isp/Lib/XPROG/XPROGTarget.c:371-438 | a main-line step keeps it, through every busy-wait and mode switch |
| SoftUsart.DataTick | isp/Lib/XPROG/XPROGTarget.c:69-94 | an interrupt keeps the data word below bit 11 outside a fresh frame, and cannot touch a half-stored word |
| SoftUsart.DataMain | isp/Lib/XPROG/XPROGTarget.c:317-319 | the two byte stores of the word, in either order and with interrupts between them, end with the untorn frame before the count is armed |
| SoftUsart.ConservedTick | isp/Lib/XPROG/XPROGTarget.c:81-95 | a falling edge moves one bit from the pending end to the driven end of the same sequence |
| SoftUsart.ConservedMain | isp/Lib/XPROG/XPROGTarget.c:314-319 | arming a frame appends its twelve bits; no other main-line step touches driven plus pending bits |
| SoftUsart.InOrderMain | isp/Lib/XPROG/XPROGTarget.c:291-369 | frames armed, held and still to come are always those of the calls, in call order |
| SoftUsart.HearFrame | isp/Lib/XPROG/XPROGTarget.c:302-317 | a receiver between frames, which drops frames with a wrong parity or stop bit, hears exactly one byte in the twelve bits of its frame |
| SoftUsart.HearProgram | isp/Lib/XPROG/XPROGTarget.c:291-369 | hearing the frames of a whole sequence of calls back to back gives its bytes; breaks are idle time |
| SoftUsart.SamplingRising | isp/Lib/XPROG/XPROGTarget.c:62-67 | a rising edge keeps the target in step: each driven bit is sampled once, and only idle levels are sampled between frames |
| SoftUsart.SamplingFalling | isp/Lib/XPROG/XPROGTarget.c:81-95 | a falling edge keeps it, and after a frame the line rests high |
| SoftUsart.SamplingMain | isp/Lib/XPROG/XPROGTarget.c:386-437 | the mode switches keep it: the line stays high while it changes hands |
| SoftUsart.RunInvariant | isp/Lib/XPROG/XPROGTarget.c:53-438 | every run from reset, for every interleaving of interrupts with the calls, keeps control, data, conservation, order and sampling |
| SoftUsart.Transmission | isp/Lib/XPROG/XPROGTarget.c:53-96 | driven plus pending bits are the concatenated frames armed so far, a prefix of the frames asked for; the target never hears a byte not sent, and once all is quiet has heard exactly the bytes sent |
| SoftUsart.StaleBits | isp/Lib/XPROG/XPROGTarget.c:73-79 | in every reachable not-sending state the data word is below 2^11, also after the one-bit wait and after abandoned receives |
| SoftUsart.MoreToDo | isp/Lib/XPROG/XPROGTarget.c:291-369 | a call made later changes nothing of a run that never waited for it, so a sequence of calls is one run of one program |
| UsartReception.Reception | isp/Lib/XPROG/XPROGTarget.c:327-345 | whatever the interleaving, a frame seen at the rising edges while ReceiveByte waits without a timeout is the byte it returns |
| UsartReception.TicksReceive | isp/Lib/XPROG/XPROGTarget.c:65-80 | in receive mode any interrupts take in exactly the pin levels at their rising edges |
| UsartReception.AwaitedByte | isp/Lib/XPROG/XPROGTarget.c:339-343 | if the rising edges of the wait show an idle line, then the frame of a byte, then anything, the value returned is that byte |
| UsartReception.WaitNeeds | isp/Lib/XPROG/XPROGTarget.c:386-420 | for every count: the untimed first wait of SetTxMode and of SetRxMode is over if and only if the bits left over have been sampled, after a start bit if the count is still twelve |
| UsartReception.TransmitModeIff | isp/Lib/XPROG/XPROGTarget.c:386-420 | whatever the target does on the line, a frame time of interrupts ends either wait, if and only if the bit count before the call is not that of a receive abandoned before its start bit |
| UsartReception.AbandonedIff | isp/Lib/XPROG/XPROGTarget.c:339-340 | a receive leaves that count behind if and only if it saw no start bit |
| UsartReception.AbandonedReceiveStalls | isp/Lib/XPROG/XPROGTarget.c:339-420 | the stall is reachable: after a timed-out receive a send, or the end of the session, waits for ever on a line that stays high |
| UsartReception.PulledUpIff | isp/Lib/XPROG/XPROGTarget.c:433-434 | having let go of the line, SetRxMode goes on if and only if the line has been seen high or the time is up |
| UsartProgress.TickWorks | isp/Lib/XPROG/XPROGTarget.c:53-96 | every interrupt takes some work away while there are bits to drive, to take in or to sample |
| UsartProgress.MainWorks | isp/Lib/XPROG/XPROGTarget.c:291-406 | every main-line step does, unless it waits for bits or has nothing to do |
| UsartProgress.RoundsWork | isp/Lib/XPROG/XPROGTarget.c:53-406 | any interleaving of interrupts and main-line steps takes away at least as much work as it has rounds of an interrupt followed by a main-line step |
| UsartProgress.SendsComplete | isp/Lib/XPROG/XPROGTarget.c:291-406 | every program of sends comes to an end under every interleaving: with 100 such rounds for each call, whatever else happens, all is quiet and the target has heard exactly the bytes |
| UsartTarget.Target.TimerInterrupt | isp/Lib/XPROG/XPROGTarget.c:53-96 | the interrupt in its own form is the tick of the interleaved machine; the TPI copy at lines 99-142 differs in pins only |
| UsartTarget.Target.StoreData | isp/Lib/XPROG/XPROGTarget.c:318 | two byte stores with interrupts after each |
| UsartTarget.Target.WaitForBits | isp/Lib/XPROG/XPROGTarget.c:315 | a busy-wait goes on if and only if bits are left, whatever interrupts do |
| UsartTarget.Target.WaitOneClock | isp/Lib/XPROG/XPROGTarget.c:388-391 | one dummy bit through the receive half, stored untorn |
| UsartTarget.Target.SetTxMode | isp/Lib/XPROG/XPROGTarget.c:371-406 | ends in send mode with nothing armed or received meanwhile, or is caught in a busy-wait with bits still to go |
| UsartTarget.Target.SendFrame | isp/Lib/XPROG/XPROGTarget.c:314-319 | waits for the transmitter, then arms exactly this frame after all earlier ones; never waits when no bits are left |
| UsartTarget.Target.SendByte | isp/Lib/XPROG/XPROGTarget.c:291-321 | whatever it does is a run of the machine that goes on from the run so far; if it returns, exactly the frame of the byte has been armed; if it does not, bits are still to go and nothing was armed |
| UsartTarget.Target.SendBreak | isp/Lib/XPROG/XPROGTarget.c:348-369 | the same for the twelve idle bits of a BREAK |
| UsartTarget.Target.SetRxMode | isp/Lib/XPROG/XPROGTarget.c:408-438 | in either mode: ends in receive mode with the call going on from there, or is caught in its first wait with bits still to go |
| UsartTarget.Target.Release | isp/Lib/XPROG/XPROGTarget.c:224-227 | the call that ends a session: when it returns, everything armed has been driven |
| UsartTarget.Target.ReceiveFrame | isp/Lib/XPROG/XPROGTarget.c:339-343 | the value is what the receive half made of the pin at the rising edges between arming and reading |
| UsartTarget.Target.ReceiveByte | isp/Lib/XPROG/XPROGTarget.c:327-345 | a run of the machine too; the value is what the wait made of the pin, so by AwaitedByte a frame seen there is the value; the wait ends with the last bit or with the timeout and not before |
| UsartTarget.Target.TargetHears | isp/Lib/XPROG/XPROGTarget.c:291-369 | after any calls, however interrupted, the target has heard a prefix of the bytes sent, and all of them once the last is out |
| UsbPackets.GrowsByOne | isp/Lib/ISP/ISPProtocol.c:331-338 | one more byte grows the bank or turns it into a full packet, never both |
| UsbPackets.PacketShape | isp/Lib/ISP/ISPProtocol.c:351-362 | all packets are full but exactly the last, which may be empty; joined they are the response |
| UsbPackets.HostReadsBack | isp/Lib/ISP/ISPProtocol.c:351-362 | whatever follows, the host reads the response back as exactly one bulk transfer |
| UsbPackets.Endpoint.StreamByte | isp/Lib/ISP/ISPProtocol.c:331-338 | never writes into a full bank; bank and packets stay the split of the response so far |
| UsbPackets.Endpoint.FinishWith | isp/Lib/ISP/ISPProtocol.c:351-362 | the transfer ends in a short packet for every length |
| SpiMulti.Exchange | isp/Lib/ISP/ISPProtocol.c:472-518 | exactly RxStartAddr + RxBytes transfers, transfer k sending TxData[k] or 0, the last RxBytes answers returned; no byte counter wraps |
| SpiMulti.SendLeading | isp/Lib/ISP/ISPProtocol.c:479-487 | the first loop sends the first RxStartAddr bytes of the padded transaction |
| SpiMulti.ReceiveAnswers | isp/Lib/ISP/ISPProtocol.c:490-505 | the second loop sends the rest and streams every answer |
| SpiMulti.ReceiveOne | isp/Lib/ISP/ISPProtocol.c:490-505 | one turn of it: the next byte of the padded transaction, its answer, both positions |
| SpiMulti.DeliversAllIff | isp/Lib/ISP/ISPProtocol.c:479-505 | all of TxData goes out if and only if TxBytes is at most RxStartAddr + RxBytes |
| SpiMulti.HostGetsAnswers | isp/Lib/ISP/ISPProtocol.c:507-518 | the host reads command, OK, RxBytes answers and OK back as one transfer |
| Timers.CommandTimer.Interrupt | isp/Lib/V2Protocol.c:47-51 | the timeout counts down and stays at zero |
| Polling.WaitWhileTargetBusy | isp/Lib/ISP/ISPTarget.c:154-166 | terminates with the interrupt free to fire anywhere; OK only if the last poll, and no earlier one, found the busy bit clear |
| Polling.WaitForValue | isp/Lib/ISP/ISPTarget.c:123-136 | the same for value polling: OK only if the last byte read, and no earlier one, differed from the poll value; a failure only if the time is up |
| Polling.CheckSelected | isp/Lib/ISP/ISPTarget.c:117-141 | for every mode, in its six check bits: which bit, of word or of paged mode, selects which check, and that none or several select none |
| Polling.WaitForProgComplete | isp/Lib/ISP/ISPTarget.c:111-147 | for every mode, in those bits: the bytes it puts on the bus, that they are sent at least once, what an OK says of the last answer, and which other status there can be |
| IspStreams.CommandStep | isp/Lib/ISP/ISPProtocol.c:214-215 | toggling once per byte is the command byte of the parity of the index |
| IspStreams.SetClearStep | isp/Lib/ISPProtocol.c:187-190 | setting or clearing bit 3 from the parity gives the same kind of closed form, whatever the previous byte did |
| IspStreams.AddressStep | isp/Lib/ISP/ISPProtocol.c:226-227 | incrementing on odd bytes, or on every byte for EEPROM, is start + i / 2, or start + i, in 32 bits |
| IspStreams.Address16Value | isp/Lib/ISP/ISPProtocol.c:222-223 | the poll address of a byte is the low 16 bits of start + i / 2 in flash, and of start + i in EEPROM |
| IspStreams.WriteToggleRefines | isp/Lib/ISP/ISPProtocol.c:202-228 | the toggling write loop sends the same stream as the older set/clear loop if and only if bit 3 of the command is clear or there is no data |
| IspStreams.ReadToggleRefines | isp/Lib/ISP/ISPProtocol.c:325-349 | the same for the read loops |
| IspStreams.NothingToPoll | isp/Lib/ISP/ISPProtocol.c:218-224 | without a byte that differs from the poll value the poll address stays 0 and the read command unchanged |
| IspStreams.FirstChoiceStands | isp/Lib/ISP/ISPProtocol.c:218-224 | the first differing byte is chosen and no later one replaces it, unless its 16-bit address is 0 |
| IspStreams.PollTargetIff | isp/Lib/ISP/ISPProtocol.c:217-224 | flash and EEPROM: polling names the first differing byte if and only if its 16-bit address is not 0 and, in flash, the read command came with the high bit clear or the byte is a high half |
| IspStreams.PollAddressZeroIff | isp/Lib/ISP/ISPProtocol.c:218-224 | the poll address stays 0 if and only if every differing byte has the 16-bit address 0 |
| IspStreams.ChosenTarget | isp/Lib/ISP/ISPProtocol.c:218-224 | which byte is chosen, and that the high bit is set for any odd differing byte up to it, also for one that was passed over |
| IspStreams.PollsDifferingIff | isp/Lib/ISP/ISPProtocol.c:218-224 | polling can tell a finished write from an unfinished one if and only if the byte read differs from the poll value, in terms of the data and the host's command |
| IspStreams.FirstPageMispolls | isp/Lib/ISP/ISPProtocol.c:218-224 | a concrete first page on which the chosen address and half name a byte equal to the poll value |
| IspLegacy.LegacyProgrammer.WritePage | isp/Lib/ISPProtocol.c:182-207 | the older loop sends exactly the set/clear stream and ends at the same address |
| IspLegacy.LegacyProgrammer.Read | isp/Lib/ISPProtocol.c:300-323 | the older read loop, likewise |
| IspProgrammer.Programmer.LoadAddress | isp/Lib/V2Protocol.c:241-253 | sets the address and marks the extension as due |
| IspProgrammer.Programmer.ExtendIfDue | isp/Lib/ISP/ISPProtocol.c:188-194 | LOAD EXTENDED ADDRESS goes out if and only if it is due and bit 31 is set, with bits 23..16 |
| IspProgrammer.Programmer.WritePage | isp/Lib/ISP/ISPProtocol.c:202-228 | the loop sends the toggled write stream, advances the address by one per word, and leaves the poll target of the scan |
| IspProgrammer.Programmer.WriteWords | isp/Lib/ISP/ISPProtocol.c:252-283 | each write is followed by its own check; all checks but the last succeeded, the first failure ends the loop, and the status is that of the last check |
| IspProgrammer.WordPollHigh | isp/Lib/ISP/ISPProtocol.c:267-273 | the high bit of the poll command is set if and only if the host set it or an odd byte so far differed from the poll value |
| IspProgrammer.WordPollsWritten | isp/Lib/ISP/ISPProtocol.c:267-279 | word mode polls a differing byte right after writing it if and only if it is a high half, or no odd byte before it differed and the host's command had the bit clear |
| IspProgrammer.Programmer.WriteWord | isp/Lib/ISP/ISPProtocol.c:254-279 | one turn of that loop: the poll target follows the last differing byte, and the check sees the state after the write |
| IspProgrammer.Programmer.CommitPage | isp/Lib/ISP/ISPProtocol.c:231-246 | the commit goes to the start address, then the check of the mode, or of its fallback without a poll address |
| IspProgrammer.Programmer.ProgramMemory | isp/Lib/ISP/ISPProtocol.c:144-289 | whole command: a length above 256 fails without any traffic; otherwise the whole traffic, the final address, and a reply with the command of the host and the outcome of the completion check |
| IspProgrammer.Programmer.ReadLoop | isp/Lib/ISP/ISPProtocol.c:325-349 | the read stream goes out and every answer is streamed to the host |
| IspProgrammer.Programmer.ReadOne | isp/Lib/ISP/ISPProtocol.c:328-348 | one turn of it: instruction, answer, command byte and address |
| IspProgrammer.Programmer.ReadMemory | isp/Lib/ISP/ISPProtocol.c:296-363 | for every length from 0 to 65535: command, OK, the bytes read, OK, in full packets and one short one; the address moves by one per word |
| IspProgrammer.FallBackIff | isp/Lib/ISP/ISPProtocol.c:239-243 | a commit without a poll address gets the timed delay if and only if its mode asks for paged delay or paged value alone; otherwise nothing is waited for |
| IspProgrammer.PageCheckIs | isp/Lib/ISP/ISPProtocol.c:217-246 | which check follows a committed page, for every mode, start and data |
| IspProgrammer.ReadyBusyFallBack | isp/Lib/ISP/ISPProtocol.c:239-243 | every mode that asks for ready/busy polling loses its wait without a poll address |
| IspProgrammer.PageUnawaitedIff | isp/Lib/ISP/ISPProtocol.c:217-246 | for every mode, start and data: exactly when a committed page is not waited for at all |
| IspProgrammer.WaitLostIff | isp/Lib/ISP/ISPProtocol.c:239-246 | a page loses the one check its mode asks for if and only if no byte names a poll address and the mode asks for ready/busy polling or a word-mode check |
| IspProgrammer.BlankPageUnawaited | isp/Lib/ISP/ISPProtocol.c:239-246 | the input: any page of blank bytes in mode 0xC1 |
| IspProgrammer.FallBackBits | isp/Lib/ISP/ISPProtocol.c:241-242 | the two bit operations clear bit 5, set bit 4 and leave the other six bits |
| IspRoundTrip.PageWrite | isp/Lib/ISP/ISPProtocol.c:207-215 | one write instruction lands in the page buffer at its word, in the half its parity names |
| IspRoundTrip.PageLoads | isp/Lib/ISP/ISPProtocol.c:202-228 | from any start the stream loads the page buffer, address bits above the page being ignored, and touches nothing else |
| IspRoundTrip.PageWrites | isp/Lib/ISP/ISPProtocol.c:202-228 | within a page it fills exactly its part of the buffer |
| IspRoundTrip.CommitPrograms | isp/Lib/ISP/ISPProtocol.c:231-236 | the commit writes exactly those bytes to erased flash, and erases the buffer |
| IspRoundTrip.ChecksHarmless | isp/Lib/ISP/ISPTarget.c:117-141 | completion polling leaves the target as it is, however often it polls |
| IspRoundTrip.PagePrograms | isp/Lib/ISP/ISPProtocol.c:188-246 | any target, any start, any data: the command and-s the page buffer into the page of its start address, and polls change nothing |
| IspRoundTrip.PageProgrammed | isp/Lib/ISP/ISPProtocol.c:188-246 | on a target that is ready for it, exactly its bytes of the flash change, byte i at half i of the start word |
| IspRoundTrip.HoldsIffTakes | isp/Lib/ISP/ISPProtocol.c:202-236 | within a page the flash holds the data afterwards if and only if it had ones wherever the data has |
| IspRoundTrip.ReadingAnswer | isp/Lib/ISP/ISPProtocol.c:328-348 | the answer to the i-th read instruction of any transfer: the flash byte of the low 16 address bits, the half of the parity, and the extended register |
| IspRoundTrip.ReadingIsFlash | isp/Lib/ISP/ISPProtocol.c:328-348 | within 64K words that is byte i from the start word |
| IspRoundTrip.ConsecutiveIff | isp/Lib/ISP/ISPProtocol.c:347-348 | the target answers with consecutive bytes, for every content of its flash, if and only if the transfer does not run past its 64K words |
| IspRoundTrip.ReadingsAreFlash | isp/Lib/ISP/ISPProtocol.c:325-349 | a read of any length within 64K words returns that range of the flash |
| IspRoundTrip.ReadBack | isp/Lib/ISP/ISPProtocol.c:316-349 | the extended address and the read instructions leave the flash as it is, and the answers are the flash bytes addressed |
| IspRoundTrip.FlashIndexIs | isp/Lib/ISP/ISPTarget.c:172-178 | with bit 31 set the host's address names a word of flash in 24 bits, over all banks |
| IspRoundTrip.PollSeesFlash | isp/Lib/ISP/ISPProtocol.c:222-246 | the value polling after a commit reads, in the flash as programmed, the word of the chosen byte, in the half of the poll command |
| IspRoundTrip.PollSeesData | isp/Lib/ISP/ISPProtocol.c:222-246 | on a ready target that is a byte of the data |
| IspRoundTrip.PollPassesIff | isp/Lib/ISP/ISPProtocol.c:222-246 | so it can pass, after whole words, if and only if PollsDifferingIff says so |
| IspRoundTrip.ProgramAt | isp/Lib/ISP/ISPProtocol.c:144-289 | load and program, run against any target: it becomes what the command is to make of it |
| IspRoundTrip.ReadAt | isp/Lib/ISP/ISPProtocol.c:296-363 | load and read, run against any target: the packets hold the flash bytes addressed |
| IspRoundTrip.ProgramThenRead | isp/Lib/ISP/ISPProtocol.c:144-363 | load, program, load, read, for any target, start and data: exactly these four responses; the target becomes what the command is to make of it; the host gets back what it programmed if and only if it takes, within a page; on an erased target every other flash byte is unchanged; the address ends at start + n / 2 |
| IspRoundTrip.ErasedDeviceIsReady | isp/Lib/ISP/ISPProtocol.c:144-363 | an erased device with the AVR opcodes and 128-word pages meets all of its conditions |
| SlowTargets.SettledTake | isp/Lib/ISP/ISPTarget.c:117-141 | a target that needs time to program does what a fast one does, only later, as long as it is only polled meanwhile |
| SlowTargets.OkMeansDone | isp/Lib/ISP/ISPTarget.c:117-147 | however long the target takes: if the last poll passes, the page is programmed |
| SlowTargets.OkTooSoon | isp/Lib/ISP/ISPTarget.c:117-147 | without such a check there is a target that is still busy |
| SlowTargets.OkMeansDoneIff | isp/Lib/ISP/ISPTarget.c:117-147 | so an OK answers for the page if and only if the check is busy polling, or value polling for the value that a page under way reads as |
| SlowTargets.ProgramSlowly | isp/Lib/ISP/ISPProtocol.c:144-289 | the command itself, run against a slow target: OK after such a check means that the page is programmed |
| DirectTargets.ChecksHarmless | isp/Lib/ISP/ISPTarget.c:117-141 | completion polling leaves a byte-wise target as it is |
| DirectTargets.WordsWritten | isp/Lib/ISP/ISPProtocol.c:252-283 | word and byte mode, run against EEPROM or pageless flash: the bytes whose checks were made are written one after the other, each at its own cell, and nothing else changes |
| DirectTargets.PlacesFollowOn | isp/Lib/ISP/ISPProtocol.c:275-276 | within 64K addresses byte i goes to the i-th cell from the start |
| DirectTargets.WrittenAt | isp/Lib/ISP/ISPProtocol.c:252-283 | cell by cell: what a transfer leaves where |
| DirectTargets.HoldsIff | isp/Lib/ISP/ISPProtocol.c:252-283 | the memory holds the data afterwards if and only if it takes: flash if it had ones wherever the data has |
| DirectTargets.EepromTakes | isp/Lib/ISP/ISPProtocol.c:252-283 | EEPROM takes everything |
| DirectTargets.ReadingAnswer | isp/Lib/ISP/ISPProtocol.c:328-348 | the answer to the i-th read instruction is the cell of byte i, of EEPROM or of flash |
| DirectTargets.ReadBack | isp/Lib/ISP/ISPProtocol.c:316-349 | reading changes nothing, and every answer is the cell that its instruction names |
| DirectTargets.AnswerIsMemory | isp/Lib/ISP/ISPProtocol.c:325-349 | within 64K addresses the answers are memory[at..at + n] |
| DirectTargets.LastPoll | isp/Lib/ISP/ISPProtocol.c:267-279 | value polling after a byte reads the cell of the poll target, in the memory as written so far |
| DirectTargets.SaidAfter | isp/Lib/ISP/ISPProtocol.c:252-283 | after the bytes and checks of any transfer: the memory, and what the last poll said |
| DirectTargets.BytePollSees | isp/Lib/ISP/ISPProtocol.c:267-279 | in EEPROM that is the last byte so far that differs from the poll value |
| DirectTargets.BlankPollSees | isp/Lib/ISP/ISPProtocol.c:267-279 | while none has differed, cell 0 is polled |
| DirectTargets.BytePassesIff | isp/Lib/ISP/ISPProtocol.c:267-279 | the check of a byte passes if and only if it or one before it differs from the poll value, or cell 0 does |
| DirectTargets.WordPollSees | isp/Lib/ISP/ISPProtocol.c:267-279 | in flash it is, in the word of that byte, the half that the sticky high bit names |
| DirectTargets.ProgramDirectly | isp/Lib/ISP/ISPProtocol.c:144-289 | the command itself: the memory gets a prefix of the data, all of it if the reply, which has the command of the host, says OK |
| DirectTargets.ReadDirectly | isp/Lib/ISP/ISPProtocol.c:296-363 | load and read: the host gets its command, OK, the cells addressed and OK, in packets |
| DirectTargets.ProgramThenReadDirectly | isp/Lib/ISP/ISPProtocol.c:144-363 | load, program in word or byte mode, load, read: exactly these four responses; if the programming says OK, the host gets its data back if and only if it takes, and from EEPROM always |
| EepromPages.PageLoads | isp/Lib/ISP/ISPProtocol.c:202-228 | from any start the stream loads the EEPROM page, and touches nothing else |
| EepromPages.PagePrograms | isp/Lib/ISP/ISPProtocol.c:188-246 | any EEPROM, any start, any data: with the commit bit the loaded bytes go into the page of the start address, without it they are only loaded |
| EepromPages.CommitPrograms | isp/Lib/ISP/ISPProtocol.c:231-236 | within a page exactly the bytes of the data change |
| EepromPages.ChosenByte | isp/Lib/ISP/ISPProtocol.c:218-224 | the byte that sets the poll address is the byte polled |
| EepromPages.PagePollSees | isp/Lib/ISP/ISPProtocol.c:222-246 | and it differs from the poll value: value polling of a page of EEPROM passes |
| EepromPages.ProgramPageThenRead | isp/Lib/ISP/ISPProtocol.c:144-363 | load, program a page, load, read: exactly these four responses, and the host gets its data back from every EEPROM |
| ExtendedAddress.BodyKeeps | isp/Lib/ISP/ISPProtocol.c:196-284 | apart from LOAD EXTENDED ADDRESS, the traffic of a command is whole instructions, none of which is that one |
| ExtendedAddress.ExecTracked | isp/Lib/ISP/ISPProtocol.c:188-194 | every command keeps: once no longer due, the register is that of the loaded address |
| ExtendedAddress.SessionTracked | isp/Lib/V2Protocol.c:75-148 | and so does every session |
| ExtendedAddress.AccessesSeeLoadedBank | isp/Lib/ISP/ISPProtocol.c:316-322 | over every session, after every single byte of a command's accesses: the target has carried out at most one LOAD EXTENDED ADDRESS since the last load, only if bit 31 was set, and then its register holds bits 23..16 of the loaded address |
| ExtendedAddress.ProcessCommand | isp/Lib/V2Protocol.c:92-112 | for load, program and read commands the dispatched methods move address, flag and traffic exactly as the session does |
| SpiTarget.FeedInstruction | isp/Lib/ISP/ISPProtocol.c:207-210 | four bytes from an instruction boundary are one instruction, and end at a boundary |
| SpiTarget.PageOffsetIsRemainder | isp/Lib/ISP/ISPProtocol.c:207-210 | the place in the page buffer is the address modulo the page size |
| SpiTarget.ExtendEffect | isp/Lib/ISP/ISPTarget.c:172-178 | the four bytes sent set the extended register and nothing else |
| SpiTarget.ExtensionsInstruction | isp/Lib/ISP/ISPTarget.c:172-178 | an instruction counts as LOAD EXTENDED ADDRESS if and only if its first byte is that opcode |
| SpiTarget.RegisterKept | isp/Lib/ISP/ISPTarget.c:172-178 | nothing else changes the extended address register |
| SpiTarget.PollsHarmless | isp/Lib/ISP/ISPTarget.c:125-131 | any number of read or busy polls leaves the target unchanged |
| PdiTargets.AddressRoundTrip | isp/Lib/XPROG/XMEGANVM.c:45-52 | four bytes, least significant first, decode to the address |
| PdiTargets.LdsEffect | isp/Lib/XPROG/XMEGANVM.c:100-101 | LDS with its address makes exactly one byte due, from that address |
| PdiTargets.StsEffect | isp/Lib/XPROG/XMEGANVM.c:128-130 | STS stores one byte at its address and is back at an instruction boundary |
| PdiTargets.PointerEffect | isp/Lib/XPROG/XMEGANVM.c:181-182 | the pointer load sets the pointer and nothing else |
| PdiTargets.RepeatEffect | isp/Lib/XPROG/XMEGANVM.c:185-186 | REPEAT takes one count byte |
| PdiTargets.BlockStoresAt | isp/Lib/XPROG/XMEGANVM.c:277-278 | byte i of a block is stored at the i-th address from the pointer |
| PdiTargets.RunStores | isp/Lib/XPROG/XMEGANVM.c:276-278 | inside a run every byte is stored at the next address, and the last one ends the run |
| PdiTargets.HeaderEffect | isp/Lib/XPROG/XMEGANVM.c:272-276 | the three header bytes open a run of (n - 1) mod 256 + 1 bytes |
| PdiTargets.BlockIff | isp/Lib/XPROG/XMEGANVM.c:271-278 | a nonempty block is stored as asked if and only if it has at most 256 bytes |
| PdiTargets.GivesLoads | isp/Lib/XPROG/XMEGANVM.c:190-191 | receiving takes the due bytes from consecutive addresses, modulo 2^32; receiving more is a fault |
| PdiTargets.LoadHeaderEffect | isp/Lib/XPROG/XMEGANVM.c:185-189 | the header of a read makes (n - 1) mod 256 + 1 bytes due |
| PdiTargets.BlockReadIff | isp/Lib/XPROG/XMEGANVM.c:184-191 | a block read ends between instructions, with nothing due and nothing asked in vain, if and only if it has 1 to 256 bytes |
| XmegaNvm.RegisterAddressAdds | isp/Lib/XPROG/XMEGANVM.c:58-65 | or-ing a register number into the base address adds it, when the base has six zero bits for it |
| XmegaNvm.StatusBits | isp/Lib/XPROG/XMEGANVM.c:79-104 | the waits look at bit 1 of the PDI status and at bit 7 of the NVM status |
| XmegaNvm.PdiWire.SendAddress | isp/Lib/XPROG/XMEGANVM.c:45-52 | exactly the four address bytes |
| XmegaNvm.Programmer.WaitWhileNVMBusBusy | isp/Lib/XPROG/XMEGANVM.c:72-87 | ready if and only if the last status answer, and no earlier one, had the NVM bit; stores nothing, ends between instructions, terminates |
| XmegaNvm.Programmer.WaitWhileNVMControllerBusy | isp/Lib/XPROG/XMEGANVM.c:94-112 | the same for the BUSY bit of the status register; it terminates whatever the target does |
| XmegaNvm.Programmer.ReadBlock | isp/Lib/XPROG/XMEGANVM.c:180-191 | for every size: the target ends between instructions if and only if there were 1 to 256 bytes, and then buffer[i] is its answer for address + i |
| XmegaNvm.Programmer.ReadMemory | isp/Lib/XPROG/XMEGANVM.c:169-194 | one store of the read command, then the block, for every size including 0; a timeout leaves buffer and target alone |
| XmegaNvm.Programmer.GetMemoryCRC | isp/Lib/XPROG/XMEGANVM.c:121-159 | command, CMDEX, the two waits, then the three bytes from the data registers; whatever fails, the stores are a prefix and the target is between instructions |
| XmegaNvm.Programmer.WriteByteMemory | isp/Lib/XPROG/XMEGANVM.c:204-221 | command and byte are stored, or nothing is |
| XmegaNvm.Programmer.WriteBlock | isp/Lib/XPROG/XMEGANVM.c:267-278 | stores WriteBuffer[i] at WriteAddress + i for every i, and nothing else, if and only if there are at most 256 |
| XmegaNvm.Programmer.FillBuffer | isp/Lib/XPROG/XMEGANVM.c:256-279 | the command and the block, or nothing after a timeout, with the same exact bound |
| XmegaNvm.Programmer.WritePageMemory | isp/Lib/XPROG/XMEGANVM.c:235-299 | up to 256 bytes it decodes to exactly: optional buffer erase, the block, optional page commit, a prefix of this after a timeout, and ends between instructions; without a commit it does so if and only if there are at most 256 |
| XmegaNvm.Programmer.EraseMemory | isp/Lib/XPROG/XMEGANVM.c:308-340 | a chip erase is started by CMDEX, any other by a store of 0 to its address; nothing else is stored |
| XmegaNvm.Perform | isp/Lib/XPROG/XMEGANVM.c:72-340 | any of the operations, with 1 to 256 bytes to read or up to 256 to write: it stores all it should, or after a timeout a part from its start, and ends between instructions |
| XmegaNvm.PerformAll | isp/Lib/XPROG/XMEGANVM.c:72-340 | any sequence of such calls: the decoder is between instructions after each of them, and what it has stored is what the calls stored, one after the other |
| XmegaMemories.Registers | isp/Lib/XPROG/XMEGANVM.c:58-65 | the four registers are at their offsets from the base |
| XmegaMemories.Started | isp/Lib/XPROG/XMEGANVM.c:132-140 | a command and CMDEX start exactly that command |
| XmegaMemories.Accessed | isp/Lib/XPROG/XMEGANVM.c:213-219 | a command and a store into the memory carry it out there |
| XmegaMemories.BlockLoads | isp/Lib/XPROG/XMEGANVM.c:262-278 | a block loads the page buffer from its place on |
| XmegaMemories.PageStoresOperate | isp/Lib/XPROG/XMEGANVM.c:235-299 | the stores of a page write erase the page buffer if and only if And(PageMode, 1) is not 0, load the data, and write the page if and only if And(PageMode, 2) is not 0 |
| XmegaMemories.PageWrites | isp/Lib/XPROG/XMEGANVM.c:235-299 | within a page: with the write bit, and the erase bit or an erased buffer, each byte of the data is and-ed into its place and no other byte changes; without the write bit none does |
| XmegaMemories.PageHoldsIff | isp/Lib/XPROG/XMEGANVM.c:235-299 | so the memory holds the data afterwards if and only if it had ones wherever the data has |
| XmegaMemories.WritePageTo | isp/Lib/XPROG/XMEGANVM.c:235-299 | the operation itself against a controller, for any page mode |
| XmegaMemories.EraseIn | isp/Lib/XPROG/XMEGANVM.c:308-340 | chip erase clears the whole memory, a page erase the page of its address |
| XmegaMemories.ReadFrom | isp/Lib/XPROG/XMEGANVM.c:169-194 | the controller is told to read, and the buffer gets the bytes of its memory |
| TpiTargets.IoAddressRoundTrip | isp/Lib/XPROG/TINYNVM.c:55-71 | the moved high bits of a register address are recovered by the target for every address |
| TpiTargets.SinBits | isp/Lib/XPROG/TINYNVM.c:55-60 | the or, mask and shift of the source put the address into the opcode without overlap |
| TpiTargets.SoutBits | isp/Lib/XPROG/TINYNVM.c:66-71 | the same for SOUT |
| TpiTargets.SinDecodes | isp/Lib/XPROG/TINYNVM.c:55-60 | the byte sent is read as SIN from that register, whatever its address |
| TpiTargets.SoutDecodes | isp/Lib/XPROG/TINYNVM.c:66-71 | the same for SOUT |
| TpiTargets.WordStored | isp/Lib/XPROG/TINYNVM.c:180-186 | the four bytes sent for a word are two stores through the pointer, at any address |
| TpiTargets.WordDecodes | isp/Lib/XPROG/TINYNVM.c:180-186 | from an even pointer, two stores program one whole word and move on by two |
| TpiTargets.OddStartTearsWords | isp/Lib/XPROG/TINYNVM.c:180-186 | from an odd pointer they complete the word below with a stale latch, and leave the second byte only latched |
| TpiTargets.EvenStores | isp/Lib/XPROG/TINYNVM.c:174-190 | a whole write from an even address programs each byte into its own place |
| TpiTargets.OddStores | isp/Lib/XPROG/TINYNVM.c:174-190 | a whole write from an odd address spoils the byte below with the latch, and reaches one place less |
| TpiTargets.LastByteLost | isp/Lib/XPROG/TINYNVM.c:174-190 | its last byte never arrives, on any target |
| TpiTargets.WritesRightIff | isp/Lib/XPROG/TINYNVM.c:157-193 | whole words reach the flash of every target if and only if the address is even or there are none |
| TpiTargets.ProgrammedErased | isp/Lib/XPROG/TINYNVM.c:174-190 | on erased flash programming is writing |
| TinyNvm.Programmer.SendPointerAddress | isp/Lib/XPROG/TINYNVM.c:42-49 | sets the whole 16-bit pointer, whatever it was |
| TinyNvm.BusyFlag | isp/Lib/XPROG/TINYNVM.c:108 | the wait looks at bit 7 of the status |
| TinyNvm.Programmer.WaitWhileNVMControllerBusy | isp/Lib/XPROG/TINYNVM.c:99-116 | ready if and only if the last poll, and no earlier one, found the flag clear; changes nothing but the number of polls |
| TinyNvm.Programmer.ReadMemory | isp/Lib/XPROG/TINYNVM.c:126-147 | under the NOOP command byte i is the flash byte at address + i, modulo 2^16, or 0xFF beyond the flash; after a timeout nothing is touched |
| TinyNvm.Programmer.WriteWords | isp/Lib/XPROG/TINYNVM.c:174-190 | the target takes a whole-word prefix of the data, and all of it on success, from any address |
| TinyNvm.Programmer.WriteMemory | isp/Lib/XPROG/TINYNVM.c:157-193 | the target takes buf and one 0xFF after an odd length, a whole-word prefix after a timeout; from an even address byte i is programmed at address + i and no other byte, not even by the pad byte; a length of 65535 wraps and stores nothing |
| TinyNvm.PadKeeps | isp/Lib/XPROG/TINYNVM.c:159-164 | the pad byte changes nothing |
| TinyNvm.WriteThenRead | isp/Lib/XPROG/TINYNVM.c:126-193 | from any address the read gets what the stores have made of the flash; from an even one that is the buffer if and only if the flash had ones wherever the buffer has |
| TinyNvm.ErasedTakes | isp/Lib/XPROG/TINYNVM.c:126-193 | on erased flash it always is |
| ByteQueues.ByteQueue.constructor | avr-midi/bytequeue/bytequeue.c:23-27 | an empty queue over the given array |
| ByteQueues.ByteQueue.Enqueue | avr-midi/bytequeue/bytequeue.c:29-42 | appends, or refuses if and only if one slot is left; the slots of queued bytes do not change |
| ByteQueues.ByteQueue.Length | avr-midi/bytequeue/bytequeue.c:44-54 | the number of queued bytes on both sides of the wrap |
| ByteQueues.ByteQueue.Get | avr-midi/bytequeue/bytequeue.c:57-59 | the index-th oldest byte |
| ByteQueues.ByteQueue.Remove | avr-midi/bytequeue/bytequeue.c:62-67 | drops exactly the oldest bytes |
| ByteQueues.ByteQueue.SlotHolds | avr-midi/bytequeue/bytequeue.c:57-59 | array index and queue position agree across the wrap |
| ByteQueues.ByteQueue.KeepsSlots | avr-midi/bytequeue/bytequeue.c:37 | the slot written by an enqueue holds no queued byte |
| MidiDevices.MidiDevice.constructor | avr-midi/midi_device.c:16-19 | a new device has accepted, parsed and reported nothing |
| MidiDevices.MidiDevice.Input | avr-midi/midi_device.c:43-61 | at most three bytes; exactly those that find room are accepted, in order |
| MidiDevices.MidiDevice.ReceiveInterrupt | MIDI.c:94-97 | the next byte of the line is accepted, unless the queue is full |
| MidiDevices.MidiDevice.ReceiveInterrupts | MIDI.c:94-97 | any number of interrupts keeps the device invariant and only appends; while there is room, nothing of the line is lost |
| MidiDevices.MidiDevice.ProcessStatus | avr-midi/midi_device.c:86-134 | the in-place status branch is the parser function, state and callbacks |
| MidiDevices.MidiDevice.ProcessData | avr-midi/midi_device.c:135-168 | the in-place data branch is the parser function |
| MidiDevices.MidiDevice.ProcessByte | avr-midi/midi_device.c:82-169 | state and callbacks stay those of a run over all bytes processed |
| MidiDevices.MidiDevice.UnlockedGet | avr-midi/midi_device.c:73 | the unlocked read returns the front byte even if interrupts fall inside it |
| MidiDevices.MidiDevice.ProcessNext | avr-midi/midi_device.c:72-79 | get, parse, remove, with interrupts between any two: exactly the front byte is processed |
| MidiDevices.MidiDevice.Process | avr-midi/midi_device.c:67-80 | each call processes exactly its snapshot; accepted bytes are always processed bytes followed by the queue; while there is room, nothing is lost |
| MidiDevices.MidiDevice.Settle | avr-midi/midi_device.c:67-80 | when the line falls silent, one more call leaves nothing in the queue |
| MidiDevices.MidiDevice.Drained | avr-midi/midi_device.c:67-80 | a drained device has reported exactly the run over everything accepted |
| MidiParser.KindsOfBytes | avr-midi/midi.c:29-35 | status bytes have the top bit set, realtime bytes are 0xF8 to 0xFF |
| MidiParser.RunBounds | avr-midi/midi_device.c:82-169 | every run keeps the three-byte buffer, a count of at most 3, and callbacks of 1 to 3 bytes, for every table |
| MidiParser.RealtimeTransparent | avr-midi/midi_device.c:83-85 | for every table and state, SysEx included: inserted realtime bytes change neither the final state nor the other messages, and each is passed on alone |
| MidiParser.StatusCompletes | avr-midi/midi_device.c:86-134 | after a status byte the state remembers just it, and the callback is what the stateless look-back gives |
| MidiParser.DataCompletes | avr-midi/midi_device.c:135-168 | the same after a data byte |
| MidiParser.PlainTrace | avr-midi/midi_device.c:82-169 | without realtime bytes the callbacks are exactly the segments of the stream, and the state what its last two bytes say |
| MidiParser.TraceTheorem | avr-midi/midi_device.c:82-169 | trace theorem for every table and every stream that never enters SysEx: each status of length k gives one message at its (k-1)-th data byte, if no other status intervenes; a stray SYSEX_END gives [0xF7, 0xF7]; other undefined statuses and leftover data bytes give nothing |
| MidiParser.UndefinedStatusIff | avr-midi/midi_device.c:103-129 | outside SysEx an undefined status yields nothing if and only if it is not SYSEX_END, which is reported as [0xF7, 0xF7] |
| MidiParser.AsWrittenNeverSysEx | avr-midi/midi.c:37-65 | with the mask as written every status byte is three bytes long, so the trace theorem covers every stream |
| MidiParser.SysExPrefix | avr-midi/midi_device.c:105-109 | what has come out, and what is stored, inside a SysEx message of any length |
| MidiParser.SysExDelivery | avr-midi/midi_device.c:105-166 | exactly what a SysEx message of any length comes out as |
| MidiParser.SysExSurvives | avr-midi/midi_device.c:161-165 | a SysEx message survives byte for byte if and only if its payload has at most two bytes |
| MidiSend.StatusBits | avr-midi/midi.c:67-131 | the status bytes as the source makes them, with mask and or, carry kind and channel |
| MidiSend.DataBits | avr-midi/midi.c:67-174 | masking with 0x7F keeps the low seven bits |
| MidiSend.DecodeEncode | avr-midi/midi.c:67-185 | every send decodes to itself, clamped to the ranges MIDI carries; the reading is partial, and takes only a whole message with a known status |
| MidiSend.EncodeDecode | avr-midi/midi.c:67-185 | every message that can be read is what the send it reads as puts on the wire |
| MidiSend.EncodeSends | avr-midi/midi.c:67-185 | status first, then data, and zeros for the arguments not used |
| MidiSend.BendRoundTrip | avr-midi/midi.c:103-117 | the pitch bend data pair decodes to the amount clamped to -0x2000..0x1FFF |
| MidiSend.SongRoundTrip | avr-midi/midi.c:169-174 | the song position decodes to its low 14 bits |
| MidiSend.DeliveredIff | avr-midi/midi_device.c:82-169 | outside SysEx a packet is reported as itself if and only if the table gives its status the packet's own length, or it is realtime |
| MidiSend.PacketReport | avr-midi/midi_device.c:82-169 | what any table makes of any packet met outside SysEx |
| MidiSend.EndToEnd | avr-midi/midi_device.c:258-260 | from every non-SysEx state the catch-all callback gets exactly the messages sent, in order, if and only if every send fits the table; never more messages than sends |
| MidiSend.CaseLabelsFit | avr-midi/midi.c:37-65 | with the table the case labels describe, all sends fit |
| MidiSend.CaseLabelsExact | avr-midi/midi.c:37-65 | the labels give a status a length if and only if there is a message of that length with it |
| MidiSend.AsWrittenFits | avr-midi/midi.c:37-65 | with the table as written a sequence fits if and only if it has no program change, channel pressure, quarter frame, song select or tune request |
| MidiSend.AsWrittenLosesProgramChange | avr-midi/midi.c:119-124 | as written, every program change is lost, from every state outside SysEx |
| MidiSend.StreamEndToEnd | avr-midi/midi_device.c:82-169 | the same for a receiver with any past outside SysEx |
| MidiSend.SendOne | MIDI.c:133-146 | a send, its bytes on the line, and the main loop coming round before the queue could fill up: nothing is lost |
| MidiSend.DeviceEndToEnd | avr-midi/midi_device.c:43-80 | sender, wire, interrupts, queue and parser together, from any device outside SysEx with an empty queue: the callbacks gain exactly the messages sent if and only if every send fits the table |
| MidiSend.SerialPort.Send | MIDI.c:133-146 | at most three bytes go to the wire, in order |
| Debounce.RegisterBits | MIDI.c:218-230 | the low n bits of the register are the last n samples, with zeros before the first |
| Debounce.RegisterSteady | MIDI.c:234-241 | the two register tests hold if and only if the last eight samples are equal |
| Debounce.EdgeIff | MIDI.c:233-249 | an event is sent if and only if the sample completes eight equal ones of the level not held |
| Debounce.ValuesAlternate | MIDI.c:233-249 | the values sent for an input alternate 0, 127, 0, ... over every run |
| Debounce.EventsApart | MIDI.c:233-249 | events of one input are at least eight samples apart |
| Debounce.BouncesSendNothing | MIDI.c:167-171 | as long as no eight samples in a row are high, nothing is ever sent |
| Debounce.InputsIndependent | MIDI.c:233-249 | over every run, what is sent for one input depends on its own samples alone |
| Debounce.Inputs.constructor | MIDI.c:167-171 | all-zero history, nothing sent |
| Debounce.Inputs.Sample | MIDI.c:218-249 | one pass of the loop sends exactly the events of the specification, in input order, and keeps registers and levels |
| Debounce.Inputs.CheckInput | MIDI.c:233-249 | one register test sends exactly the event of its input, and touches no other |

## Left out

- Register setup, pin directions, LEDs, delays, the ADC, EEPROM parameters, USB descriptors and the LUFA library: hardware plumbing. Endpoint banks, SPI transfers and wire bytes are histories.
- The hardware USART branches of isp/Lib/XPROG/XPROGTarget.c: nothing of the protocol is visible in them.
- The start of a bit-banged session: runs begin with the count at zero, the line high and the word below 2^11, as after reset. A count left over from an abandoned receive is the stall of `TransmitModeIff`.
- Electrical turnaround, and what a target does after a receive timeout: the PDI and TPI targets answer every load.
- The bits of PDI and TPI bytes: `XmegaNvm` and `TinyNvm` send and receive whole bytes, as `SoftUsart` delivers them.
- The controller behind the stores of an XMEGA is ready at once and has one memory: `XmegaMemories` takes the answers to the waits as given, and leaves out fuses, lock bits and the CRC engine.
- How long things take: time passes at every wait, so a wait on `TimeoutMSRemaining` may come to its end at any turn, and the untimed busy-waits of `UsartTarget` are watched for an arbitrary finite time, after which a call is reported as still waiting.
- XmegaNvm.Programmer.WritePageMemory: beyond 256 bytes with a commit, it only says that the operation comes to an end; what the target makes of the commit then depends on the data it takes for instructions.
- IspRoundTrip.ProgramThenRead: across a page border it says what the target's flash and the answer become, not when that is the data; hosts write within a page.
- IspRoundTrip.PageProgrammed: its target programs at once; a target that needs time is in `SlowTargets`, without the timed delay, whose length is not part of the model.
- SlowTargets.OkMeansDoneIff: the timed delay takes no time in the model and so counts as no wait; whether it is long enough is the host's choice.
- ExtendedAddress.AccessesSeeLoadedBank: leaves out host command bytes that are 0x4D themselves, with which a host would send LOAD EXTENDED ADDRESS as its read or write command.
- ExtendedAddress.ProcessCommand: the other commands of the dispatch are not part of it. Entering programming mode resets the target and `CurrentAddress`, but not `MustSetAddress`; sessions are those of one programming mode.
- The layout of the host's command packets: the parameters of a command, among them the poll value, which is the first of two for flash and the second for EEPROM, are arguments.
- Entering and leaving programming mode, chip erase, fuse, lock and signature commands, sign-on, the parameter table and the XPROG dispatch: one-branch facts.
- MidiParser.TraceTheorem: excludes streams that can enter SysEx; `SysExDelivery` covers complete SysEx messages, interleavings of SysEx with other status bytes are not specified further.
- TINYNVM_EraseMemory and TINYNVM_WaitWhileNVMBusBusy: the same shape as operations that are modelled.
- The per-type MIDI callbacks and their registration, the USB MIDI path of `MIDI.c` and the merge callbacks: the catch-all callback sees everything.
- Superseded duplicates (isp/Lib/PDITarget.c, isp/Lib/NVMTarget.c, isp/Lib/PDIProtocol.c, isp/Lib/ISPTarget.c), tiny48 and the examples of avr-midi.
