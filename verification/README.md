# The Rabbit cold boot chain, verified

A Dafny model of the code that boots a Rabbit 4000 or later over its programming port: the Pilot BIOS
with its serial packet protocol, and the loaders and tools around it. `dafny verify dfyconfig.toml`
checks everything.

## How it is built

**Two descriptions of the pilot.** `Link.dfy` is the reference: packets are values, a reply is composed
at once, and flash is written the moment a WRITE is accepted. `Pilot.dfy` is the code: one class with
the variables of `PILOT.C` (mode, state, escape flag, length, pointer, checksums, ring pointers, flash
counter, `py`, `pz`) and one method per label, working in place on the header, footer, packet buffer and
ring. `Pilot.PilotBios.Operate` proves that in every run, for every interleaving of received bytes and
turns of the main loop and whatever the transmitter reports, the code does what the reference does, and
that its memory and the programming operations flash has seen, once the write still pending is flushed,
are the reference's. Only a word-wide write to an odd address, which the flush refuses, is carried along in
the reference as it proceeds. The flag `wide` selects
the pilot for 16-bit flash (`PILOT16bit.C`): word pump, division by subtraction, fewer
STARTBIOS modes and no fast RAM. Receiver, transmitter, ring and checksum of `PILOTSERFLASH.C` are the same
code again; its flash handling is not modelled.

**What the reference means.** `Framing.dfy` gives the wire format and a receiver that only remembers the
bytes since START; round trip, resynchronisation and error rejection are proved there, on top of the
checksum's closed form in `Fletcher.dfy`. `Sessions.dfy` proves whole exchanges, such as a WRITE that is
read back, on any schedule of arriving bytes and turns; `Requests.dfy` says for every request what the host
gets and what changes, `LateWrites.dfy` which flash writes are complete when the next packet comes, and `BaudChange.dfy` that the baud rate changes after the acknowledgement and then does. `Memory.dfy` has the
write-behind invariant, `BaudRate.dfy` the dividers, `RingInterleaving.dfy` the ring with interrupts
between single instructions, and the proof that a read is atomic all the same, which is why `Link.dfy`
may treat it so.

**Around the link.** `RamSize.dfy` (memory probes), `Segments.dfy` (address conversions on registers),
`Loaders.dfy` (the two 64K copies), `ClockCount.dfy` (the interrupt-counted clock measurement),
`Triplets.dfy` and `BootLoader.dfy` (the triplet generators as compilers for the boot ROM).

Constants and packet layout are those of `Lib/Rabbit4000/BIOSLIB/tc_defs.lib` (lines 35-97, 128-201); the
flash routines follow `Lib/Rabbit4000/BIOSLIB/FLASHWR.LIB` (lines 622-700, 875-994); that `copy` counts down
before it tests is documented in `Lib/Rabbit4000/BIOSLIB/dktcbase.lib:194`. The processor's `lt` and
`gt` conditions compare signed numbers; the unsigned ones are `ltu` and `gtu` (`Lib/Rabbit4000/BIOSLIB/StdBios.c:2111`).

## What turned out false, and exactly when it holds

- Baud divider: the rounding addition can overflow HL. The divider 0xFF is then accepted, in tolerance only
  at 57600 (`BaudRate.OverflowedDivider`); without overflow the test is exact (`BaudRate.DividerExact`). The count is
  X times the oscillator frequency over 7200 (`PILOT.C:170-172`), so for X = 4 the overflow takes an oscillator of at
  least 116.1216 MHz at 460800 baud (a count of 64512) and of 117.7344 MHz at 57600 (65408), and for X = 2 twice that.
- READ and WRITE: the block copy counts down before it tests and moves 65536 bytes for a count of zero
  (`Memory.PassesOf`). It stays in the packet buffer exactly for counts that are not zero and fit
  (`Sessions.ReadStays`, `Sessions.WriteStays`), and for all of those a WRITE can be read back (`Sessions.WriteThenRead`).
- Word-wide flash: exactly a write to an odd address that has more bytes than the pilot had turns before the next
  SYSTEM packet is not finished (`LateWrites.FlashWriteFinished`; for pump and flush alone `Memory.PumpThenFlush`).
  Writes of at most 20 bytes always are (`LateWrites.ShortWriteFinished`); those that are on every schedule are given
  by `LateWrites.AlwaysFinishedIf`, and `LateWrites.OddWriteLost` and `OddWriteLostAtPowerUp` are failing inputs.
- Ring: with 4096 bytes outstanding it looks empty (`RingInterleaving.FullRingLooksEmpty`), and one more byte can
  overwrite the byte a read has settled on (`RingInterleaving.InterruptIsPush`).
- RAM sizers: the linear probe leaves memory altered exactly if a smaller probe cell holds the top cell's
  value (`RamSize.LinearProbe`); and it misses an 8 MB device, which the doubling probe finds (`RamSize.ExactSizes`).
- Clock measurement: the divider is right exactly from 128 counted interrupts on, and only if no periodic interrupt
  comes between the last look and the use of the count (`ClockCount.ColdLoader.Divider`, `ClockCount.ColdLoader.Disable`).
- Triplets: patch addresses are not checked and turn into register writes from 0x8000 on (`Triplets.Faithful`); the
  boot loader tool checks no address at all (`BootLoader.FaithfulProgram`, `BootLoader.LoadedByRom`). A file without marker that
  ends in two 76 bytes loses one or two (`Triplets.WithoutMarker`).

Where comments and code disagree, the code is modelled:

- `PILOT.C:747-750` lets a baud rate pass when the error equals its maximum; the code (771-774) rejects it.
- `PILOT.C:1459` says the original byte is restored; after a match that is not confirmed its complement is stored.
- `COLDLOAD.C:132` takes B to be zero after the loop; a late periodic interrupt leaves 255 in it.
- `triplets.cpp:703` wants the end of file after the marker; the code does not look for it.

## Model

| member | source | states |
|---|---|---|
| `Bytes.FlipIsXor` | `ColdBoot/PILOT.C:1331-1333` | the escape changes bit 5 of a byte and no other |
| `Bytes.SetBitIsOr` | `ColdBoot/PILOT.C:1246-1256` | an ACK has bit 7 of the subtype set and a NAK bit 6, the other bits staying |
| `Fletcher.Update` | `ColdBoot/PILOT.C:591-606` | the register routine is one step of the one's complement Fletcher sum of RFC 1145: each `adc a, 0` absorbs the carry and makes no second one |
| `Fletcher.ClosedForm` | `ColdBoot/PILOT.C:591-606` | after any bytes the two halves are the one's complement representatives of the plain sum and of the position-weighted sum of the bytes |
| `Fletcher.Collision` | `ColdBoot/PILOT.C:591-606` | two byte strings have the same checksum if and only if both sums agree modulo 255 and vanish together |
| `Fletcher.ZeroOnlyForZeros` | `ColdBoot/PILOT.C:591-606` | either half is 0 if and only if every byte so far was 0 |
| `Fletcher.ReplacementDetected` | `ColdBoot/PILOT.C:591-606` | one byte replaced by another not congruent to it modulo 255 changes the plain half, at any length and position |
| `Fletcher.SwapDetected` | `ColdBoot/PILOT.C:591-606` | two adjacent bytes not congruent modulo 255, swapped, change the weighted half |
| `Framing.NoStart` | `ColdBoot/PILOT.C:1300-1337` | byte stuffing leaves no START on the wire, so a frame contains START once, as its first byte |
| `Framing.Escapes` | `ColdBoot/PILOT.C:1324-1337` | on the wire 7E is 7D 5E, 7D is 7D 5D, and every other byte itself |
| `Framing.HearEscaped` | `ColdBoot/PILOT.C:836-860` | ESC makes of the byte after it, a second ESC included but not START, that byte with bit 5 changed |
| `Framing.Layout` | `ColdBoot/PILOT.C:1271-1378` | a frame is 7E and the stuffing of header, folded weighted and plain sum of the header, body, and the same two sums of all that |
| `Framing.RoundTrip` | `ColdBoot/PILOT.C:836-971` | a frame fed to the receiver in any listening state (mid-frame, escape pending, hunting) delivers exactly its header and body, and the receiver hunts again |
| `Framing.AcceptsOnlyPackets` | `ColdBoot/PILOT.C:921-964` | the decoded bytes are accepted at their announced length if and only if they are the unstuffed bytes of some well-formed packet |
| `Framing.RejectedEarly` | `ColdBoot/PILOT.C:921-945` | once the bytes so far are judged bad, whatever follows in the frame is dropped |
| `Framing.BadHeaderRejected` | `ColdBoot/PILOT.C:921-945` | a frame whose header checksum does not match delivers nothing, whatever length it announces |
| `Framing.BadFooterRejected` | `ColdBoot/PILOT.C:947-964` | a frame with an intact header whose footer does not match delivers nothing |
| `Framing.ReplacementRejected` | `ColdBoot/PILOT.C:865-964` | a valid frame with any one decoded byte (header, body or either checksum) changed by more than a multiple of 255 delivers nothing |
| `Framing.SwapRejected` | `ColdBoot/PILOT.C:947-964` | a valid frame with two adjacent body bytes swapped that differ modulo 255 delivers nothing |
| `BaudRate.Tolerance` | `ColdBoot/PILOT.C:747-758` | the tolerance is 13/256 of the count, less what three roundings lose |
| `BaudRate.DividerExact` | `ColdBoot/PILOT.C:693-784` | without overflow an accepted divider is the nearest of all integers and strictly within count/32 + count/64 + count/256, and a listed rate is rejected if and only if no integer is that near |
| `BaudRate.OverflowedDivider` | `ColdBoot/PILOT.C:716-737` | when the rounding addend overflows HL the routine accepts divider 0xFF; it is within tolerance if and only if the rate is 57600 |
| `BaudRate.ShiftFormIsRoundedQuotient` | `ColdBoot/PILOT.C:716-742` | for every clock of 7200 * count + r, the shifted count is floor((clock + 16 * rate) / (32 * rate)) |
| `BaudRate.LookupDivider` | `ColdBoot/PILOT.C:693-784` | table search, shift loops and the signed comparisons on 16-bit registers compute exactly the specified divider for every count and rate |
| `BaudRate.SignedTest` | `ColdBoot/PILOT.C:762-774` | the signed 16-bit comparisons decide the unsigned error test correctly on both sides of 0x8000 |
| `BaudRate.ShiftedOne` | `ColdBoot/PILOT.C:728-734` | the first shift loop makes the power of two of the table's shifter |
| `BaudRate.ShiftRight` | `ColdBoot/PILOT.C:736-742` | the second shift loop divides by that power of two, rounding down |
| `BaudRate.ShiftLeft` | `ColdBoot/PILOT.C:757-761` | the third shift loop multiplies back without losing bits |
| `BaudRate.SearchTable` | `ColdBoot/PILOT.C:693-715` | the linear search finds a row of the wanted rate, or none has it |
| `BaudRate.SubtractionExact` | `ColdBoot/PILOT16bit.C:618-663` | a rate is accepted if and only if its divisor divides the 19200 baud divider evenly, with the exact quotient minus one; a zero divider is accepted as 0xFF |
| `BaudRate.SubtractionRate` | `ColdBoot/PILOT16bit.C:618-663` | in terms of rates: the divider d is accepted if and only if (d + 1) times the rate is 19200 times the 19200 baud divider |
| `BaudRate.DivideBySubtraction` | `ColdBoot/PILOT16bit.C:637-663` | the subtraction loop computes that quotient, and finds out when there is none |
| `RingInterleaving.FifoUnderInterrupts` | `ColdBoot/PILOT.C:440-580` | with the receive interrupt between any two steps of `_PB_Read`, and never 4096 bytes outstanding, what was returned is a prefix of what arrived, and "nothing available" is reported exactly if the ring was empty when the write pointer was loaded |
| `RingInterleaving.TakeConsistent` | `ColdBoot/PILOT.C:440-580` | every step of reader or interrupt keeps the ring holding exactly the outstanding bytes in order |
| `RingInterleaving.ReadIsPop` | `ColdBoot/PILOT.C:565-580` | a read spread over several instructions takes its byte from the queue in one instant, its first load, and later only delivers it |
| `RingInterleaving.InterruptIsPush` | `ColdBoot/PILOT.C:449-458` | an interrupt anywhere in a read, the ring full or not, is one push on the queue (the 4096th byte empties it) and leaves the read alone, unless it overwrites the very byte the read has settled on and not loaded: then that read hands out the byte just received |
| `RingInterleaving.ReadsAreAtomic` | `ColdBoot/PILOT.C:440-580` | on every schedule, overflows included, the reads hand out what the atomic queue does |
| `RingInterleaving.ReadsAreAtomicFromStart` | `ColdBoot/PILOT.C:440-580` | from power-up on, whenever the interrupts come, the reads hand out what the atomic queue does |
| `RingInterleaving.FullRingLooksEmpty` | `ColdBoot/PILOT.C:452-458` | after an interrupt, wherever the reader is, the pointers coincide if and only if 4096 bytes are outstanding: then the ring looks empty |
| `Memory.PumpOnceSettles` | `ColdBoot/PILOT.C:547-563` | one pump step leaves unchanged what memory and the programming operations will be when the pending write is complete |
| `Memory.PumpOncePending` | `ColdBoot/PILOT.C:547-563` | each read pumps before it can store, so the receive offset stays at least seven bytes behind the bytes still to be programmed |
| `Memory.PlacePending` | `ColdBoot/PILOT.C:875-885` | a body byte stored at that offset never touches a byte that is still to be programmed |
| `Memory.FlushPending` | `ColdBoot/PILOT.C:973-986` | when the next SYSTEM packet is dispatched, the flush makes flash, operation by operation, what the reference has |
| `Memory.Operations` | `ColdBoot/PILOT16bit.C:475-510` | any number of pump steps and then a flush perform exactly the programming operations of the block, each byte once, at its own address and in order, with at most one padding byte after it; or, if a word-wide write to an odd address is cut short, those done by then |
| `Memory.PumpThenFlush` | `ColdBoot/PILOT16bit.C:881-899` | flash has seen exactly the block's operations if and only if no odd word-wide write is cut short, and memory is as if it had if and only if that, or the dropped cells held their data already |
| `Memory.LatePrograms` | `ColdBoot/PILOT16bit.C:475-493` | so many reads into a write to an odd address, so many of its words are programmed, each once and in order |
| `Memory.PassesOf` | `Lib/Rabbit4000/BIOSLIB/dktcbase.lib:194-194` | the block copy, counting 16 bits down after each byte, moves its count of bytes, and 65536 for zero |
| `Memory.FetchStored` | `ColdBoot/PILOT.C:1108-1117` | reading back a stored block returns it |
| `Memory.PeekErased` | `Lib/Rabbit4000/BIOSLIB/FLASHWR.LIB:875-994` | an erased range reads FF, and the rest as before |
| `Pilot.PilotBios.constructor` | `ColdBoot/PILOT.C:434-437` | power-up establishes the invariant |
| `Pilot.PilotBios.Operate` | `ColdBoot/PILOT.C:426-432` | in every run the pilot transmits, programs the timer and leaves its loop exactly as the reference machine does; memory and the programming operations flash has seen are, once the pending write is flushed, the reference's |
| `Pilot.PilotBios.PointerInRegion` | `ColdBoot/PILOT.C:865-956` | in every reachable state `_PB_ptr` is null exactly while nothing is received, and otherwise length > 0 and ptr + length is the end of the stretch in progress, inside its area |
| `Pilot.PilotBios.SerialIsr` | `ColdBoot/PILOT.C:440-466` | the interrupt appends one byte to the queue; the 4096th outstanding byte empties it |
| `Pilot.PilotBios.Turn` | `ColdBoot/PILOT.C:426-432` | one turn of the main loop is one step of the reference machine |
| `Pilot.PilotBios.Read` | `ColdBoot/PILOT.C:547-580` | pumps once, then takes the oldest byte or reports none, keeping the write-behind invariant |
| `Pilot.PilotBios.PumpFlash` | `ColdBoot/PILOT.C:547-563` | the register code of the pump is the specified pump step, one byte at a time or one word every second call |
| `Pilot.PilotBios.ProgramFlashUnit` | `Lib/Rabbit4000/BIOSLIB/FLASHWR.LIB:622-700` | one byte, or one word low byte first, is programmed at `py` |
| `Pilot.PilotBios.Init` | `ColdBoot/PILOT.C:535-545` | the receiver hunts for START, pointing nowhere |
| `Pilot.PilotBios.RXHaveStart` | `ColdBoot/PILOT.C:896-908` | a START begins an empty frame whatever went before |
| `Pilot.PilotBios.StoreCharacter` | `ColdBoot/PILOT.C:865-885` | a decoded byte extends the checksum and the stretch in progress |
| `Pilot.PilotBios.RXHaveHeader` | `ColdBoot/PILOT.C:910-919` | after six header bytes the checksum is put aside and two more are awaited |
| `Pilot.PilotBios.RXHaveHeaderChecksum` | `ColdBoot/PILOT.C:921-945` | the complete header is judged as the abstract receiver judges it: dropped, or body or footer awaited |
| `Pilot.PilotBios.RXHaveBody` | `ColdBoot/PILOT.C:947-956` | after the announced body the checksum is put aside and the footer awaited |
| `Pilot.PilotBios.RXHaveFooter` | `ColdBoot/PILOT.C:958-971` | the complete frame is dispatched or dropped by its footer |
| `Pilot.PilotBios.RXHaveCharacter` | `ColdBoot/PILOT.C:865-894` | every decoded byte has the consequence the verdict on all bytes since START has |
| `Pilot.PilotBios.SystemPacket` | `ColdBoot/PILOT.C:966-1009` | an accepted packet has the consequence it has in the reference: refused if it is no SYSTEM packet, and otherwise answered on settled memory |
| `Pilot.PilotBios.HandleSubtype` | `ColdBoot/PILOT.C:988-1016` | each subtype is answered as the reference answers it, an unknown one refused |
| `Pilot.PilotBios.FlushPendingWrite` | `ColdBoot/PILOT.C:973-986` | afterwards flash is as the reference has it and nothing is pending |
| `Pilot.PilotBios.ProgramFlashBlock` | `Lib/Rabbit4000/BIOSLIB/FLASHWR.LIB:955-994` | unit by unit the block is programmed; on 16-bit flash an odd address or size is refused with nothing done |
| `Pilot.PilotBios.NakPacket` | `ColdBoot/PILOT.C:1246-1252` | starts an empty reply with the NAK bit set in the subtype |
| `Pilot.PilotBios.AckPacket` | `ColdBoot/PILOT.C:1254-1257` | starts a reply of the length in the header with the ACK bit set |
| `Pilot.PilotBios.SendReply` | `ColdBoot/PILOT.C:1259-1280` | START goes out and the stuffed packet is what remains to be sent |
| `Pilot.PilotBios.HandleREAD` | `ColdBoot/PILOT.C:1018-1042` | replies with length, address and the bytes at that address |
| `Pilot.PilotBios.BuildReadReply` | `ColdBoot/PILOT.C:1025-1040` | the reply is built in place over its own request fields without losing any of them |
| `Pilot.PilotBios.CopyToBuffer` | `ColdBoot/PILOT.C:1032-1040` | the copy that counts down before it tests stays in the packet buffer exactly if the bytes it moves fit, and then moves them |
| `Pilot.PilotBios.CopyToMemory` | `ColdBoot/PILOT.C:1108-1116` | so does the copy out of the packet buffer, which leaves flash cells alone |
| `Pilot.PilotBios.HandleWRITE` | `ColdBoot/PILOT.C:1044-1147` | by the flags in the address RAM, either fast RAM or flash takes the data, or the packet is refused |
| `Pilot.PilotBios.WriteFlash` | `ColdBoot/PILOT.C:1119-1142` | acknowledged at once and left pending, which counts as written, or as late where only the pump can do it |
| `Pilot.PilotBios.HandleINFOPROBE` | `ColdBoot/PILOT.C:1149-1193` | replies with the configuration block |
| `Pilot.PilotBios.HandleSTARTBIOS` | `ColdBoot/PILOT.C:1195-1203` | a known mode ends the loop, another is refused |
| `Pilot.PilotBios.HandleSETBAUDRATE` | `ColdBoot/PILOT.C:1205-1218` | a possible divider is queued and acknowledged; otherwise refused, with nothing queued |
| `Pilot.PilotBios.HandleERASEFLASH` | `ColdBoot/PILOT.C:1220-1238` | erases whole sectors up to the given address unless that reaches the user block |
| `Pilot.PilotBios.EraseFlashRange` | `Lib/Rabbit4000/BIOSLIB/FLASHWR.LIB:925-950` | erases exactly the 4K sectors from the bottom of flash through the one of the upper address |
| `Pilot.PilotBios.TransmitByte` | `ColdBoot/PILOT.C:1282-1337` | sends the next byte of the stuffed packet, and only that |
| `Pilot.PilotBios.TXNoEsc` | `ColdBoot/PILOT.C:1300-1337` | takes the next packet byte into the checksum and sends it, or ESC and keeps its other half |
| `Pilot.PilotBios.TXFinishCharacter` | `ColdBoot/PILOT.C:1320-1329` | moves on to the next stretch exactly at the end of one |
| `Pilot.PilotBios.SendHeaderChecksum` | `ColdBoot/PILOT.C:1340-1348` | the checksum so far becomes the next two bytes |
| `Pilot.PilotBios.SendBody` | `ColdBoot/PILOT.C:1350-1360` | the body follows, or the footer if there is none |
| `Pilot.PilotBios.SendFooter` | `ColdBoot/PILOT.C:1362-1372` | the checksum of everything so far becomes the footer |
| `Pilot.PilotBios.SendDone` | `ColdBoot/PILOT.C:1374-1378` | the reply is over: the receiver hunts and the baud rate no longer waits |
| `Pilot.PilotBios.ModeRXTurn` | `ColdBoot/PILOT.C:836-863` | a turn that listens consumes at most one byte and has the consequence the abstract receiver gives it |
| `Pilot.PilotBios.ModeTXTurn` | `ColdBoot/PILOT.C:1282-1337` | a turn that sends discards a received byte and sends at most one |
| `Pilot.PilotBios.RunQueuedBaudRateChange` | `ColdBoot/PILOT.C:806-828` | changes the rate only when the acknowledgement is out and the transmitter idle, and then starts over |
| `Pilot.PilotBios.ResetFields` | `ColdBoot/PILOT.C:798-828` | one timer write, nothing queued, empty ring, hunting |
| `Sessions.Received` | `ColdBoot/PILOT.C:836-894` | on every schedule of arrivals and turns that does not fill the ring, wire that completes at most one packet, with its last byte, has the effect it has on an undisturbed listener |
| `Sessions.ReceiveFrame` | `ColdBoot/PILOT.C:836-971` | a listening pilot sent a frame, on any such schedule, dispatches its packet, its body at the front of the buffer and the rest of the buffer as it was; no byte that arrived behind it is lost |
| `Sessions.ReceiveBehind` | `ColdBoot/PILOT.C:836-971` | so does a frame behind any bytes in which the receiver finds no packet |
| `Sessions.HearsArrivals` | `ColdBoot/PILOT.C:440-580` | on such a schedule what waited and what arrived is, in order, what is heard and what waits then |
| `Sessions.FillWithPacket` | `ColdBoot/PILOT.C:865-956` | of all decoded bytes exactly the body reaches the packet buffer |
| `Sessions.Drained` | `ColdBoot/PILOT.C:1282-1378` | a reply in transmission comes out completely and in order, whenever the transmitter has room and whatever arrives meanwhile, which the turns discard one byte each, and the pilot listens again |
| `Sessions.Exchange` | `ColdBoot/PILOT.C:1246-1378` | a request that is answered, on any schedule, with bytes arriving during the reply or not: the host receives exactly one frame, its header the request's with bit 7 (ACK) or bit 6 (NAK) of the subtype set and the new length, its body from the buffer |
| `Sessions.AnswerIs` | `ColdBoot/PILOT.C:1246-1256` | such a frame, byte by byte |
| `Sessions.NoPacketNoEffect` | `ColdBoot/PILOT.C:865-956` | bytes on the wire that make no packet, on any schedule, leave output, timer and baud rate alone, and memory but for a late write in progress |
| `Sessions.DamagedFrameHasNoEffect` | `ColdBoot/PILOT.C:943-964` | a frame damaged in one byte leaves the pilot hunting and changes at most its packet buffer |
| `Sessions.WriteExchange` | `ColdBoot/PILOT.C:1044-1142` | a WRITE that is not refused and fits is acknowledged, whatever its count says about its data |
| `Sessions.TargetIs` | `ColdBoot/PILOT.C:1054-1134` | flags 0 lead to RAM at the address itself; flags 2 to flash at 0x800000 plus the low three bytes; other flags on an 8-bit pilot to the first fast RAM, from 0x800000 of bank 2, for offsets below its size, and then to the second, from 0xC00000 of bank 3, for those below its own |
| `Sessions.WriteAlters` | `ColdBoot/PILOT.C:1044-1142` | on any schedule, an acknowledged WRITE leaves its data in exactly those cells, and changes no others but one of padding |
| `Sessions.StoredAlters` | `ColdBoot/PILOT.C:1108-1134` | flash sees one operation for each of the cells, in order, and none for a WRITE to RAM |
| `Sessions.WriteStays` | `ColdBoot/PILOT.C:1108-1117` | a WRITE that is copied stays in the packet buffer, and is answered, if and only if its count is not zero and fits; for every count field and whatever data it brings |
| `Sessions.ReadExchange` | `ColdBoot/PILOT.C:1018-1042` | a READ is answered, on any schedule, with count, address and contents, and changes no memory |
| `Sessions.WriteThenRead` | `ColdBoot/PILOT.C:1018-1142` | for every count that fits and every data, on any schedules, a WRITE and then a READ return count, address and what was stored: the READ at the same address for RAM, and for flash at 0x800000 plus the low three bytes; no other cell but a padding byte changed |
| `Sessions.ContentIsData` | `ColdBoot/PILOT.C:1108-1134` | what is stored is the data, when the count does not exceed it |
| `Sessions.ReadStays` | `ColdBoot/PILOT.C:1022-1040` | a READ stays in the packet buffer, and is answered, if and only if its count is not zero and fits, for every count field |
| `Requests.NoopEchoed` | `ColdBoot/PILOT.C:1015-1016` | a NOOP is echoed, with its body, and changes nothing |
| `Requests.InfoAnswered` | `ColdBoot/PILOT.C:1149-1193` | an INFOPROBE is answered with the configuration block |
| `Requests.FlashDataAcknowledged` | `ColdBoot/PILOT.C:1240-1244` | FLASHDATA is acknowledged with an empty body, and changes nothing |
| `Requests.FlashErased` | `ColdBoot/PILOT.C:1220-1244` | ERASEFLASH below the user block is acknowledged, every cell from 0x800000 through the sectors counted reads FF, and no other cell changes |
| `Requests.SectorsReach` | `Lib/Rabbit4000/BIOSLIB/FLASHWR.LIB:875-994` | the sectors counted reach exactly to the end of the one the address is in, if and only if the 16-bit count does not wrap |
| `Requests.RequestRefused` | `ColdBoot/PILOT.C:1246-1252` | these SYSTEM requests get a NAK and change nothing: unknown subtypes, READ and WRITE by other than physical address, WRITE to fast RAM there is none of, unknown STARTBIOS modes, rates without a divider, ERASEFLASH into the user block |
| `Requests.AcceptableIs` | `ColdBoot/PILOT.C:1205-1218` | a rate has a divider if and only if it is listed and some integer is within tolerance, or on the 16-bit pilot divides evenly (or the arithmetic wraps) |
| `Requests.ChosenIs` | `ColdBoot/PILOT.C:1205-1218` | that divider is the rounded quotient of the clock by 32 times the rate, or the even quotient |
| `Requests.OtherTypeRefused` | `ColdBoot/PILOT.C:966-975` | a packet that is no SYSTEM packet gets a NAK and changes nothing, and a late flash write goes on |
| `Requests.NakIgnored` | `ColdBoot/PILOT.C:1011-1013` | a NAK from the host is not answered |
| `Requests.BiosStarted` | `ColdBoot/PILOT.C:1195-1203` | STARTBIOS in a mode the pilot has leaves the loop for good, without a reply |
| `Requests.FlashWriteStays` | `ColdBoot/PILOT.C:1119-1134` | a flash WRITE is answered if and only if its count is zero or fits (or wraps to zero, 0xFFFF on word-wide flash) |
| `Requests.EmptyFlashWrite` | `ColdBoot/PILOT.C:1119-1142` | a flash WRITE of zero bytes is acknowledged and changes nothing |
| `Requests.RamWriteSparesFlash` | `ColdBoot/PILOT.C:1108-1117` | a WRITE with flags 0 goes to its address, and leaves flash cells among its own alone |
| `Requests.LongHeaderLeaves` | `ColdBoot/PILOT.C:921-945` | a header that announces more than 0x1000 bytes, with a good checksum, takes the receiver out of its packet buffer |
| `LateWrites.FlashWriteFinished` | `ColdBoot/PILOT16bit.C:881-899` | on any schedule of an accepted flash WRITE, its reply and, behind any bytes without a packet, the next SYSTEM packet: once that is dispatched flash has seen every byte of the write, once and in order, before anything else, if and only if the write is not word-wide to an odd address or there were as many turns in between as it has bytes |
| `LateWrites.FlashAddressIs` | `ColdBoot/PILOT16bit.C:987-996` | such a write begins at 0x800000 plus the low three bytes of the address |
| `LateWrites.ShortWriteFinished` | `ColdBoot/PILOT16bit.C:881-899` | so every flash WRITE to an even address, and every one of at most 20 bytes, is finished on every schedule |
| `LateWrites.TurnsNeeded` | `ColdBoot/PILOT16bit.C:1152-1156` | in between there are at least as many turns as reply and request have bytes, never less than 21 |
| `LateWrites.AlwaysFinishedIf` | `ColdBoot/PILOT16bit.C:881-899` | a word-wide WRITE to an odd address is finished on every schedule if and only if its bytes are no more than those of its reply after START and of the next SYSTEM packet on the wire |
| `LateWrites.OddWriteLost` | `ColdBoot/PILOT16bit.C:881-899` | every word-wide WRITE of more than 41 bytes to an odd address, sent as fast as the line allows and followed by a NOOP, is acknowledged and its last cell is not programmed |
| `LateWrites.OddWriteLostAtPowerUp` | `ColdBoot/PILOT16bit.C:881-899` | an input: 100 bytes to offset 1 of flash and then a NOOP, right after power-up; the hundredth byte stays erased |
| `LateWrites.TailUntouched` | `ColdBoot/PILOT16bit.C:881-899` | after the NOOP every cell the write did not reach holds what it held before |
| `LateWrites.OddWriteGoesOn` | `ColdBoot/PILOT16bit.C:987-1014` | a word-wide WRITE to an odd address is acknowledged, and by the time its reply is out as many of its words are programmed as there were turns for |
| `LateWrites.PacketLogs` | `ColdBoot/PILOT16bit.C:987-1014` | no packet takes back a programming operation, and on word-wide flash the first one it adds is at an even address |
| `BaudChange.AckPrecedesBaudChange` | `ColdBoot/PILOT.C:806-828` | in every run a write to the timer follows the grant of that divider to a SETBAUDRATE, the whole ACK frame of that request and a turn with the transmitter idle, and leaves receiver and ring as at power-up |
| `BaudChange.GrantedBefore` | `ColdBoot/PILOT.C:1205-1218` | at every moment a queued divider was granted earlier, and its ACK is out unless the pilot still waits for it |
| `BaudChange.DispatchBaud` | `ColdBoot/PILOT.C:973-1009` | no request but an accepted SETBAUDRATE touches the baud rate variables |
| `BaudChange.BaudRateTakesEffect` | `ColdBoot/PILOT.C:806-828` | a SETBAUDRATE for a rate with a divider takes effect, on any schedule: nothing is written before its ACK is out, and in the first turn after that which finds the transmitter idle the timer gets that divider, nothing stays queued, and receiver and ring are as at power-up |
| `BaudChange.BaudRateTakesEffectAtOnce` | `ColdBoot/PILOT.C:806-828` | the same if already the turn that sends the last byte of the ACK finds the transmitter idle |
| `BaudChange.BaudRateGranted` | `ColdBoot/PILOT.C:1205-1218` | such a request is acknowledged, its divider queued and nothing else changed |
| `BaudChange.QueuedIsWritten` | `ColdBoot/PILOT.C:806-828` | from any state, a queued divider whose ACK is out is written in the first idle turn, whatever other requests are served before |
| `BaudChange.NothingWrittenAgain` | `ColdBoot/PILOT.C:806-828` | and then nothing is written until another SETBAUDRATE is granted |
| `RamSize.LinearProbe` | `ColdBoot/PILOT.C:1420-1489` | for every device: the answer, 0 if it is read-only; cells are kept or complemented, and memory is preserved if and only if no smaller probe cell holds what the top cell holds |
| `RamSize.DoublingProbe` | `ColdBoot/PILOTSERFLASH.C:1497-1550` | for every device: the answer, 0 if it is read-only, with memory unchanged |
| `RamSize.LinearAnswer` | `ColdBoot/PILOT.C:1420-1489` | the linear probe answers with the first size up to 64 units at which the device repeats, and with 0 if there is none |
| `RamSize.DoublingAnswer` | `ColdBoot/PILOTSERFLASH.C:1497-1550` | the doubling probe answers with the first power of two up to 128 units at which it repeats |
| `RamSize.ExactSizes` | `ColdBoot/PILOTSERFLASH.C:1497-1550` | the linear probe is exact if and only if the size is a power of two up to 4 MB, the doubling probe if and only if it is one up to 8 MB |
| `RamSize.Probe` | `ColdBoot/PILOT.C:1435-1460` | one probe decides whether two addresses are the same cell, and what a false start leaves behind |
| `RamSize.ProbeCells` | `ColdBoot/PILOT.C:1428-1434` | through the mirrored window the top address is the last cell of one unit, and smaller probes reach one cell each below it |
| `Segments.Lin2Seg` | `include/xmem.h:13-43` | for any garbage in B the pair names the 24-bit address in window 0xE |
| `Segments.GenLin2Seg` | `include/xmem.h:55-87` | names the address in window X for X below 16, and forms another address for every other X |
| `Segments.PhysicalToLogical16` | `ColdBoot/PILOT16bit.C:540-564` | the shifting routine names the 24-bit address in window 0xE, whatever the flags in B |
| `Segments.PhysicalToLogical` | `ColdBoot/PILOT.C:610-634` | the nibble swap names the address in window 0xE on 20 address lines |
| `Segments.SamePair` | `include/xmem.h:13-43` | an address has one pair in a window, so the 24-bit routines agree |
| `Segments.SamePairOn20` | `ColdBoot/PILOT.C:610-634` | the eight-bit XPC is the low byte of their segment, with the same offset |
| `Loaders.BankedCopy` | `ColdBoot/PIC_code/PIC_LOADER.C:125-156` | eight windows from XPC 0xF2, wrapping to 0, store byte k of the image at address k for all 65536, and DE ends at 0 |
| `Loaders.FlatCopy` | `ColdBoot/COLDLOAD_serflash_boot.c:138-158` | the loop that starts with BC = 0 stores the same 65536 bytes at the same addresses |
| `Loaders.ImageInPlace` | `ColdBoot/PIC_code/PIC_LOADER.C:125-156` | after either copy address k holds byte k, and no other cell changed |
| `ClockCount.ColdLoader.Measure` | `ColdBoot/COLDLOAD.C:109-123` | for every order of interrupts: if the loop looks between the 129th and 130th periodic interrupt, HL is the number of timer A interrupts from the 1st to the 129th modulo 65536 |
| `ClockCount.ColdLoader.Interrupt` | `ColdBoot/COLDLOAD.C:163-183` | whatever the interrupts so far, B, HL and the enable bit are determined by how many periodic ones there were and by the ticks between |
| `ClockCount.ColdLoader.Disable` | `ColdBoot/COLDLOAD.C:121-131` | between the last look and the use of the count B stays zero if and only if no periodic interrupt comes (or 256), and then the count stays too |
| `ClockCount.ColdLoader.Divider` | `ColdBoot/COLDLOAD.C:132-136` | the timer value plus one is the count over 256, rounded, if and only if B is still zero and the count is at least 128 |
| `ClockCount.FirstLook` | `ColdBoot/COLDLOAD.C:109-113` | the first look that finds B zero comes right after the 129th interrupt if there is one there |
| `Triplets.Stream.NextChar` | `ColdBoot/triplets/triplets.cpp:693-731` | the look ahead for the marker delivers the image byte by byte |
| `Triplets.UpToMarker` | `ColdBoot/triplets/triplets.cpp:693-731` | the image is what precedes the first 76 76 76 76 |
| `Triplets.WithoutMarker` | `ColdBoot/triplets/triplets.cpp:703-713` | in a file without marker the whole file is the image if and only if it does not end in two 76 bytes |
| `Triplets.EndLost` | `ColdBoot/triplets/triplets.cpp:703-713` | of two such bytes at the end one is lost, and of three two |
| `Triplets.Generate` | `ColdBoot/triplets/triplets.cpp:779-894` | there is no output if and only if an image byte would lie above 0x7FFF; otherwise it is, byte by byte and in order: for each command before `start` the register number with bit 15 set and the low byte of the value, for each image byte its address and value, and then the same for settings and address and value for patches |
| `Triplets.MeaningSpelled` | `ColdBoot/triplets/triplets.cpp:779-894` | the writes meant, encoded, are those bytes |
| `Triplets.CommandsObeyed` | `ColdBoot/triplets/triplets.cpp:779-894` | replaying those bytes, the boot ROM does in its place what each command says: register r gets the low byte of v, and below 0x8000 every image byte and every patch is stored |
| `Triplets.ReplayEncode` | `ColdBoot/triplets/triplets.cpp:812-819` | the boot ROM, taking the top address bit for I/O, replays what was encoded if and only if no memory address has that bit |
| `Triplets.Faithful` | `ColdBoot/triplets/triplets.cpp:779-894` | the output does what the source file asks if and only if every patch address is below 0x8000 |
| `BootLoader.Generator.WriteTriplet` | `ColdBoot/triplets/BL_triplets.cpp:737-747` | appends three bytes unless the table would exceed 512 |
| `BootLoader.Generator.Generate` | `ColdBoot/triplets/BL_triplets.cpp:793-882` | the table is the source file spelled out in the same way, patches counted from the start address, and then JP to it at 0 and SPCR, byte by byte; it fails if and only if that exceeds 512 bytes |
| `BootLoader.ProgramSpelled` | `ColdBoot/triplets/BL_triplets.cpp:793-882` | the writes meant, encoded, are those bytes |
| `BootLoader.LoadedByRom` | `ColdBoot/triplets/BL_triplets.cpp:836-882` | when the boot ROM has replayed the table, before the final SPCR write, memory holds a jump to the code at 0, and of the code bytes that no patch and not the jump replaced exactly those below 0x8000 |
| `BootLoader.ReplayIs` | `ColdBoot/triplets/BL_triplets.cpp:737-747` | the boot ROM obeys every triplet as written, but takes a memory address from 0x8000 for a register |
| `BootLoader.FaithfulProgram` | `ColdBoot/triplets/BL_triplets.cpp:836-882` | the boot ROM obeys the table as meant if and only if the code ends below 0x8000 and every patch, counted from the start address, lies below it |

## Left out

- Pilot.PilotBios.Operate: `Poll` is one turn of the main loop, so interrupts fall between turns; `RingInterleaving.ReadsAreAtomic` proves that interrupts inside `_PB_Read` come to the same, but for the byte of a full ring that `RingInterleaving.InterruptIsPush` names. The other code that shares the ring is `_PB_InitRXRing`, which runs with interrupts off (`PILOT.C:817-823`).
- Pilot.PilotBios.RunQueuedBaudRateChange: a byte that arrives between the last read of a turn and the reset of the ring at a change of the baud rate is discarded by the code; in the model it is taken by that turn or waits for the next one.
- Pilot.PilotBios.Operate: ends (`Beyond`) where the code leaves its packet buffer: a body length above 0x1000, which the receiver does not check; a READ or a copied WRITE whose copy does not fit; a flash WRITE whose count does not fit, which the code acknowledges before it programs what lies behind the buffer.
- Sessions.WriteThenRead: for the cells the map of memory has, so not for addresses inside the pilot's own variables and buffers, which are not part of that map; READ and RAM addresses are not folded onto the 24 lines of the bus.
- Sessions.WriteThenRead: a WRITE to fast RAM is modelled on cells of its own, which no READ address reaches, because READ does not remap the banks.
- Pilot.PilotBios.CopyToMemory: a plain copy onto flash cells has no effect; data that happens to form a command sequence of the flash is not modelled.
- Memory.FetchStored: programming flash is a plain store; that a programmed cell keeps its zero bits until erased is not modelled, as the host erases first.
- Memory.LatePrograms: the bus takes a word at an odd address as its two bytes; what a given flash does with one is not modelled.
- Memory.PumpThenFlush: the byte behind the packet buffer, with which a full packet of odd size is padded, is a cell that never changes; in the source it is whatever the next variable (`flashWriteCount`, `PILOT16bit.C:131-134`) holds at that moment, so the value of that padding byte is unspecified.
- Pilot.PilotBios.HandleINFOPROBE: the contents of the block are a parameter; the code that packs them is not modelled.
- Pilot.PilotBios.HandleERASEFLASH: flash has 4K sectors throughout; other sector maps of FLASHWR.LIB are not modelled.
- Pilot.PilotBios.EraseFlashRange: so do the sector numbers; the search in a table of large sectors is not modelled.
- Pilot.PilotBios.HandleWRITE: stack and XPC on the paths that jump to NakPacket without restoring them, and the bank registers around a fast RAM copy, are not modelled.
- BaudRate.LookupDivider: the measured count is a parameter of the link; `ClockCount` proves how it arises.
- RamSize.LinearProbe: the probed bank has a device that repeats through it; an empty bank, whose reads float, is not modelled.
- Triplets.Generate: starts from parsed commands, a name that is no register standing for register 0 as in the source's map; opening files and reading text are left out.
- Segments.Lin2Seg: flags and registers the macros only save and restore are left out.
- ClockCount.ColdLoader.Measure: each interrupt routine runs in one instant, as interrupts of its priority are off while it does.
- BootLoader.Generator.Generate: the text form of the table is left out.
- The serial flash pilot's flash driver, the BIOS jumps behind STARTBIOS, the clock doubler, CPU identification, ID block search and bank selection: device side effects without a specification of their own.
- The hardware's transmit buffer is two flags, room and idle; time, watchdog and baud rate as such do not occur.
- The samples, the networking, cryptographic and file system libraries and the other headers of the repository.
