# First-stage boot firmware: a verified model

This project models the protocols, loops and arithmetic of a RISC-V first-stage
boot loader and proves what they keep. `dafny verify dfyconfig.toml` checks it.

| part | files | form |
|---|---|---|
| waiting-room lock | `Szymanski`, `FlagWord`, `LockAsWritten`, `LockService` | state machine; runs are schedules of harts |
| IPI message pool | `IpiPool`, `IpiSafety`, `IpiTheorems`, `IpiProgress`, `IpiDelivery` | state machine; one step for each atomic add, mailbox access and handler access |
| misaligned loads and stores | `Decode`, `Emulation`, `EmulationTheorems` | class `Hart` whose methods loop over bytes and CSRs, proved against a specification |
| XMODEM receiver and CRC | `Crc16`, `CrcRemainder`, `Xmodem`, `XmodemReceive`, `XmodemAnswers`, `XmodemLink`, `XmodemLossy` | class `Session` with the nested loops, proved against an event machine; the CRC loops over bits |
| serial flash | `Flash`, `FlashStream`, `FlashTheorems` | the loop nest, proved against the commands it sends; the chip's reaction to commands |
| memory map and PMP | `MemCheck`, `Napot` | the checker's loops; the register encoding |
| bitmaps and L3 counters | `Bits`, `Bitmap`, `L3Pmu` | search methods; class `Pmu` |
| range maintenance | `Ranges` | the flush loops and the split counter read |

## What to know before reading the results

* **The lock.** The file states a protocol in its header comment (src/spinlock.c:14-34)
  and its body differs from it: line 119 stores `ASP_ST0` where the header
  stores 1, so `ASP_ST1` is never stored and the branch at line 124 is dead;
  line 129 passes a mask for hart 0 alone where the header says "any"; and the
  masks of lines 112, 113 and 141 are shifted as 32-bit ints, which C leaves
  undefined from hart 4 on and RV64 compiles to `sllw`, so that hart p gets the
  masks of hart p % 4. Mutual exclusion, the door, no overtaking, bounded bypass,
  deadlock freedom and bounded service are theorems about the steps of the
  **documented** protocol. `FlagWord` proves which word tests of the C file decide
  the condition that the header asks for: those over all harts do, line 129
  looks at hart 0, and the two ordered waits (lines 134 and 145) are right exactly
  up to hart 3. `LockAsWritten` has the steps of the body with these tests: there,
  mutual exclusion holds in every run if and only if there is at most one hart, a
  run with two harts inside is given, and only harts that pass the door together can meet.
  `LockService` has what the body does keep: when each wait ends, freedom from
  deadlock, an unlock that leaves the lock free, and the use of the wait at line 134,
  which sorts out harts that pass the door together, up to four harts and no more.
* **The CRC.** The header of include/crc.h describes a variant that starts from
  0xFFFF; the receiver folds from 0 (src/xmodem.c:123). The model follows the code, and
  the fold is defined for every start value.
* **XMODEM.** The duplicate test at line 188 compares an 8-bit `seqnum` with
  an `int` sum, so a repeated packet number 255 is not recognised: the transfer is
  cancelled, and nothing is misdelivered. The 25th repeat in a row is cancelled too
  (line 191). `XmodemLink.RepeatedPacket` has all cases. The CRC does not cover the
  packet number and its complement, which are 8 bits apart: damage within 16
  consecutive bits that changes both alike passes every check.
  `XmodemLink.BurstRefusedExactly` says which bursts are refused and
  `XmodemLink.HeaderBurstIsAccepted` gives a packet that is stored twice.
* **An instruction word of 0** is what `emu_get_instr` returns after a trap, so a
  word of 0 in memory takes the path of a fetch trap with the cause that the
  emulation came with. `EmulationTheorems.NotEmulated` says so.
* **x0.** The emulation writes the slot of x0 (src/emu_ldst.c:537) and a later
  store of x0 reads it. `EmulationTheorems.ZeroStoreAfterLoad` says exactly when
  that store is still right.
* **Flash.** The comment at src/xqspi.c:508 asks for page alignment. That is not
  enough once the data reaches the next sector:
  `FlashTheorems.ReadsBackExactly` gives the exact condition for every start address and size.
* **PMP.** `PMP_SHIFT` comes from a header that is not part of the repository; the
  model takes 2, the shift of section 3.7.1 of the RISC-V Privileged Specification.
* **Memory.** The concurrent parts assume sequentially consistent memory, atomic word
  reads, byte writes and `amoadd`, and coherent caches.

## Model

| member | source | states |
|---|---|---|
| Szymanski.MutualExclusion | src/spinlock.c:14-34 | for any number of harts and any run of the documented steps, two harts that are both past the last entry wait are the same hart |
| Szymanski.DoorIsShut | src/spinlock.c:16-33 | while any flag is 4, no hart sits between passing the door wait and writing 3 |
| Szymanski.NoOvertaking | src/spinlock.c:16-33 | a hart that leaves does not pass the door again before every hart then waiting has entered |
| Szymanski.BoundedBypass | src/spinlock.c:16-33 | in any run, while a hart waits every other hart enters at most once |
| Szymanski.DeadlockFreedom | src/spinlock.c:16-33 | while a hart is trying, inside or leaving, one of these harts has an enabled step |
| Szymanski.BoundedService | src/spinlock.c:16-33 | each step that is not a newcomer's uses up at least one unit of the outstanding work |
| Szymanski.EveryoneIsServed | src/spinlock.c:16-33 | from a reachable state, a run without newcomers is bounded, and where it cannot go on every hart is out with flag 0 |
| FlagWord.AllInByByte | src/spinlock.c:98-101 | the word test of `asp_wait_all_in` holds if and only if every flag byte passes its byte of the mask |
| FlagWord.AnyEqByByte | src/spinlock.c:103-106 | the word test of `asp_wait_any_eq` ends if and only if some byte meets its byte of the mask |
| FlagWord.TestsDecideTheProtocol | src/spinlock.c:121-129 | the word tests over all harts decide, both ways, the documented condition for every flag state; the test of line 129 decides whether hart 0 has flag 4 |
| FlagWord.MaskBytes | src/spinlock.c:110-113 | the masks of hart p, shifted as ints, split the word at byte p % 4 |
| FlagWord.OrderTests | src/spinlock.c:134-145 | the two ordered waits look at the harts below p % 4, and from p % 4 on |
| FlagWord.OrderedExactlyToThree | src/spinlock.c:110-145 | they are the waits of the protocol, in every flag state, if and only if p is at most 3 |
| FlagWord.FromFourOn | src/spinlock.c:110-145 | flag states in which, for each hart from 4 on, the first wait ends too early and the second too late |
| FlagWord.FourthHartWaitsForNobody | src/spinlock.c:113-134 | the failing input: hart 4 goes on while hart 0 has flag 4 |
| FlagWord.StoreIsTheWrite | src/spinlock.c:60-69 | a byte store changes the flag of its hart and no other |
| LockAsWritten.WaitingRoomIsDead | src/spinlock.c:119-130 | in no run of the written body does a flag byte hold `ASP_ST1` or a hart enter the branch |
| LockAsWritten.RoomIfEntered | src/spinlock.c:124-130 | what the branch would do with a byte `ASP_ST1`: store `ASP_ST2` and wait until hart 0, and no other, has `ASP_ST4` |
| LockAsWritten.TwoInside | src/spinlock.c:108-135 | with two or more harts there is a run with two harts past line 134 |
| LockAsWritten.ExclusiveExactlyAlone | src/spinlock.c:108-148 | the written lock excludes in every run if and only if there is at most one hart |
| LockAsWritten.ExclusiveFromTheStart | src/spinlock.c:119-135 | the written lock excludes in every run in which no two harts stand at the store of line 123 together |
| LockService.WaitsEndExactly | src/spinlock.c:121-145 | in every reachable state of the written body, which places of the other harts let the waits of lines 121, 134 and 145 end, both ways |
| LockService.DeadlockFreedom | src/spinlock.c:108-148 | as written, with any number of harts: while a hart is in a call or inside, one of these has an enabled step |
| LockService.EveryoneFinishes | src/spinlock.c:108-148 | from every reachable state, runs without a new lock call are bounded and some run ends with every hart out |
| LockService.FreeAfterEveryRun | src/spinlock.c:108-148 | once all harts are out, whatever happened before, they can lock and unlock in any order and as often as they like, each by its own steps alone, and get inside |
| LockService.OrderedEntryExactlyToFour | src/spinlock.c:110-135 | the written lock excludes in every run in which nobody passes line 134 while a lower hart stands at line 123, if and only if there are at most four harts |
| IpiTheorems.ReferenceConservation | src/ipi.c:27-126 | in every reachable state a slot's counter equals its owners, raised sends, mailbox entries, running handlers and back-outs; it is not negative, and a slot has one owner at most |
| IpiTheorems.PayloadIntegrity | src/ipi.c:27-53 | what a handler has read so far is a prefix of the words that the sender of this message passed to the call, and the rest is still in the slot |
| IpiTheorems.HandlerReadsItAll | src/mentry.S:403-418 | a handler that gives its reference back has read all the words of the call |
| IpiTheorems.NoRewriteWhileInUse | src/ipi.c:86-126 | while a mailbox or handler names a slot, no step of any hart changes its words or makes anyone its owner |
| IpiTheorems.SentMeansDelivered | src/ipi.c:44-51 | a step adds a hart to the ones served exactly when it puts the message into the empty buffer to that hart, and changes no other buffer |
| IpiTheorems.FoundFreeStaysFree | src/ipi.c:44-51 | the second test of the receiver never finds it busy again, so no target is passed over |
| IpiDelivery.CallInHand | src/mtrap.c:256-279 | in every reachable state the words and the mask that a hart works with are those of one and the same call, the last it made |
| IpiDelivery.ExactMulticast | src/ipi.c:27-53 | when the loop is over, the harts served are exactly those of the mask passed to the call below `num_harts`, each once, with the words passed to it; the same for `ipi_send_signal` |
| IpiDelivery.ExactlyOnce | src/ipi.c:27-137 | in every run, what hart q asked hart r for, r has done as often, with the words it read itself, but for what is under way; and nothing that it was not asked for |
| IpiDelivery.EveryCallIsCarriedOut | src/ipi.c:27-137 | every run goes on without new calls to one in which every hart has done exactly what it was asked for |
| IpiTheorems.CounterFits | src/ipi.c:107-126 | with at most 64 harts the counter stays below 2^31 |
| IpiSafety.StepKeepsInv | src/ipi.c:27-126 | every step of every hart keeps the invariant from which the pool's safety results follow |
| IpiProgress.StepLowers | src/ipi.c:30-59 | every step other than a new call and the look at an empty mailbox lowers a well-founded measure |
| IpiProgress.SpinningIsNotDeadlock | src/ipi.c:44-46 | while a hart spins on a busy receiver some hart has a step that lowers the measure |
| IpiProgress.AlwaysDrainable | src/ipi.c:30-52 | from every reachable state a run without new calls completes all calls, empties the mailboxes and frees every slot |
| IpiProgress.AloneTakesFirstFree | src/ipi.c:107-126 | an undisturbed call takes the first free slot from its hart's own on, and counts in no other |
| IpiProgress.AloneAfterConflict | src/ipi.c:112-119 | a hart that loses a slot gives it back and takes the first free one behind it |
| IpiProgress.OneMessageThenScan | src/ipi.c:118-122 | when the scan has come round the hart reads one message and no more before it looks at the slots from 0 on |
| Decode.LoadTableIsIsa | src/emu_ldst.c:425-474 | for every 32-bit word the chain of mask tests names the same load, register, width and sign as the ISA's fields, or neither does |
| Decode.StoreTableIsIsa | src/emu_ldst.c:564-625 | the same for stores |
| Decode.PrimeFields | src/emu_ldst.c:532-534 | the three-bit register fields of compressed instructions name x8 to x15 |
| Emulation.SignExtension | src/emu_ldst.c:507-512 | shifting up and arithmetically down repeats the top bit of the bytes loaded |
| Emulation.Hart.EmuMisalignedLoad | src/emu_ldst.c:411-551 | the method leaves registers, memory and CSRs as `LoadSpec` of the old ones, on every path |
| Emulation.Hart.EmuMisalignedStore | src/emu_ldst.c:553-666 | the method leaves registers, memory and CSRs as `StoreSpec` of the old ones, on every path |
| Emulation.StoreFrame | src/emu_ldst.c:644-661 | a run of byte stores leaves every other address alone |
| Emulation.StoredByte | src/emu_ldst.c:644-661 | and puts byte i at address addr + i, though addresses wrap |
| EmulationTheorems.LoadIsArchitectural | src/emu_ldst.c:411-551 | an accessible load of any decoded integer form writes the extended little-endian value to the destination's slot and to no other, and advances mepc by 2 or 4 |
| EmulationTheorems.TrappedLoadChangesNothing | src/emu_ldst.c:481-529 | when a fetch or any byte traps, or nothing decodes, no register and no memory changes and mepc is the instruction |
| EmulationTheorems.StoreIsArchitectural | src/emu_ldst.c:553-666 | an accessible store writes the low bytes of its source slot and nothing else; it is the ISA's store if and only if slot 0 is clean where x0 is stored |
| EmulationTheorems.FaultingLoadStopsThere | src/emu_ldst.c:481-496 | a load whose byte i is the first to trap changes nothing but mcause, the cause of that trap, and mtval, the address of that byte; it is repeated after a TLB miss and redirected otherwise |
| EmulationTheorems.TrappedFetch | src/emu_ldst.c:513-530 | cause, address and result after a trap of the fetch, for loads and stores: access and page faults become those of a fetch, at the pc |
| EmulationTheorems.NotEmulated | src/emu_ldst.c:470-530 | a word that is no load or store of the ISA is redirected as misaligned with the address it came with; a word of 0 is taken for a fetch trap |
| EmulationTheorems.FaultingStoreStopsThere | src/emu_ldst.c:644-659 | a store whose byte i is the first to trap leaves the bytes below i stored and no other change but mcause and mtval = addr + i; it is repeated after a TLB miss and redirected otherwise |
| EmulationTheorems.MissIsPartial | src/emu_ldst.c:647-653 | a TLB miss leaves a prefix of the store and everything as before a retry |
| EmulationTheorems.RestartableStore | src/emu_ldst.c:553-666 | any finite series of TLB-miss restarts that ends in success leaves the memory of one store |
| EmulationTheorems.ZeroStoreAfterLoad | src/emu_ldst.c:536-537 | after a load, a store of x0 writes zeros if and only if the load had another destination or the bytes in memory that it read, as far as the store is wide, were zero |
| EmulationTheorems.SlotZeroStaysClean | src/emu_ldst.c:411-666 | over any series of emulated accesses the slot of x0 stays zero if and only if no completed load of x0 reads a byte other than zero |
| EmulationTheorems.ZeroStoreExample | src/emu_ldst.c:536-537 | an instance where it does not |
| Crc16.Crc16CcittUpdate | include/crc.h:20-31 | the branching loop computes the update of the fold |
| Crc16.Crc16CcittUpdateBranchFree | include/crc.h:32-38 | the branch-free loop computes the same update |
| Crc16.BitStepLinear | include/crc.h:26-31 | the bit step commutes with exclusive or |
| Crc16.StepsZero | include/crc.h:26-31 | no number of bit steps takes a nonzero register to zero |
| Crc16.FlatIs | include/crc.h:20-41 | the bits of a message as the theorems count them: each byte from its highest bit down |
| Crc16.CrcIsFeed | include/crc.h:20-41 | feeding bytes is feeding their bits |
| Crc16.FeedLinear | include/crc.h:20-41 | the fold commutes with exclusive or of start values and messages |
| Crc16.BurstIsDetected | include/crc.h:20-41 | for messages of any length, a change confined to 16 consecutive bits changes the CRC folded from 0 |
| CrcRemainder.CrcIsRemainder | include/crc.h:20-41 | the CRC folded from 0, and nothing else, is the remainder of the message times x^16 modulo x^16 + x^12 + x^5 + 1 |
| Crc16.AcceptIsZeroResidue | src/xmodem.c:171-183 | the accept test holds if and only if the CRC of payload and trailer together is zero |
| Crc16.DamagedFrameIsRefused | src/xmodem.c:171-183 | a frame with zero residue never passes after a burst in payload or trailer |
| Xmodem.StepKeepsGood | src/xmodem.c:115-212 | every event keeps: the buffer holds the accepted packets end to end while they fit, the count is their length, the number expected is the count of packets plus one modulo 256, and a positive result is that count |
| Xmodem.BufferHoldsAccepted | src/xmodem.c:169-201 | after any input the buffer starts with the data of the packets accepted, in order, as long as they fit |
| XmodemReceive.Session.ControlTurn | src/xmodem.c:116-153 | one turn of the wait for a control byte follows the event machine on the bytes it consumed |
| XmodemReceive.Session.ReceivePacket | src/xmodem.c:155-212 | the packet loop follows the event machine on the bytes it consumed, on every exit |
| XmodemReceive.Session.Verdict | src/xmodem.c:174-210 | the judgement of a complete packet is the event machine's |
| XmodemReceive.XmodemReceive | src/xmodem.c:97-214 | return value, buffer, output and count are those of the event machine run on the whole input |
| XmodemAnswers.NoiseIsIgnored | src/xmodem.c:116-152 | silence and other bytes bring the invitation until the first packet has begun, and nothing else |
| XmodemAnswers.EndOfTransfer | src/xmodem.c:133-140 | EOT before any packet was accepted ends with -2 and no answer, later with ACK and the size of the data |
| XmodemAnswers.Cancelling | src/xmodem.c:141-148 | CAN CAN ends with ACK and -1; after one CAN anything else is dropped |
| XmodemAnswers.FlushEnds | src/xmodem.c:84-95 | after an answer that flushes all bytes are dropped up to the first silence; then the function returns or waits again |
| XmodemAnswers.PacketInBuffer | src/xmodem.c:168-171 | a complete packet leaves its payload behind the accepted data if all of it fits there, and no byte otherwise |
| XmodemAnswers.PacketAnswered | src/xmodem.c:155-212 | every complete packet is answered by its content: NAK if a check fails; ACK and one more packet if it has the number expected; ACK or CAN and -3 for the number before; CAN and -2 for every other number |
| XmodemAnswers.AcceptedExactly | src/xmodem.c:178-210 | an intact packet is accepted if and only if it has the number expected; any other leaves the accepted data alone |
| XmodemAnswers.CutPacketIsRefused | src/xmodem.c:160-165 | a packet cut short after any number of bytes is answered with NAK and counts nothing |
| XmodemLink.PacketRun | src/xmodem.c:155-178 | a whole packet on the line brings the machine to its judgement with exactly the bytes sent |
| XmodemLink.NewPacketIsAccepted | src/xmodem.c:198-204 | the expected packet is acknowledged, counted once and appended |
| XmodemLink.RepeatedPacket | src/xmodem.c:188-210 | the packet before is acknowledged without being counted if and only if its number is not 255 and a retry is left; otherwise the transfer is cancelled with -2 or -3, and the data stays |
| XmodemLink.DamagedPacketIsRefused | src/xmodem.c:178-187 | damage of payload and trailer within 16 consecutive bits is answered with NAK and counts nothing, whatever the header |
| XmodemLink.DamagedHeaderIsRefused | src/xmodem.c:178-182 | so is a number that does not match its complement |
| XmodemLink.BurstRefusedExactly | src/xmodem.c:171-187 | after a burst of up to 16 bits anywhere from number to trailer a packet is refused if and only if number and complement no longer match or payload or trailer was hit |
| XmodemLink.HeaderBurst | src/xmodem.c:178 | any other number with its own complement is within 16 consecutive bits of the one sent |
| XmodemLink.HeaderBurstIsAccepted | src/xmodem.c:178-204 | the failing input: packet 1 repeated with such a header is acknowledged and stored a second time |
| XmodemLink.RoundTrip | src/xmodem.c:97-214 | packets sent and received undisturbed return the length of the data, with the data in the buffer if and only if it fits, for any number of packets |
| XmodemLossy.LineIsGenuine | src/xmodem.c:115-212 | over a line that loses, cuts short, breaks the header's complement or damages payload and trailer within 16 bits, a packet that passes every check is the one being sent |
| XmodemLossy.Safety | src/xmodem.c:115-212 | over such a line, however often packets and replies are lost or damaged, what was accepted is the first packets sent, each once and in order, and the buffer starts with their data while it fits |
| XmodemLossy.Completeness | src/xmodem.c:133-140 | when the sender had all acknowledged and the function returns a count, it has received everything |
| XmodemLossy.Delivery | src/xmodem.c:115-212 | if no packet arrives whole more than 25 times, and packet 255 once, then once all packets are acknowledged and EOT arrives the function returns the size of all the data, in the buffer if and only if it fits |
| XmodemLossy.CanFinish | src/xmodem.c:115-212 | from every such state some further attempts have everything acknowledged |
| Flash.Burst | src/xqspi.c:566-571 | the transmit loop sends the next bytes of the buffer, at most 256, and no more than the page wants |
| Flash.WritePage | src/xqspi.c:545-597 | one program command with the bytes up to the end of the page or of the sector's data |
| Flash.WriteSector | src/xqspi.c:540-598 | one erase, then the pages of the sector; the address advances by a sector |
| Flash.FlashWrite | src/xqspi.c:509-601 | the loop nest sends exactly `FlashCommands`, for any start and size |
| Flash.UnitsLeft | src/xqspi.c:526-529 | the rounded-up quotient counts the sectors that hold data |
| FlashStream.WholeBufferIsSent | src/xqspi.c:509-601 | for every start and size the data of the program commands is the buffer, in order, each at the start plus the bytes before it, 256 or the rest at a time, and each stretch of 4096 bytes is erased just before its first byte |
| FlashTheorems.WrittenCell | src/xqspi.c:509-601 | the value of every cell of the chip after a write whose pages do not wrap, whatever the alignment to sectors |
| FlashTheorems.AlignedWrite | src/xqspi.c:509-601 | from the start of a sector: the buffer, then 0xFF to the end of the last sector, everything else unchanged |
| FlashTheorems.ProgramsStayInPage | src/xqspi.c:543-598 | each program command ends in the 256-byte page where it starts |
| FlashTheorems.ReadsBackExactly | src/xqspi.c:508-601 | every buffer reads back from every chip if and only if the data ends in its first page, or starts a page and ends in its first sector, or starts a sector |
| MemCheck.PowerOfTwoTest | memcheck/memcheck.c:48 | the bit test passes powers of two and zero, and nothing else, for words of any width |
| MemCheck.CheckRegion | memcheck/memcheck.c:50-60 | names the first test a region fails; accepts exactly aligned powers of two of at least 64 bytes |
| MemCheck.CheckNestedness | memcheck/memcheck.c:62-71 | the wrapped sums decide exactly whether the lower region lies inside the higher |
| MemCheck.CheckMap | memcheck/memcheck.c:73-82 | accepts exactly the maps that are well formed with no region inside a later one, and otherwise names the first fault |
| MemCheck.NestedOrDisjoint | memcheck/memcheck.c:56-59 | of two well-formed regions the one that is not larger lies inside the other or apart from it |
| MemCheck.LaterIsInside | memcheck/memcheck.c:62-80 | in an accepted map a later region that meets an earlier one lies strictly inside it |
| MemCheck.LastMatchIsSmallest | memcheck/memcheck.c:62-80 | for any address the last region that contains it is strictly smaller than, and inside, every other that does |
| MemCheck.AcceptedExactly | memcheck/memcheck.c:62-80 | and conversely: a well-formed map is accepted if and only if the later of two regions that share an address is strictly inside the earlier |
| Napot.DecodeTail | include/pmp.h:26-41 | every register value decodes to the range its trailing ones stand for; a range of the whole space gets size 0 |
| Napot.RoundTripExactly | include/pmp.h:26-56 | for aligned regions of 2^k bytes, decoding what the macro writes gives base and size back if and only if 3 <= k < 64 |
| Napot.EncodeDecoded | include/pmp.h:26-56 | writing what a register decodes to gives the same register |
| Napot.DecodedIsMatched | include/pmp.h:26-41 | below half of the address space the decoded range holds exactly the addresses that the hardware matches |
| Napot.DecodesExactly | include/pmp.h:28-41 | a register decodes to the addresses it matches if and only if it has fewer than 61 trailing ones; the larger regions decode to an empty range |
| Bitmap.Ffs | include/bitops.h:41-70 | the least set bit, and 63 for zero |
| Bitmap.Fls | include/bitops.h:86-115 | the greatest set bit, and 0 for zero |
| Bitmap.FindNextBit | include/bitops.h:188-225 | for maps of any length: the least set bit from the offset on below the size, else the size |
| Bitmap.ForEachSetBitFrom | include/bitops.h:120-123 | visits exactly the set bits from the start to the size, each once, in order |
| Bitmap.ForEachSetBit | include/bitops.h:117-118 | visits exactly the set bits of a word without its top bit, each once, in order |
| Bitmap.ForEachSetBitEnds | include/bitops.h:117-118 | with the shift that RV64 makes of a shift by 64, the loop ends if and only if the word has no top bit |
| Bits.AndIsBitwise | include/bitops.h:41-70 | the arithmetic `And` of the model is the bitwise one |
| L3Pmu.Pmu.CfgMatch | src/l3_pmu.c:183-254 | return value, table and registers in every case: the event recorded has the code asked for and exactly the supported ones of the banks asked for; each call keeps that an active event counts in at least one bank and its bank count is the popcount of its mask |
| L3Pmu.Pmu.Start | src/l3_pmu.c:256-302 | exactly the chosen active counters get their share of the value and their event, in the banks of their mask |
| L3Pmu.Pmu.Stop | src/l3_pmu.c:304-328 | exactly the chosen active counters are stopped, and with the flag reset |
| L3Pmu.Pmu.Read | src/l3_pmu.c:330-336 | the sum of the counter over the banks of its mask, cut to 64 bits, or an error |
| L3Pmu.Pmu.WriteBanks | src/l3_pmu.c:97-151 | one counter written in the banks of a mask, everything else unchanged |
| L3Pmu.ReadAfterStart | src/l3_pmu.c:280-336 | a counter started at v reads v - v mod banks before it counts |
| L3Pmu.MatchIsStep | src/l3_pmu.c:218-241 | a successful match without the skip flag takes the first free counter and records the code and banks asked for, which keeps the table good |
| L3Pmu.MatchesAreDistinct | src/l3_pmu.c:183-328 | over any series of calls, two such matches with no reset of the first's counter between them give two counters |
| L3Pmu.CountsWhatWasMatched | src/l3_pmu.c:183-302 | a counter matched with a code and started any time before its reset has that code in the select register of exactly the supported banks asked for |
| L3Pmu.ReadCountsEvents | src/l3_pmu.c:121-136 | a read gives what was read before and the events counted since by this counter in the banks of its mask, and no others, modulo 2^64 |
| Ranges.SfenceHandler | src/mentry.S:182-205 | everything for a negative size or for address and size 0, else one `sfence.vma` for each page, at least one |
| Ranges.FenceExactly | src/mtrap.c:253-279 | a request of more than four pages flushes everything; a smaller one flushes exactly the pages that meet it |
| Ranges.CacheLoop | include/cache.h:370-408 | for lines of any power of two: as many turns as the wrapped count says, each a line further than the one before |
| Ranges.CountExactly | include/cache.h:379-385 | the count is that of the lines that meet the range if and only if size and offset together fit the address space |
| Ranges.LinesExactly | include/cache.h:379-385 | the lines that the loop works on are exactly those that hold a byte of the range, addresses wrapping, if and only if the same holds |
| Ranges.SplitReadIsInstant | src/l2_pmu.c:134-158 | the value read is one the counter has during the call, at any speed short of coming round |
| Ranges.SlowCounter | src/l2_pmu.c:134-158 | with fewer than 2^32 ticks it is the value at the second or fourth register read |

## Left out

- The lock and the pool are state machines over their steps, not methods: a method in Dafny runs alone, so interleaving is expressed by schedules; local loop order is kept, fairness is not modelled.
- Weak memory, non-coherent caches and the cache maintenance inside `asp_read_flags` and `asp_write_flag`: sequential consistency is assumed.
- The recursive entry at src/spinlock.c:115 and the 32-bit lock word; what a compiler may do with the int shifts other than `sllw`.
- The single mailbox per receiver used without the inter-core mailbox block: mailboxes are one buffer for each sender and receiver, as include/iccm.h:76-87 documents; a hart's logical number is its mailbox number.
- What the commands SIGNAL, FENCE_I and the hart-state messages do, and the handlers' own TLB work, which is in `Ranges`; a handler reads the words of its slot in order.
- `ipi_wait_receiver_avail`, `ipi_share_msg` and hart hotplug (timed delays, cluster registers).
- XMODEM: bytes and time-outs are events of the environment; `totalbytes` is unbounded where the C `int` ends at 2^31; the sender is a stop-and-wait sender.
- XmodemLossy.Safety: leaves out damage of the start byte and of EOT, damage of payload or trailer over more than 16 bits, and a number and complement changed alike, which the code does not detect; bytes lost in the middle count as a packet cut short.
- Misaligned access on 32-bit harts and of floating-point registers; the TLB walker is the environment's; a store that overwrites its own instruction while it restarts.
- Flash: the SPI FIFO, status polling and the identification; the chip is a model of erase and program commands with four address bytes, so starts above 2^32 are outside the theorems, as the source's own FIXME says.
- Flash.FlashWrite: does not model progress messages or the fast read.
- `dump_memory_map` and the messages of the memory checker; the checker stops at the first fault, as here.
- LockService.FreeAfterEveryRun: does not model a lock call by the hart that holds the lock, which line 115 lets through.
- Bitmap.ForEachSetBit: leaves out words with the top bit; for them, by `Bitmap.ForEachSetBitEnds`, the loop does not end.
- L3Pmu.Pmu.CfgMatch: the fields of `event_idx` and `data1` are parameters, and bank numbers from 1 to 32 are assumed, as the mask of supported banks needs.
- Device tree, console, platform tables, interrupt controllers, `src/crc16.c`, counter tables: lookups, copying and user interface, which would add only easy members.
