# OS/90 kernel model

A Dafny model of the parts of OS/90 where correctness depends on more than one function:
the interrupt dispatcher on two cascaded 8259As, the interrupt table and its critical
section, the interrupt descriptor table, the boot loader, the V86 monitor with its nested
kernel stack, the capture chains of DOS traps, and a few arithmetic routines.

`dafny verify dfyconfig.toml` checks everything.

## Two readings of the source

OS/90 is unfinished and several lines do not do what the comments beside them say. Every
model is therefore stated for a `Text.Version`:

- `AsWritten` takes the branches, constants, ports and orders that the text has;
- `Repaired` differs from it in the places listed below.

The main theorems hold of `Repaired`. Where a place decides a property, a lemma says exactly
when the text as written has it, or which run breaks it.

| place | as written | repaired |
|---|---|---|
| kernel/Scheduler.c:186 | the slave's EOI goes to port A1h, its mask register | port A0h |
| kernel/Scheduler.c:228-231 | a spurious IRQ is recognised by an empty in-service byte, and a spurious 15 is left without an EOI | bit 7 is tested, and a spurious 15 gets the EOI to the master that lines 216-219 describe |
| kernel/PnP_Mgr.c:93 | the level is ORed over the old one | the old level is replaced |
| kernel/PnP_Mgr.c:107 | the map is shifted in place, and the result is not masked (in `InterruptTable`; the dispatcher's model uses the repaired read throughout) | bits are read and the map is left alone |
| kernel/PnP_Mgr.c:126-143 | no status when the acquisition is not refused | success |
| kernel/IA32.c:91-98 | sixteen stubs at one vector | stub n at `IRQ_BASE` + n |
| kernel/Scheduler.c:261-263 | the reflection gates stop at vector 206 | at 255 |
| kernel/Intr_Trap.asm:141 | four bytes are dropped after a call with register arguments | none |
| kernel/Intr_Trap.asm:97 | an exception handler's context starts one dword above the saved registers | at them, with RD_EBP where EBP is saved |
| boot/boot386.asm:215-216 | the high halves are subtracted first | the low halves first |
| boot/boot386.asm:271-272 | the count goes down before the first copy | after each copy |
| kernel/V86.c:88 | a hook drops the links hooked before | they stay behind the new link |
| kernel/V86.c:125-139 | the walk is commented out, and its test stops before the last link | the walk runs and reaches the last link |
| kernel/V86.c:183 | EIP stays at the INT | past its two bytes |
| kernel/vm86.asm:95-97 | ESP0 is put one dword below the saved block and the outer value is lost | at the block, with the outer value saved above it and put back on re-entry |
| kernel/vm86.asm:140-159 | every store into the trap frame is a dword low, three share a slot | each register goes to its own slot |
| kernel/Debug.c:40 | the first digit goes to cell 8 | to cell 9 |

Four more things the text does are kept in both readings, with lemmas that say what they
mean: the loader never zeroes the page tables although boot/boot386.asm:419 says so
(`StaleEntriesShow`, `StaleDirectoryShows`; the kernel's own window does not depend on it); lines 354-357 there OR the directory's address into whatever CR3 held
(`NewCr3Exact`); `ExitCriticalSection` turns interrupts on whatever they were before
(kernel/include/Atomic.h:35-40), as `EntryAtomicity` has it; and a bit test for a spurious
interrupt is fooled by one that arrives while that chip's input 7 is itself in service, so
the runs are over acknowledgements for which it is not (`FairAck`).

## What each file holds

| file | content |
|---|---|
| Text, Basics, Stack | the two readings; machine integers; a stack as a list |
| Pic8259 | one 8259A in fully nested mode, with non-specific EOI |
| Dispatch | the dispatcher and both chips as a state machine; what one step keeps |
| DispatchRuns | safety and conservation over all interleavings; runs that break the text as written |
| DispatchTrace | what must happen, event by event, when interrupts nest |
| MasterDispatch | the dispatcher's code with nested interrupts, tied to the state machine and to that |
| InterruptTable | packed levels, handlers and owners; acquisition |
| EntryAtomicity | setting an entry against the dispatcher's reads, store by store |
| Idt, TrapStub | PIC initialisation, gates, stubs and register saving |
| BootAlign, BootLoader | alignment in register pairs, the load, the page tables, the first read |
| V86Monitor | nested monitor calls refine an interpreter with call and return |
| V86Stack | the kernel stack under nested entries, word by word |
| V86Nesting | the monitor with its saved contexts only in those words, still refining the interpreter |
| CaptureChain, CaptureWalk | the heap lists and the walk along one |
| Decimal, Chs | decimal printing; cylinder, head and sector to a linear address |

Handlers, real-mode code, request lines and the answers of capture handlers are arbitrary:
they are events or parameters that the theorems quantify over. In `Dispatch` a frame carries
the number of the acknowledgement that pushed it and each in-service bit the number of the
one that set it; these are history, which no branch reads, and "its own bit" means equal numbers.

## Model

| member | source | states |
|---|---|---|
| Pic8259.Chip.Victim | kernel/Scheduler.c:182-187 | a non-specific EOI resets the in-service bit of highest priority, whoever sent it |
| Dispatch.EoiPaysTop | kernel/Scheduler.c:182-187 | when a chip's bits are the frames' debts in rising priority, its non-specific EOI resets the bit that the top debtor's own acknowledgement set, and the balance of bits set and retired holds again |
| Dispatch.AckPushes | kernel/include/Platform/8259.h:81-89 | an acknowledgement pushes one frame and sets at most one bit per chip, above every bit that was set: none for a spurious 7, the cascade alone for a spurious 15 |
| Dispatch.AckTakesHighest | kernel/Scheduler.c:211-213 | INTA answers the unmasked request of highest priority above everything in service, takes it off the request lines and turns interrupts off; a spurious 7 or 15 comes only when the chip has none |
| Dispatch.AckKeepsInv | kernel/Scheduler.c:211-213 | acknowledging keeps the match between frames and in-service bits whatever arrives |
| Dispatch.CheckExact | kernel/Scheduler.c:227-247 | the checks at the head of the dispatcher keep the match exactly when a genuine interrupt is BUS_INUSE and a spurious one is recognised (or nothing would run), with an EOI for the cascade |
| Dispatch.MasterEoiRetiresOwn | kernel/Scheduler.c:184 | the master EOI of the top frame resets the bit of that frame's acknowledgement and no other |
| Dispatch.SlaveEoiRetiresOwn | kernel/Scheduler.c:185-186 | the slave EOI, even with whole interrupts between the two writes, resets the bit of the sender's acknowledgement and no other |
| Dispatch.StepExact | kernel/Scheduler.c:182-248 | from any state where the owing frames are exactly the in-service bits in rising priority, a step keeps that if and only if it is not a slave EOI to port A1h and not an unsound check |
| DispatchRuns.RunSafe | kernel/Scheduler.c:182-248 | in every state any interleaving reaches, the frames that owe a chip an EOI rise strictly in priority and are exactly its in-service bits |
| DispatchRuns.EoisOwn | kernel/Scheduler.c:182-187 | along any fair run each EOI is recorded with its sender and the bit it reset, and these belong to one acknowledgement |
| DispatchRuns.UnfairAckBreaks | kernel/Scheduler.c:216-231 | the assumption on acknowledgements is needed: without it the dispatcher's own check loses the match |
| DispatchRuns.Conservation | kernel/Scheduler.c:213-239 | over whole runs every EOI resets the bit that its own sender's acknowledgement set; no dispatch sends a chip two; a spurious 7 sends none, a spurious 15 none to the slave; when the frame stack is empty every genuine interrupt has sent one to each chip it went through, a spurious 15 one to the master for the cascade bit, and nothing is in service |
| DispatchRuns.GenuineNeverSpurious | kernel/Scheduler.c:227-233 | a genuine IRQ 7 or 15 is never taken for a spurious one, and reaches its handler if it is BUS_INUSE |
| DispatchRuns.OwingBound | kernel/Scheduler.c:233-239 | at most 15 frames owe an EOI at once |
| DispatchRuns.HandlerIsInterrupted | kernel/Scheduler.c:233-238 | from reset, for any two master IRQs in use, the higher one that arrives during the lower one's handler is acknowledged and handled on top of it, with nobody but the dispatcher turning interrupts on |
| DispatchRuns.WithdrawnIsSpurious | kernel/Scheduler.c:216-219 | a request withdrawn before INTA comes out as a spurious 7, and on the slave as a spurious 15 |
| DispatchRuns.PaidWhenGone | kernel/Scheduler.c:182-239 | when the frames are back to those from before an acknowledgement, it has sent exactly the EOIs it owed |
| DispatchRuns.SlaveEoiPort | kernel/Scheduler.c:185-186 | one undisturbed slave interrupt, from request to iret: as written its slave bit is still in service with no frame left and IRQ 13 alone is masked, repaired both chips are clear |
| DispatchRuns.StuckBitSilences | kernel/Scheduler.c:185-186 | as written no run whatever resets a slave bit, and after one is set that IRQ and every lower one on the slave is never acknowledged again |
| DispatchRuns.LastOfItsLevel | kernel/Scheduler.c:185-186 | so one slave interrupt served as written is the last of its level and of all lower ones, however the machine goes on |
| DispatchRuns.SpuriousFifteen | kernel/Scheduler.c:216-219 | a spurious 15 finds the cascade bit set; as written it stays set with nobody owing it, repaired the frame goes on to reset it |
| DispatchRuns.SpuriousTests | kernel/Scheduler.c:228-231 | the whole-byte test and the bit test agree exactly when the chip has nothing, or its input 7, in service |
| DispatchRuns.SpuriousSevenStealsEoi | kernel/Scheduler.c:228-238 | as written a spurious 7 that arrives during another master interrupt has that interrupt's bit reset |
| Pic8259.PackedDecodes | kernel/include/Platform/8259.h:81-89 | with the two bytes packed in a WORD, the dispatcher's mask and shift tests say whether a chip has anything, or its input 7, in service |
| MasterDispatch.Machine.InGetInService16 | kernel/include/Platform/8259.h:81-89 | the WORD built from the two port reads answers those tests for the two chips |
| MasterDispatch.Machine.InMasterDispatch | kernel/Scheduler.c:211-248 | the code makes a run of the state machine that ends with this frame at its iret: the checks, then with interrupts on the handler with everything its windows offer, then the EOIs, in that order |
| MasterDispatch.Machine.SendEOI | kernel/Scheduler.c:182-187 | the master's write, above 7 the slave's, with everything that the windows between and after them offer, as steps of the state machine |
| MasterDispatch.Machine.Pass | kernel/Scheduler.c:235-237 | all that a window offers and that is possible happens, in order, and an interrupt that can be taken is taken at once |
| MasterDispatch.Machine.Deliver | kernel/Intr_Trap.asm:116-144 | an interrupt begins with INTA and ends with iret; it adds the acknowledgement that INTA gave, with the dispatch in between gives the frame stack and IF back, and from a good machine has sent exactly the EOIs it owed |
| MasterDispatch.Machine.Service | kernel/Scheduler.c:211-248 | from INTA to iret, any interrupt with everything nested inside it leaves both in-service registers as it found them and has sent exactly the EOIs it owed |
| DispatchTrace.NestsAtOnce | kernel/Scheduler.c:235-237 | an interrupt offered to a handler is acknowledged right after the checks |
| InterruptTable.LevelLayout | kernel/PnP_Mgr.c:93 | a level shifted to bit 2n alone is the level of IRQ n |
| InterruptTable.StoredIsArrayUpdate | kernel/PnP_Mgr.c:93 | setting one IRQ's two bits sets that entry of the sixteen and no other |
| InterruptTable.StoredAsWrittenExact | kernel/PnP_Mgr.c:93 | as written a set takes effect exactly when the old bits are within the new level; FREE and RECL_16 never become INUSE |
| InterruptTable.FetchedAsWrittenExact | kernel/PnP_Mgr.c:105-108 | as written a read gives the level exactly when every higher IRQ is UNDEFINED |
| InterruptTable.FetchMovesLevels | kernel/PnP_Mgr.c:105-108 | as written reading IRQ n moves every level down n places, and leaves the map alone only for IRQ 0 or an empty map |
| InterruptTable.PackedMapIsArray | kernel/PnP_Mgr.c:82-108 | after any sets and reads, reading an IRQ gives the last level set for it |
| InterruptTable.AcquireTakesOrRefuses | kernel/PnP_Mgr.c:118-143 | an acquisition is refused exactly for BUS_INUSE, otherwise the IRQ is BUS_INUSE with the given handler and the kernel bus as owner; other entries stay |
| InterruptTable.InUseIsKept | kernel/PnP_Mgr.c:126-143 | once BUS_INUSE, no sequence of acquisitions made one after another changes level, handler or owner; for acquisitions that overlap see `EntryAtomicity.InUseIsKeptExactly` |
| InterruptTable.FirstAcquirerKeeps | kernel/PnP_Mgr.c:118-143 | the first to acquire an IRQ keeps it through any later requests |
| InterruptTable.AcquireAsWrittenExact | kernel/PnP_Mgr.c:126-143 | as written, when an acquisition is refused and when it leaves the IRQ BUS_INUSE |
| InterruptTable.AcquireAsWrittenIsNotKept | kernel/PnP_Mgr.c:126-143 | as written a free IRQ 0 becomes RECL_16 when acquired and the next caller takes it |
| InterruptTable.InUseAsWrittenExact | kernel/PnP_Mgr.c:126-143 | as written, exactly when one acquisition leaves level, and exactly when it leaves handler and owner, of an IRQ in use as they were, in terms of the map before the call |
| InterruptTable.KeptAsWrittenExact | kernel/PnP_Mgr.c:126-143 | over any acquisitions as written, an IRQ in use keeps its entry throughout exactly when that condition holds of each |
| InterruptTable.InterruptManager.SetInterruptEntry | kernel/PnP_Mgr.c:82-96 | the new table is the old with this entry's level, handler and owner |
| InterruptTable.InterruptManager.InGetInterruptLevel | kernel/PnP_Mgr.c:105-108 | the value is the level exactly when repaired or no higher IRQ has one; the map is left alone, or as written has every level moved down |
| InterruptTable.InterruptManager.InAcquireLegacyIRQ | kernel/PnP_Mgr.c:126-143 | status and table are those of `Acquire` |
| InterruptTable.InterruptManager.InitDetectFreeInt | kernel/PnP_Mgr.c:260-271 | when IRQ 2 is RECL_16, IRQ 9 ends BUS_INUSE, with no handler if it was not in use, and every other entry stays; as written the level map of the next row, and IRQ 9 gets no handler and the kernel bus exactly when the map's shift leaves RECL_16 |
| InterruptTable.DetectedExact | kernel/PnP_Mgr.c:260-271 | as written IRQ 9 ends BUS_INUSE exactly when IRQ 2 is RECL_16 with no level above it, or IRQ 11 was in use; every other level is lost or moves down by two |
| EntryAtomicity.RunSafe | kernel/PnP_Mgr.c:82-95 | under any two of the three rules (stores in a critical section, no set inside an interrupt, no set of an entry in use) every interleaving keeps what a dispatch has read whole and in the table |
| EntryAtomicity.TornWithoutSectionAndInIsr | kernel/include/Atomic.h:39-40 | with the level test alone there is a run in which a dispatch of a BUS_INUSE IRQ calls a handler from another set than the level |
| EntryAtomicity.TornInIsrWithoutTest | kernel/PnP_Mgr.c:46-52 | with the critical section alone there is one too: a handler sets the entry again between the dispatcher's reads |
| EntryAtomicity.TornWithoutSectionAndTest | kernel/PnP_Mgr.c:129-142 | and with the rule for drivers alone: an interrupt arrives while an entry in use is set again |
| EntryAtomicity.NeverTornExactly | kernel/Scheduler.c:233-237 | level, handler and owner always come from one SetInterruptEntry if and only if two of the three rules are kept; with the code's own level test the critical section is enough, and so is keeping the manager out of interrupts |
| EntryAtomicity.OvertakenInIsr | kernel/PnP_Mgr.c:129-142 | with the critical section and the level test both kept, a handler that acquires the same IRQ between the kernel's test and its stores loses its entry |
| EntryAtomicity.InUseIsKeptExactly | kernel/PnP_Mgr.c:126-143 | under every interleaving an entry in use keeps level, handler and owner if and only if the manager stays out of interrupts and tests first; the critical section makes no difference |
| Idt.PicPair.PicRemap | kernel/IA32.c:108-126 | from any state of the chips, the interleaved writes leave both initialised: base 20h and 28h, cascade on input 2 |
| Idt.GateRoundTrip | kernel/IA32.c:75-82 | a gate decodes to the address put in it, and the type both macros use is a present ring 0 interrupt gate, through which the processor turns interrupts off |
| Idt.GatesApart | kernel/Scheduler.c:258-267 | FillIDT and the reflection loop commute, no gate is written by both, and each of the three ranges holds its own gates; as written the reflection gates are those from 31h to 206 |
| Idt.Table.SetIntVector | kernel/IA32.c:75-82 | one gate is written and no other |
| Idt.Table.FillIDT | kernel/IA32.c:84-99 | the table after the loop and the sixteen stores |
| Idt.Table.InitDpmiReflectionHandlers | kernel/Scheduler.c:258-267 | exactly the non-system vectors get the reflection gate |
| Idt.DeliveryIsIdentity | kernel/IA32.c:91-98 | request line, PIC base, gate and stub compose to the identity on 0 to 15; as written line 0 arrives as 15 and the others not at all |
| Idt.AppendAddress | kernel/StartK.asm:54-70 | the base reads back as the address, and the other four bytes of the descriptor stay |
| TrapStub.Cpu.SaveTrapRegs | kernel/Intr_Trap.asm:27-36 | the frame's layout, EAX lowest |
| TrapStub.Cpu.RestTrapRegs | kernel/Intr_Trap.asm:38-47 | the eight pops give back what SaveTrapRegs saved, and the stack below it |
| TrapStub.Cpu.ExceptionContext | kernel/Intr_Trap.asm:75-102 | what an exception handler finds at RD_EAX to RD_EFLAGS of its context; as written each is the next word up, CS for EIP, and only EBP is right |
| TrapStub.Cpu.LowStub | kernel/Intr_Trap.asm:116-144 | the dispatcher gets the stub's number and the interrupted code goes on where it was, registers intact; as written every register and the return address come from the next word up |
| BootAlign.PageUp | boot/boot386.asm:204-207 | the least page boundary not below an address |
| BootAlign.AlignKernel | boot/boot386.asm:200-222 | the instructions on CX:AX compute the page-aligned address of the EMB, and the distance to it exactly when repaired or line 205 does not carry, that is when the low half is at most F000h; otherwise 10000h more, or FFFFh when the high half is FFFFh |
| BootAlign.AddrAlignIsLeast | kernel/PFrameAlloc.c:34-37 | for a power of two, AddrAlign gives a multiple that is at most every multiple not below the address, and itself not below it up to the last multiple |
| BootAlign.PairIsAddrAlign | boot/boot386.asm:204-207 | add, adc and and on a register pair compute AddrAlign with 4096 |
| BootLoader.MoveToEmb | boot/boot386.asm:281-287 | one XMS move: 4096 bytes at the offset, refused past the end of the block |
| BootLoader.LoadKernel | boot/boot386.asm:224-307 | which file bytes end up where, for each outcome, and that nothing else changes; a file below 256M is loaded up to its last whole page, as written without it |
| BootLoader.CopyTable | boot/boot386.asm:332-336 | the copied dwords, and nothing outside them |
| BootLoader.MapKernel | boot/boot386.asm:338-351 | entry k maps the k-th frame from the kernel address on, supervisor only |
| BootLoader.PageSetup | boot/boot386.asm:309-351 | directory and tables after setup; every other byte is as before |
| BootLoader.NewCr3Exact | boot/boot386.asm:354-357 | CR3 selects the new directory exactly when it held no other address bits; the low twelve bits go, bit 20 is set and the others stay |
| BootLoader.TranslationExact | boot/boot386.asm:328-351 | from zeroed tables every linear address: below 1M to itself for all, the megabyte at C0000000h to the kernel for the supervisor, all others fault |
| BootLoader.WindowTranslates | boot/boot386.asm:338-351 | the window alone needs no zeroing: all its entries are stored |
| BootLoader.StaleEntriesShow | boot/boot386.asm:419-427 | without zeroing, a page past the first megabyte of a window is mapped exactly when the old memory says so |
| BootLoader.StaleDirectoryShows | boot/boot386.asm:328-330 | and through any other directory entry exactly when the old entry is present and so is the table entry it leads to |
| BootLoader.LoadedIsRead | boot/boot386.asm:270-357 | loading and then building the tables makes the window read the file, whatever the tables held |
| BootLoader.Boot | boot/boot386.asm:192-357 | end to end, whatever memory held: in bytes of the file and of the block, exactly when the load succeeds, and then every byte up to the last whole page is what linear C0000000h + i reads, in the window's first megabyte; as written one page less, and shifted when line 205 carries |
| V86Monitor.IntByBytes | kernel/V86.c:141-152 | over raw memory: CDh n at CS:IP enters the segment in the high word at 4n with the offset in the low word, and leaves the caller to resume past the two bytes, or as written at them |
| V86Monitor.IretByByte | kernel/V86.c:195-213 | CFh gives the last caller back, or ends the run |
| V86Monitor.CliStiByByte | kernel/V86.c:216-223 | FAh and FBh step EIP by one |
| V86Monitor.OthersByByte | kernel/V86.c:225-232 | any other instruction stays where it is if it faults and is the processor's if not |
| V86Monitor.CallIsRun | kernel/V86.c:116-163 | a call of the interpreter is a run of the monitor that ends with the matching caller's frame back, whatever lies below it |
| V86Monitor.RunIsCall | kernel/V86.c:167-214 | a run that gets out of a call is a call the interpreter makes, with the same memory |
| V86Monitor.MonitorRefinesCalls | kernel/V86.c:116-214 | for every guest the monitor comes back to the kernel with a memory if and only if INT-as-call and IRET-as-return gives that memory |
| V86Monitor.IntReturnsPastItself | kernel/V86.c:181-185 | at any depth the handler's IRET resumes the caller of that INT, registers intact, at the next instruction |
| V86Monitor.IntReturnsExactly | kernel/V86.c:181-185 | as written code at an INT comes back if and only if some number of rounds through its handler overwrites that INT and what is there then comes back |
| V86Monitor.IntRepeatsForever | kernel/V86.c:181-185 | so a guest whose own INT, in its own memory, is never overwritten by the rounds through its handler never gets past it |
| V86Monitor.ReturnsExactly | kernel/V86.c:167-241 | for a guest whose first INT, if it meets one, is never overwritten by the handler it calls, the text as written comes back if and only if the repaired one does and no INT is met before the IRET |
| V86Monitor.AgreeWithoutInt | kernel/V86.c:167-241 | the two readings give the same result for code that meets no INT before its IRET |
| V86Monitor.Monitor.EnterV86 | kernel/vm86.asm:71-124 | comes back exactly when the interpreter does, with its memory |
| V86Monitor.Monitor.MonitorV86 | kernel/V86.c:167-241 | what each faulting instruction does to the trap frame and whether the caller is re-entered |
| V86Monitor.Monitor.Virtual86Int | kernel/V86.c:116-163 | a nested entry at the vector's address on a copy of the context is one call of the interpreter |
| V86Stack.StepKeepsWords | kernel/vm86.asm:76-97 | no entry, trap, handler store or return changes a stack word at or above the innermost saved block |
| V86Stack.EnterLayout | kernel/vm86.asm:71-97 | the saved registers word by word below the caller's stack pointer, and where ESP0 points |
| V86Stack.TrapLayout | kernel/vm86.asm:84-97 | a trap pushes its words from ESP0 down |
| V86Stack.StepKeepsInv | kernel/vm86.asm:76-124 | every active caller's block stays intact and blocks stay in order; ESP0 leads to the innermost |
| V86Stack.RunKeepsWords | kernel/vm86.asm:76-124 | over any run, no word at or above an active caller's block changes until that caller is re-entered |
| V86Stack.EnterReenterRoundTrip | kernel/vm86.asm:71-161 | a re-entered caller finds its registers and stack pointer, and its own ESP0 when repaired, whatever happened in between; as written if nothing was entered in between |
| V86Stack.OwnBlockExactly | kernel/vm86.asm:95-97 | over any run from an entry to its re-entry, ESP0 leads to the caller's own block, and the caller's stack pointer comes back, if and only if the code is repaired or nothing was entered in between |
| V86Stack.PatchedFrame | kernel/vm86.asm:135-161 | what RestTrapRegs pops after the stores into the trap frame, and that they touch nothing of the block |
| V86Stack.ReenteredRegisters | kernel/vm86.asm:135-161 | after any run, the registers popped are the caller's four; as written they are the guest's, with EDI and EDX spoilt, and the guest goes on |
| V86Nesting.EnterKeeps | kernel/vm86.asm:71-124 | C code's pushes and an entry leave every word from the old stack pointer up alone, and the return address right above the saved block |
| V86Nesting.TrapKeeps | kernel/V86.c:167-171 | a fault puts the guest's context under ESP0, CS and EIP where the trap frame has them, where it reads back the same, and changes nothing that is pending |
| V86Nesting.StepRefines | kernel/V86.c:116-214 | with all saved state in stack words, return addresses and ESP0, one instruction is one step of the monitor with its list of pending callers |
| V86Nesting.RunRefines | kernel/V86.c:116-214 | so is a run of any length, whatever the kernel's C code puts on the stack |
| V86Nesting.ReturnIsCall | kernel/V86.c:116-214 | if the outermost ScEnterV86 returns, the guest memory is the interpreter's |
| V86Nesting.CallReturns | kernel/V86.c:116-214 | if the interpreter has a result, ScEnterV86 returns with it |
| V86Nesting.StackRefinesCalls | kernel/vm86.asm:71-161 | for every guest, the monitor on the kernel stack comes back with a memory if and only if INT-as-call and IRET-as-return gives it |
| CaptureChain.HookExact | kernel/V86.c:79-89 | a hook puts the link on its chain and leaves the others; the earlier links survive exactly when repaired or there were none |
| CaptureChain.SurvivesExactly | kernel/V86.c:79-97 | over any operations a link is still on its chain exactly when nothing since has dropped it |
| CaptureChain.HookKeepsApart | kernel/V86.c:79-89 | hooking a fresh link keeps every chain free of repeats and all chains disjoint |
| CaptureChain.Chains.InitV86 | kernel/V86.c:252-262 | 256 one-link chains with the stub as handler |
| CaptureChain.Chains.OnErrorDetachLinks | kernel/V86.c:94-97 | 256 one-link chains without handlers |
| CaptureChain.Chains.HookDosTrap | kernel/V86.c:79-89 | in the heap: the head points to the new link, and that to what the head pointed to or as written to nothing; lists stay finite, NULL-ended and disjoint, and become those of `Apply` |
| CaptureWalk.Walk | kernel/V86.c:116-152 | the walk ends; it calls handlers in list order up to and including the first that accepts and none after, and that one is neither the stub nor NULL; it enters real mode at the vector's segment and offset exactly when all decline, every valid entry having been asked, and always when the chain is stubs alone |
| CaptureWalk.HandledExactly | kernel/V86.c:128-138 | the outcome is "handled" exactly when some handler on the chain accepts |
| CaptureWalk.CalledOnce | kernel/V86.c:128-138 | the handlers called and the outcome are determined by the chain and the answers |
| CaptureWalk.LastLinkMissed | kernel/V86.c:128-138 | the test as written changes the outcome exactly when only the last link would have accepted |
| Decimal.ParseDecimal | kernel/Debug.c:56-64 | k printed digits parse to the value mod 10^k |
| Decimal.DecimalParse | kernel/Debug.c:56-64 | a digit string is the zero-padded form of the number it parses to |
| Decimal.NextDigit | kernel/Debug.c:58-59 | the digit by dividing and taking mod 10 is the one that goes before those written |
| Decimal.DivisorsFit | kernel/Debug.c:62 | a divisor fits 32 bits exactly as long as it is used |
| Decimal.Uint32ToString | kernel/Debug.c:37-65 | the memory afterwards: the ten digits in the buffer, or as written from the cell in front of it, and nothing else |
| Decimal.BufferExact | kernel/Debug.c:37-65 | the buffer reads back as the value for every DWORD; as written exactly below 10^9, and the cell in front gets the tenth digit |
| Chs.StrictlyIncreasing | old/Disk.c:42-49 | the address orders valid triples as cylinder, head, sector do, and lies on the disk |
| Chs.LbaOfInverse | old/Disk.c:42-49 | every address on the disk is that of a valid triple, found by div and mod |
| Chs.InverseOfLba | old/Disk.c:42-49 | div and mod give the triple back |
| Chs.DefinedExactly | old/Disk.c:42-49 | C defines every step of the computation for every sector if and only if the disk has at most 2^31, and then each address is exact |
| Chs.ExactBound | old/Disk.c:42-49 | where `int` wraps, addresses are distinct if and only if the disk has at most 2^32 sectors, and then they are exact |

## Left out

- Dispatch.Step: acquisitions only add to the set of BUS_INUSE interrupts; the table behind it is `InterruptTable`, and its stores against the dispatcher's reads `EntryAtomicity`.
- Dispatch.CheckPc: in both readings the level test is the repaired read of the map; what the read at kernel/PnP_Mgr.c:107 does to the levels is `InterruptTable.FetchMovesLevels`.
- Dispatch.Enabled: a handler that moves IF is modelled, one that writes the PIC's mask registers is not.
- EntryAtomicity.NeverTornExactly: the reads and stores of the level map are the repaired ones, on one entry; BUS_INUSE is the only level that any code stores.
- EntryAtomicity.RunSafe: the dispatcher's read of handler and owner is one step; only the handler is read by the code, so nothing can come between.
- V86Monitor.Step: in both readings the context is where RD_EIP and RD_CS expect it; as written it is a dword higher, which is `TrapStub.Cpu.ExceptionContext`.
- V86Monitor.Monitor.EnterV86: the guest is watched for `fuel` instructions, because a guest need not return; `MonitorRefinesCalls` has no bound.
- V86Monitor.MonitorRefinesCalls: as written it takes the re-entry that the comments at kernel/vm86.asm:127-133 describe; what the instructions there do to the trap frame is `V86Stack.ReenteredRegisters`.
- V86Stack.ReenteredRegisters: the return address, flags and segment registers of a re-entry are not part of the stores; the text says they are to be copied but has no code for it. `V86Nesting` takes the caller to go on at the return address above its block.
- V86Nesting.StackRefinesCalls: repaired only; where the text as written departs is `V86Stack.OwnBlockExactly`, `V86Stack.ReenteredRegisters` and `V86Monitor.IntReturnsExactly`. The registers a DOS call returns are not copied back, as in the text.
- BootLoader.Boot: the EMB lies above the three pages at 100000h, which belong to the high memory area; opening the file, DOS read errors and the switch to protected mode are not modelled.
- CaptureWalk.Walk: NULL handlers are skipped, as kernel/V86.c:122 says, in both readings; the commented loop has no such test.
- V86Monitor.Monitor.Virtual86Int: the walk along the capture chain is `CaptureWalk`; the monitor goes straight to real mode as the text does.
- InterruptTable.InterruptManager.InitDetectFreeInt: the mask register it reads is not used.
- MasterDispatch.Machine.InMasterDispatch: `last_mode`, the V86 flag and the register argument, which are only passed on.
- HandleIRQ0 and the RECL_16 branch, whose bodies are empty; an interrupt that is not BUS_INUSE is excluded from runs.
- The compare-and-swap lock of kernel/include/Atomic.h, which nothing in the modelled code takes.
- Port delays, the interval timer, the numeric coprocessor, the screen, BIOS and DOS.
- The I/O permission bitmap: both macros at kernel/include/Platform/IA32.h:75-76 store the same offset.
- Which registers a DOS call returns: the context is copied and never written back.
- CLI and STI of a guest move EIP; their effect on the real IF inside the monitor is not modelled.
- The memory manager, file systems, executable loader, DPMI services, driver events, PnP BIOS calls and ATA transfers, which are empty or unfinished.
