# AstraOS kernel: a Dafny model and its proofs

AstraOS is a small bare-metal x86 kernel. This project models its stateful parts and proves what
they promise over all inputs and all runs. `dafny verify dfyconfig.toml` checks everything.

| module | models |
|---|---|
| `Words` | the unsigned integer types and counters that wrap |
| `Chip8259`, `PicDriver` | one Intel 8259A as its data sheet describes it; `interrupts/pic.c` as port traffic against a cascaded pair |
| `Idt` | `interrupts/idt.c`: gate table and dispatcher |
| `IrqSteps`, `IrqProtocol`, `IrqHazard`, `IrqMasks` | interrupt delivery as a step system with nesting; what every run keeps; the one request that is mistaken; the mask registers under nesting |
| `IsrStubs`, `EndToEnd` | `interrupts/isr.s` on the CPU's registers and stack; from a request line to the callback and back |
| `FrameBitmap`, `Families`, `MultibootMap`, `Pmm`, `PmmRuns` | `memory/pmm.c`: bitmap, boot memory map, allocator, runs of it |
| `VgaLog`, `Vga` | `drivers/vga.c`: the screen as a window on an unbounded log |
| `Keyboard` | `drivers/keyboard.c`: the ring between the interrupt and the reader |
| `Numerals`, `Serial`, `Kprintf`, `Uptime` | `kernel/kprintf.c`, `serial_puts` of `drivers/serial.c`, the uptime line of `kernel/kernel.c` |
| `Pit`, `Heap` | the sleep of `drivers/pit.c`, `kmalloc` of `memory/memory.c` |

Source that updates state in place is a class with `modifies` clauses, and each method is proved
against a function or a view of the old state. What the source promises is then proved about that
function, over runs.

**Interrupts.** A chip's IRR, ISR and IMR are sets of lines; bytes appear at the ports. Devices may
raise and drop any line before any port access, so a contract about the chips speaks of
`Settled(chip)`, the chip without its request lines, or of `Bare(chip)`, without its masks either.
`IrqSteps` runs any number of nested activations of `irq_handler`, step by step: the read of the
in-service registers, the callback, the EOI to the slave, the EOI to the master, `iret`. Callbacks
may enable interrupts, mask lines and register other callbacks; a mask call is two steps, its read
and its write. The dispatcher sends non-specific EOIs, so which bit one clears is a property of the
whole run. `RunKeepsInv` proves that it is always the sender's, above whatever the firmware left in
service (`Residue`), provided that no lost request is mistaken for a line in service.

`IrqHazard` closes that proviso. If the residue is consistent with the cascade, only a default level
7 on the master while its line 7 is in service can be mistaken. The proviso cannot be dropped:
`HazardIsReachable` gives a run from the state that `interrupts_init` leaves, and `MistakenBreaks`
shows an in-service bit lost from any such state. What a kernel must do about it is
exactly this: not turn interrupts on while line 7 is in service. `NeverEnablingLosesNone` proves
that this is enough whatever the devices do, `EnablingLosesOne` that anything else is not.
`IrqMasks` proves that the masks behave as a set of sixteen lines over every run in which no mask
call begins inside another one on the same chip, and exhibits a lost update otherwise.

**Memory.** The frames a bitmap calls free are a set (`FreeSet`), and bitmaps with equal sets are
equal. The number of bitmap words is any number from 1 to 32768. The map walk is modelled on any
memory: `Walks` relates it to the records it reads, a packed map being the case where they are the
boot loader's. Each arithmetic step of `pmm_init` wraps as in C, and lemmas named `...Iff` say
exactly when the result is still what the boot loader described. `InitialIsDescribed` puts the
result in unbounded arithmetic. `pmm_free_frame` trusts its caller; `StrayFreeSafeIff` says exactly
when a stray call does no harm.

**Console, keyboard, output.** The screen refines an unbounded log of 80-column rows, whose
contents `TextIsRendered` gives from the text alone. Keyboard interrupts may arrive between any two
steps of the reader, both in `GetChar` and in the step system of `RunKeepsLinear`. `Printf` works on
the memory from the format pointer on, gives the screen and the serial line the same rendering, and
follows the pointer past the terminator of a format that ends in a lone `%`.

## Where the code and its comments disagree

The model follows the code.

- `interrupts/pic.c:5` says that all lines are masked after the remap; lines 75-77 restore the masks found before it.
- `interrupts/idt.c:5` says that 256 gates are installed; lines 168-220 set 48 of them.
- `drivers/keyboard.c:5-6` says that extended codes are ignored; only bytes with bit 7 set are, so the second byte of an extended key counts as the plain key. The 0xE0 test on line 79 is never reached with 0xE0, which line 78 already caught.
- `memory/memory.h:29` says that `kmalloc` returns NULL on exhaustion; `memory/memory.c:39-41` panics.

## Model

| member | source | states |
|---|---|---|
| Chip8259.ByteRoundTrip | interrupts/pic.c:36-41 | reading a register through its port loses nothing: the byte's one bits are the register's lines |
| Chip8259.OrInserts | interrupts/pic.c:99 | the or with a shifted one inserts exactly that line |
| Chip8259.AndNotRemoves | interrupts/pic.c:114 | the and with its complement removes exactly that line |
| Chip8259.Highest | interrupts/pic.c:24 | fully nested mode: the lowest member, which is what a non-specific EOI clears, or 8 for an empty register |
| Chip8259.InServiceServes | interrupts/pic.c:59-73 | a chip set up so puts in service the highest line requested and not masked, above everything in service; it is requested no more and nothing else moves |
| Chip8259.RequestingOrBlocked | interrupts/pic.c:59-73 | a chip asks for the CPU exactly when some unmasked request is above everything in service |
| PicDriver.Pics.OutB | interrupts/pic.c:31-34 | a port write reaches the chip and register of its port only, whatever the devices do meanwhile |
| PicDriver.Pics.InB | interrupts/pic.c:36-41 | a port read returns the selected register and changes nothing but request lines |
| PicDriver.Pics.Init | interrupts/pic.c:53-78 | from any state, even half initialised: both chips end ready in cascade and 8086 mode with vectors 32-39 and 40-47, masks and in-service bits as before |
| PicDriver.Pics.SendEoi | interrupts/pic.c:80-86 | the highest line in service leaves the master, and for lines 8 and up the slave's too |
| PicDriver.Pics.SetMask | interrupts/pic.c:88-101 | the masks, as one set of sixteen lines, gain the named line and nothing else changes; numbers 16 to 39 change nothing |
| PicDriver.Pics.ClearMask | interrupts/pic.c:103-116 | the masks lose the named line and nothing else changes; numbers 16 to 39 change nothing |
| PicDriver.MaskWritten | interrupts/pic.c:93-100 | writing back the byte read with one bit changed moves that line in the set of sixteen, on the right chip |
| PicDriver.Pics.ReadIsr | interrupts/pic.c:118-123 | the word's bits 7 and 15 are line 7 in service on master and slave; only the read selection changes |
| PicDriver.IsrWordHoldsBoth | interrupts/pic.c:122 | both in-service registers can be read back from the word |
| Idt.GateRejoins | interrupts/idt.c:83-90 | the address split over a gate is the address that the CPU assembles |
| Idt.Dispatcher.RegisterHandler | interrupts/idt.c:69-74 | lines 0-15 get the callback, other lines are ignored |
| Idt.Dispatcher.SetGate | interrupts/idt.c:83-90 | one gate changes |
| Idt.Dispatcher.Init | interrupts/idt.c:168-220 | vectors 0-31 enter the exception stubs and 32-47 the interrupt stubs, in order; the other gates stay |
| Idt.Dispatcher.IrqHandler | interrupts/idt.c:129-162 | both chips and the callbacks run, for any vector and any service state, with both spurious paths; callbacks may change masks and the table |
| Idt.InterruptsInit | interrupts/interrupts.c:14-19 | chips configured, table installed, the cascade line open and every other mask as before |
| Idt.VectorNamesLine | interrupts/idt.c:131 | every acknowledge of a configured pair gives a vector in 32-47 that decodes to the line acknowledged, 7 or 15 for a lost request |
| Idt.AcknowledgeServes | interrupts/pic.c:53-78 | every acknowledge of the pair serves the highest such line of each chip that takes part, and nothing on a chip that lost its request |
| Idt.HandlerRestoresService | interrupts/idt.c:129-162 | whatever is in service, irq_handler puts both in-service registers back as before the acknowledge exactly when no lost request was mistaken for a line in service |
| Idt.HandlerKeepsSetup | interrupts/idt.c:129-162 | irq_handler leaves the configuration of both chips |
| Idt.HandlerRunsItsLine | interrupts/idt.c:157-159 | a real request runs its registered callback once and no other; a lost one runs none |
| IrqProtocol.InitialInv | interrupts/interrupts.c:14-19 | the protocol invariant holds where initialisation leaves the system, whatever was in service before being the residue |
| IrqProtocol.StepKeepsInv | interrupts/idt.c:129-162 | every step of devices, CPU, dispatcher or kernel code keeps it, but for a mistaken request |
| IrqProtocol.RunKeepsInv | interrupts/idt.c:129-162 | main result: over every run without a mistaken request the in-service bits above the residue are the stack of unfinished activations in strict priority order, and the lines dispatched are the lines acknowledged, in order |
| IrqHazard.OnlySevenIsMistaken | interrupts/idt.c:144-155 | only a default level 7 while line 7 is in service can be mistaken; the slave's line 15 never is |
| IrqHazard.NeverEnablingIsSound | interrupts/idt.c:157-162 | kernels that never turn interrupts on while line 7 is in service never meet it, whatever the devices do |
| IrqHazard.NeverEnablingLosesNone | interrupts/idt.c:129-162 | so over no run of such a kernel is the nesting back with an in-service bit changed |
| IrqHazard.EnablingIsHazardous | interrupts/idt.c:157-162 | turned on at such a moment, interrupts are open to a dropped request that is mistaken |
| IrqHazard.EnablingLosesOne | interrupts/idt.c:129-162 | wherever a kernel turns interrupts on with line 7 in service, some run from there brings the nesting back with an in-service bit lost |
| IrqHazard.StartsAlone | interrupts/interrupts.c:14-19 | the state after initialisation meets the start condition of these results, whatever the firmware left in service |
| IrqHazard.UnnestedIsSound | interrupts/idt.c:157-162 | with interrupts turned on in the main program only, no run meets it and activations never nest |
| IrqHazard.HazardIsReachable | interrupts/idt.c:144-162 | a run from the state of interrupts_init, with a callback that enables interrupts on line 7, that reaches the hazard |
| IrqHazard.MistakenBreaks | interrupts/idt.c:144-155 | the exclusion is exact: from any state where a mistaken request is taken, a run brings the nesting back with an in-service bit lost |
| IrqProtocol.EoiClearsItsSender | interrupts/pic.c:80-86 | each non-specific EOI clears the bit of the activation that sends it and no other |
| IrqProtocol.ReturnRestoresService | interrupts/idt.c:129-162 | whenever the nesting is back to what it was, so are both in-service registers |
| IrqProtocol.QuiescentIsOpen | interrupts/idt.c:129-162 | with no activation left a chip passes a request on exactly when one unmasked is above the residue, any at all without one; every acknowledged line has been dispatched once |
| IrqProtocol.RequestIsServed | interrupts/idt.c:129-162 | with interrupts on and nothing running, a request that the master passes on is taken, its line dispatched, and all service bits given back |
| IrqProtocol.BlockedAreNeverServed | interrupts/pic.c:53-78 | over every run, no line at or below a residue that the firmware left in service is ever acknowledged |
| IrqProtocol.ResidueStays | interrupts/pic.c:80-86 | no EOI of an activation ever clears a residue bit |
| IrqProtocol.SlaveUnderCascade | interrupts/idt.c:140-143 | a slave line in service implies that the cascade line is, if the residue is like that |
| IrqProtocol.StackDetermines | interrupts/pic.c:80-86 | the stack of activations determines both in-service registers |
| IrqProtocol.EntrySeesService | interrupts/idt.c:144-155 | at its entry the dispatcher finds the tested bit set exactly when the request was real |
| IrqSteps.UninterruptedIsIrqHandler | interrupts/idt.c:129-162 | an activation left alone does what one call of irq_handler does |
| IrqSteps.EntryReachesCallback | interrupts/idt.c:144-159 | from its entry an activation is in its callback two steps later exactly when irq_handler has one to run |
| IrqSteps.DispatchedAreEntered | interrupts/idt.c:157-159 | over every run the callbacks entered are exactly the dispatches that found one, each with its line, in order |
| IrqSteps.RegisteredIsUsed | interrupts/idt.c:69-74 | once registered, a callback is the one that every later dispatch of its line uses |
| IrqSteps.KeptHandlerRuns | interrupts/idt.c:69-74 | a line whose registration stays runs its callback at every dispatch |
| IrqSteps.RunKeepsNest | interrupts/pic.c:88-116 | mask calls under way nest as the activations do |
| IrqMasks.MasksAreASet | interrupts/pic.c:88-116 | over every run in which no mask call begins inside another on the same chip, the registers hold exactly the lines that the finished calls left masked |
| IrqMasks.StartIsClean | interrupts/interrupts.c:14-19 | its start condition, and that of the next, hold after initialisation |
| IrqMasks.UninterruptedMaskCall | interrupts/pic.c:88-116 | left uninterrupted, a mask call masks or unmasks its line and changes nothing else |
| IrqMasks.MaskedIsNeverServed | interrupts/pic.c:88-101 | over every run without colliding mask calls, a masked line is not acknowledged until a call unmasks it |
| IrqMasks.MainOnlyNeverCollides | interrupts/pic.c:88-116 | masking in the main program only is enough for that |
| IrqMasks.WriteIsRightIff | interrupts/pic.c:99-115 | a write is right exactly when the register, but for its line, is what it was when read |
| IrqMasks.MaskCanBeLost | interrupts/pic.c:99-100 | a run from the state of interrupts_init in which a callback's mask is undone by the call it interrupted |
| IsrStubs.Enter | interrupts/isr.s:116-127 | the saved registers over the old stack, flat segments and the frame pointer at the call |
| IsrStubs.FrameIsDeclared | interrupts/idt.h:23-29 | the frame behind that pointer has the layout of the declaration |
| IsrStubs.Resume | interrupts/isr.s:128-165 | after the C function all registers, DS, EIP, CS, EFLAGS and ESP come back, and ES, FS, GS equal DS |
| IsrStubs.Exit | interrupts/isr.s:129-138 | the unwinding, from any stack |
| EndToEnd.StubsAgreeWith | interrupts/isr.s:51-110 | the stubs expect an error code for exactly the vectors of an Intel CPU, and on an AMD CPU for all but 29 and 30 |
| EndToEnd.StubEntry | interrupts/isr.s:26-110 | the words on the stack at the common stub, five exactly when CPU and stub agree on the error code |
| EndToEnd.GateLeadsToStub | interrupts/idt.c:168-220 | the gate of each of the 48 vectors leads to the stub of that vector |
| EndToEnd.GateTurnsInterruptsOff | interrupts/idt.c:80-90 | every gate is present, of ring 0, an interrupt gate into the kernel's code segment: interrupts are off behind it |
| EndToEnd.Arrive | interrupts/isr.s:26-127 | the stack at the call of the C function, the frame it is handed, the kernel's code segment and interrupts off |
| EndToEnd.TransparentIff | interrupts/isr.s:128-138 | the unwinding resumes the interrupted code exactly when CPU and stub agree on the error code |
| EndToEnd.Interrupt | interrupts/isr.s:26-165 | each of the 48 vectors presents the frame with its number and error code, and resumes the interrupted code with only ES, FS, GS set to DS, exactly when CPU and stub agree |
| EndToEnd.HardwareInterrupt | interrupts/idt.c:69-162 | from acknowledge through stub and irq_handler to iret: the callback of the acknowledged line runs once, service bits and interrupted code come back, unless a lost request was mistaken |
| FrameBitmap.WithBit | memory/pmm.c:34 | the or with a shifted one sets that bit only |
| FrameBitmap.WithoutBit | memory/pmm.c:39 | the and with its complement clears that bit only |
| FrameBitmap.FullWord | memory/pmm.c:136 | a word is 0xFFFFFFFF exactly when all 32 bits are set, so the skip misses nothing |
| FrameBitmap.MarkRemoves | memory/pmm.c:32-35 | setting a bit removes that frame from the free set |
| FrameBitmap.ReleaseAdds | memory/pmm.c:37-40 | clearing a bit adds that frame to the free set |
| FrameBitmap.FreeSetDetermines | memory/pmm.c:24 | equal free sets are equal bitmaps |
| Families.OvercountIsOverlap | memory/pmm.c:97-99 | counting sets one by one overshoots their union, and meets it exactly when they are disjoint |
| MultibootMap.LoadInverts | memory/pmm.c:76-80 | a little-endian load reads back what was stored |
| MultibootMap.LowByteFirst | memory/pmm.c:76 | the byte at the lower address weighs less |
| MultibootMap.FieldsDecode | kernel/kernel.h:15-20 | the packed struct reads the four fields of an encoded record, at offsets 0, 4, 12 and 20 |
| MultibootMap.WalkIsDetermined | memory/pmm.c:75-103 | on any memory the walk reads one sequence of records only |
| MultibootMap.WalkCanBeEndless | memory/pmm.c:102 | at an entry whose size field is 0xFFFFFFFC the walk never ends |
| MultibootMap.PackedIsWalked | memory/pmm.c:72-103 | on a packed map it decodes every record once, in order |
| MultibootMap.PackedIsWalkedIff | memory/pmm.c:73-75 | exactly when the map ends below 2^32; one that reaches it is not looked at |
| MultibootMap.LastFrameWraps | memory/pmm.c:87-95 | the last frame of a region in all cases of the 64-bit and 32-bit arithmetic |
| MultibootMap.TakenIsDescribedIff | memory/pmm.c:83-97 | the frames freed for a region are its frames below 4 GiB exactly when it does not pass 2^64, one family of regions in the last page below 4 GiB apart |
| MultibootMap.MapIsDescribed | memory/pmm.c:75-103 | for a map without a region past 2^64, the frames freed are the union of those the regions describe |
| MultibootMap.DescribedIsInside | memory/pmm.c:83-97 | a region that starts on a page boundary describes exactly the frames below 4 GiB whose bytes all lie in it, if it is available |
| MultibootMap.InsideIffAligned | memory/pmm.c:91-97 | all bytes of all frames freed lie in the region exactly when it starts on a page boundary or frees none |
| MultibootMap.ExcessIsSharing | memory/pmm.c:97-99 | the counters never fall short, and overshoot exactly when two regions share a frame |
| Pmm.FrameAllocator.BitmapSet | memory/pmm.c:32-35 | the frame leaves the free set |
| Pmm.FrameAllocator.BitmapClear | memory/pmm.c:37-40 | the frame joins the free set |
| Pmm.FrameAllocator.BitmapTest | memory/pmm.c:42-45 | true exactly for frames not free |
| Pmm.FrameAllocator.MarkAllUsed | memory/pmm.c:54-56 | no frame is free |
| Pmm.FrameAllocator.FreeRange | memory/pmm.c:94-100 | the range below the bitmap's end comes free, and both counters move by its length |
| Pmm.FrameAllocator.ReserveRange | memory/pmm.c:109-125 | the range leaves the free set, and the counter follows the bits that change |
| Pmm.FrameAllocator.FreeRegion | memory/pmm.c:87-100 | one region, clipped, in 64-bit and 32-bit arithmetic |
| Pmm.FrameAllocator.VisitRecord | memory/pmm.c:75-103 | one turn of the walk, through the continue path or not, on any memory |
| Pmm.FrameAllocator.WalkMap | memory/pmm.c:72-103 | ends with every record read taken account of once: the free set is the union of what the records give |
| Pmm.FrameAllocator.FreeOffered | memory/pmm.c:58-104 | the free set after step 2, from the map or the fallback |
| Pmm.FrameAllocator.TakeBack | memory/pmm.c:106-125 | step 3 takes back the first MiB and the kernel, the counter keeping its distance |
| Pmm.FrameAllocator.Init | memory/pmm.c:51-125 | the free frames are those of the map if bit 6 is set, else those of the fallback, less the first MiB and the kernel; the counter is their number plus the overshoot, modulo 2^32 |
| Pmm.FrameAllocator.AllocFrame | memory/pmm.c:133-147 | the least free frame leaves the set and its address is returned, or zero and no change; the inner scan never fails |
| Pmm.FrameAllocator.FreeFrame | memory/pmm.c:149-156 | a used frame in range comes free and is counted; otherwise nothing changes |
| Pmm.FallbackExactIff | memory/pmm.c:61-64 | the fallback end is that of the memory described exactly below 4 GiB less 1 MiB of upper memory |
| Pmm.MapIsBitSix | memory/pmm.c:59 | the map is used exactly when bit 6 of the flags is set |
| Pmm.KernelCoveredIff | memory/pmm.c:118-125 | every byte below the kernel's end is reserved exactly when rounding the end up does not wrap |
| Pmm.OvershootIsExtra | memory/pmm.c:94-100 | the count of frames offered is the size of their union plus the overshoot |
| PmmRuns.RunKeepsSafe | memory/pmm.c:133-156 | main result: over any run that frees only what is held, held addresses are distinct, non-zero and page-aligned, and held and free frames together are always the frames free at the start, with the counter at a fixed distance |
| PmmRuns.Play | memory/pmm.c:133-156 | the allocator's methods called in any order take bitmap, counter and held addresses where the runs of these results go |
| PmmRuns.InitialFrames | memory/pmm.c:106-125 | every frame free after pmm_init is above the first MiB and the kernel, and some region gives it |
| PmmRuns.InitialIsDescribed | memory/pmm.c:51-125 | on the map path, in unbounded arithmetic: exactly the frames the regions describe at or above the first MiB and the kernel's end are free |
| PmmRuns.InitialIsAvailable | memory/pmm.c:51-125 | with bit 6 set and page-aligned regions: exactly the frames whose bytes are all available, below 4 GiB, above the first MiB and above the kernel are free |
| PmmRuns.InitialIsUpper | memory/pmm.c:59-70 | with bit 6 clear: exactly the frames below the end of the upper memory, above the first MiB and above the kernel are free, and the counter is exact |
| PmmRuns.HeldWasFree | memory/pmm.c:133-156 | every address ever held is the page address of a frame free at the start |
| PmmRuns.HeldFramesAreAvailable | memory/pmm.c:51-156 | from pmm_init on, every address held is at or above 1 MiB and the kernel's end, and all its 4096 bytes lie in an available region when regions start on page boundaries |
| PmmRuns.CounterExactIff | memory/pmm.c:94-125 | the counter is the number of free frames exactly when the overshoot is a multiple of 2^32 |
| PmmRuns.CounterExactIffNoneShared | memory/pmm.c:94-125 | for maps of fewer than 2^32 frames in all, exactly when no two regions share a frame |
| PmmRuns.CounterNeverWraps | memory/pmm.c:94-125 | and then the counter is the free count plus the overshoot with no wrap or underflow, whatever is free |
| PmmRuns.AllocIsFirstFit | memory/pmm.c:133-147 | the frame returned is the least free one, and zero means that nothing is free or frame 0 is |
| PmmRuns.FreeUndoesAlloc | memory/pmm.c:149-156 | freeing what was just allocated restores set and counter; freeing it again does nothing |
| PmmRuns.StrayFreeSafeIff | memory/pmm.c:149-156 | freeing an address nobody holds is harmless exactly when its frame is free already or out of range |
| VgaLog.HistoryIsFinal | drivers/vga.c:36-98 | rows the cursor has left are never changed by any later operations; they only move up |
| VgaLog.PutOnLine | drivers/vga.c:74-98 | one character changes one cell of the log read as one line, and moves the cursor along it |
| VgaLog.CharacterIsDrawn | drivers/vga.c:89-90 | every character but line feed and return is drawn where the cursor was, in the current colour |
| VgaLog.CursorMoves | drivers/vga.c:76-97 | row and column after each character; the screen scrolls at the end of its last line and only then |
| VgaLog.ShownIsLinear | drivers/vga.c:36-50 | the screen shows the last 25 rows of the log read as one line |
| VgaLog.ClearedIsBlank | drivers/vga.c:58-67 | a cleared screen is blank in every cell and the cursor is home |
| VgaLog.CellReadsBack | drivers/vga.c:24-33 | character, foreground and background can be read back from a cell |
| VgaLog.TextIsPlayed | drivers/vga.c:100-105 | operations on single characters write text |
| VgaLog.TextIsRendered | drivers/vga.c:74-98 | main result: after any text every cell of the log holds the last character written there, or what was there, or a blank |
| VgaLog.PutAllAppends | drivers/vga.c:100-105 | writing two strings is writing their concatenation |
| Vga.Screen.Scroll | drivers/vga.c:36-50 | the overlapping copy is exact: all rows but the first, then a blank one in the current colour |
| Vga.Screen.Clear | drivers/vga.c:58-67 | every cell of the buffer is a blank in the current colour, the cursor is home, and the log goes on below |
| Vga.Screen.Init | drivers/vga.c:52-56 | every cell of the buffer is a blank in light grey on black |
| Vga.Screen.SetColor | drivers/vga.c:69-72 | only later characters change colour |
| Vga.Screen.PutChar | drivers/vga.c:74-98 | the buffer goes on showing the last 25 rows of the log, all writes in bounds, for line ends, returns, wraps and scrolls |
| Vga.Screen.Play | drivers/vga.c:58-98 | any sequence of clears, colours and characters leaves the buffer showing the last 25 rows of the log that the sequence makes |
| Vga.Screen.Puts | drivers/vga.c:100-105 | the string up to its terminator is written |
| Vga.ScrollShows | drivers/vga.c:36-50 | a scrolled buffer shows the log with one more row |
| Keyboard.MaskIsBump | drivers/keyboard.c:84-107 | masking the incremented index steps round the ring |
| Keyboard.InterruptIsAccept | drivers/keyboard.c:71-91 | the handler appends the key's character to the queue, or drops it when 63 wait |
| Keyboard.ReleasesAreIgnored | drivers/keyboard.c:78 | key releases are ignored |
| Keyboard.PressesAreTaken | drivers/keyboard.c:81-90 | while there is room, a press adds its character if it has one |
| Keyboard.RowsOfKeys | drivers/keyboard.c:30-52 | the digits, the three rows of letters, space and Enter |
| Keyboard.KeyboardBuffer.Irq1Handler | drivers/keyboard.c:71-91 | the ring after one scancode; a key release leaves it alone |
| Keyboard.KeyboardBuffer.GetChar | drivers/keyboard.c:103-109 | with any interrupts between its steps: zero exactly if the queue was empty when tested, else the oldest character, and all that arrive are kept while there is room |
| Keyboard.KeyboardBuffer.Poll | drivers/keyboard.c:111-114 | true exactly when a character waits |
| Keyboard.OldestIsLoaded | drivers/keyboard.c:105-106 | what arrives after the test does not change the character loaded |
| Keyboard.OldestLeaves | drivers/keyboard.c:106-107 | the store of the tail takes out the oldest character and nothing else |
| Keyboard.RunKeepsLinear | drivers/keyboard.c:71-109 | main result: over every interleaving, consumed then waiting characters are the accepted ones in order, and at most 63 wait |
| Keyboard.ReaderDelivers | drivers/keyboard.c:103-109 | while a character waits, three steps of the reader consume the oldest |
| Keyboard.KeyLeavesReader | drivers/keyboard.c:71-91 | an interrupt leaves the reader and what it has consumed alone, and accepts what the queue gains |
| Keyboard.DropsAndEmpties | drivers/keyboard.c:84-105 | a key with a character is dropped exactly when 63 wait; the reader gives up exactly on an empty queue |
| Keyboard.ExtendedKeysAreNotIgnored | drivers/keyboard.c:77-79 | a 0xE0 prefix has no effect, so the key after it counts as a plain one |
| Numerals.ParseInvertsDigits | kernel/kprintf.c:46-53 | for every value and base 2-16, the digits read back as the value |
| Numerals.NoLeadingZero | kernel/kprintf.c:42-53 | there is no leading zero, and zero is one digit |
| Numerals.DigitsOfCase | kernel/kprintf.c:36-38 | digits above nine are small letters, or capital ones when asked for |
| Numerals.DigitsFit | kernel/kprintf.c:39-49 | at most n digits exactly for values below base^n |
| Numerals.BufferSuffices | kernel/kprintf.c:39 | 32 characters hold every 32-bit value in every base |
| Numerals.BufferIsTight | kernel/kprintf.c:39 | in base 2 the upper half of the range needs all 32 |
| Numerals.TenDecimals | kernel/kernel.c:223-224 | ten decimal digits hold every 32-bit value |
| Kprintf.SignedRoundTrip | kernel/kprintf.c:56-64 | %d reads back as the signed value, the most negative one included |
| Kprintf.NumbersReadBack | kernel/kprintf.c:93-104 | what u, d, x and X print reads back as the argument, in decimal or hexadecimal |
| Kprintf.NumbersHaveNoLeadingZero | kernel/kprintf.c:93-104 | and none has a leading zero |
| Kprintf.HexadecimalCase | kernel/kprintf.c:99-104 | x prints small letters and X capital ones |
| Kprintf.OthersAreSent | kernel/kprintf.c:87-111 | c prints the low byte, s the string or (null), % a percent sign, and any other letter itself after a percent sign |
| Kprintf.TakesOne | kernel/kprintf.c:87-111 | which conversions take an argument, one each |
| Kprintf.PlainIsSent | kernel/kprintf.c:81-84 | text without percent signs is sent as it is, whatever follows |
| Kprintf.ConversionIsSent | kernel/kprintf.c:85-113 | a conversion is sent and the rest rendered on the arguments it leaves |
| Kprintf.EndIsSilent | kernel/kprintf.c:80 | nothing is sent for the terminator that ends the format |
| Kprintf.LonePercentIffOdd | kernel/kprintf.c:80-114 | the interpreter meets a % with nothing after it exactly when the format ends in an odd number of them |
| Kprintf.StringIsRendered | kernel/kprintf.c:80-114 | a format without a lone % at its end is rendered up to its terminator, whatever lies beyond it |
| Kprintf.LonePercentOverruns | kernel/kprintf.c:85-113 | with one, the terminator is sent as a conversion and what lies beyond is rendered on the arguments left |
| Kprintf.StopsAtEndIff | kernel/kprintf.c:80-114 | the format pointer stops at the terminator exactly when the format ends in an even number of percent signs |
| Kprintf.Console.Emit | kernel/kprintf.c:21-25 | screen and serial line get the character |
| Kprintf.Console.EmitStr | kernel/kprintf.c:27-31 | both get the string, or (null) |
| Kprintf.Console.EmitUint | kernel/kprintf.c:34-54 | both get the digits, through a 32-character buffer filled backwards |
| Kprintf.Console.EmitInt | kernel/kprintf.c:56-64 | both get sign and digits |
| Kprintf.Console.Convert | kernel/kprintf.c:86-112 | one conversion, unknown letters included |
| Kprintf.Console.Turn | kernel/kprintf.c:81-113 | one turn of the interpreter |
| Kprintf.Console.Printf | kernel/kprintf.c:75-117 | both devices get the rendering of the memory from the format pointer to where it stops, past the terminator too |
| Serial.LineEndsAppend | drivers/serial.c:121-129 | newline expansion works piece by piece |
| Serial.Com1.Puts | drivers/serial.c:121-129 | the string is sent with a carriage return before each newline |
| Uptime.IdleLoop.Fill | kernel/kernel.c:224-228 | the digits lie in the buffer last first, at most ten of them |
| Uptime.IdleLoop.ReversePrefix | kernel/kernel.c:230-232 | the swapping loop reverses the digits in place |
| Uptime.IdleLoop.PrintUptime | kernel/kernel.c:222-234 | the line sent has the base-10 digits of kprintf, built within 13 bytes |
| Uptime.ReportReadsBack | kernel/kernel.c:222-234 | the number of seconds can be read from the line |
| Uptime.IdleLoop.Pass | kernel/kernel.c:215-235 | a line is sent exactly when the second differs from the last one reported |
| Pit.NeededIsExactIff | drivers/pit.c:83 | the tick count is the time in ticks rounded up exactly up to 42949662 ms |
| Pit.ComparisonIsExactIff | drivers/pit.c:85 | wherever the counter starts, the signed comparison is right exactly while no more than 2^31 ticks have been missed |
| Pit.Timer.Irq0Handler | drivers/pit.c:51-55 | one tick, modulo 2^32 |
| Pit.Timer.SleepMs | drivers/pit.c:80-88 | it returns at the first check that finds the ticks elapsed, across a wrap of the counter, and has slept long enough up to 42949662 ms |
| Heap.PanicsIff | memory/memory.c:37-41 | requests up to the heap's size panic exactly for want of room; larger ones panic unless rounding or sum wraps |
| Heap.GrantedIsTight | memory/memory.c:37-45 | a block starts at the old offset, holds what was asked for and wastes fewer than sixteen bytes |
| Heap.KmallocHandsOut | memory/memory.c:34-46 | every call that does not panic hands out one more block, of the size asked for |
| Heap.SoundIffNoneHuge | memory/memory.c:34-46 | over any calls, blocks are 16-aligned, disjoint and below the offset exactly when no request granted was larger than the heap |
| Heap.Allocator.Kmalloc | memory/memory.c:34-46 | the outcome and the new offset, which stays in the heap |

## Left out

- Port instructions, `lidt`, `sti`, `cli`, `hlt`: the ports are the chip model; `hlt` is any number of interrupts.
- 8259A modes the driver never selects: rotating and specific EOI, special mask, special fully nested, buffered, poll. ICW1 clears the request and mask registers and the read selection, as the data sheet lists; it is taken to leave the ISR.
- PicDriver.Pics.SetMask: line numbers of 40 and more shift a 32-bit one by 32 or more, which C leaves undefined; an interrupt between the read and the write is in IrqMasks.
- PicDriver.Pics.ClearMask: the same.
- Idt.Dispatcher.IrqHandler: one call, within which no other interrupt is taken; nesting is in IrqSteps.
- EndToEnd.HardwareInterrupt: one interrupt, within which no other is taken; nesting is in IrqSteps.
- The cascade wire between the chips: the environment raises the master's line 2 and the slave's requests independently, which allows more than the hardware does.
- IrqProtocol.RunKeepsInv: excludes a lost request that is mistaken for a line in service; IrqHazard shows that the code needs it and what a kernel must do.
- IrqHazard.NeverEnablingIsSound: for a residue in which a slave line in service implies the cascade line.
- Exceptions end in `kernel_panic` (`interrupts/idt.c:118-127`), so their return path is what the stub would do if the C function returned.
- IsrStubs.Resume: the C function is taken to leave the interrupt frame as it found it and to keep the registers the calling convention protects; stack limits, the wrap of ESP and the privilege change (useresp, ss) are not modelled.
- EndToEnd.Interrupt: of the flags that delivery clears only IF is modelled; TF, NT, RF and VM come back with iret in the same way.
- The report that `pmm_init` prints (`memory/pmm.c:127-130`).
- Pmm.FrameAllocator.WalkMap: for memory on which the walk ends; MultibootMap.WalkCanBeEndless shows a malformed size field on which it does not.
- PmmRuns.HeldFramesAreAvailable: on the memory-map path only; without a map there are no regions to lie in.
- Kprintf.Console.Printf: for arguments that match the format and memory in which the format pointer comes to a stop; C leaves the rest undefined.
- Pit.Timer.SleepMs: ticks come as a finite list of counts between checks that together suffice; real-time accuracy of the divisor is not modelled.
- UART set-up and its busy wait: serial output is a growing string.
- GDT, scheduler, file system, banner, self-test, `kfree`, boot stub and linker script: stubs or plumbing.
- Compiler freedom on the non-volatile ring indices: steps happen in source order.
