# dord-os in Dafny

dord-os is a small 32-bit x86 kernel with its boot loader and disk image writer. This project models the
parts of it that carry real invariants and proves, for every input and every run, what they promise each
other.

| files | what they model |
|---|---|
| `Scheduler`, `SchedulerConservation`, `SchedulerTiming` | the scheduler as transitions on values, and what whole runs of it keep |
| `SchedulerEffects` | what each operation does to every process: who runs next, in which order the others wait, which slices change |
| `SchedulerHeap` | the same scheduler on process records linked through `next`, proved to take exactly those transitions |
| `SchedulerLock` | the scheduler lock, instruction by instruction, with timer interrupts and process switches |
| `CoreStart` | starting the application cores one at a time |
| `Pmman`, `PmmanRuns` | the bitmap allocator on its 32 words, and whole runs of allocations and frees |
| `ProcessMemory` | scheduler and allocator together: creating and ending processes |
| `ElfLoad`, `MemoryMap`, `Boot` | loading the kernel image, the BIOS memory map, the boot marks, and what they protect |
| `DfsImage`, `DfsReader`, `DfsRoundTrip`, `DfsLayout` | the image writer, the kernel's file reader and stage 2's kernel search, the round trip between them, and the bytes on the disk |
| `Numerals`, `Ppm` | number printing and parsing, and the raw PPM loader |
| `Render`, `Terminal` | clipped drawing, and the scrolling text terminal |
| `Words`, `Places`, `Bytes` | 32-bit words; positional notation; bytes, C strings and little-endian numbers |

`usz` is 32 bits wide, as in the kernel; wherever its wrap-around can matter it is written out (`Add32`,
`% WORD`). Code that updates records, arrays or globals in place is a class or a method with loops, specified
by a function of the old state; the theorems are lemmas about those functions. `dafny verify dfyconfig.toml`
checks everything.

## What turned out false, and exactly when

* A process that sleeps with a deadline that is not in the future (0 ms, or a sum that wraps the 32-bit
  clock) is popped as its own successor and lost at the next tick. The scheduler's invariant survives a sleep
  exactly when the deadline lies in the future (`SleepKeepsInvariantExactly`, `DueSleepLosesProcess`).
* `proc_create` does not look whether it got memory. Without, `proc_register` makes null the head of the ready
  queue, and everybody who was ready is lost. The number of processes is what was created less what has
  exited exactly if there was memory at every creation (`CountsExactly`, `FullMemoryLosesProcess`); those that
  are left keep their memory in any case.
* Stage 2 loads the kernel's sections over the memory that holds the file. Sections that do not overlap each
  other are loaded right for every file exactly if no byte is overwritten before it is read (`LoadsExactly`,
  `EarlyZeroingSpoils`); an image in the order of the file, loaded below it, always is, however long
  (`InOrderIsIntact`).
* The kernel marks as many blocks as its image's length rounds up to, starting at the block the image
  starts in; the memory map is marked the same way. A byte is safe from every later allocation exactly if
  its block is marked (`UntouchableExactly`), so the image, or the memory map, is protected exactly if some
  mark covers the block of its last byte (`OwnMarkProtects`, `SomeImageIsExposed`); a block-aligned one always
  is. Only an image of nearly 4 GiB, whose length does not round up in 32 bits, has no mark at all
  (`HugeImageIsExposed`). A section that wraps around the address space is not covered by its extent
  (`WrappingSectionIsExposed`).
* The memory map is sorted exactly unless two of its entries, but not all, have the largest 64-bit base
  (`SortMap`, `SortGoesWrong`); the blocks that become free do not depend on it.
* Freeing a usable entry's blocks stays inside the bitmap exactly unless the entry's end wraps 64 bits by a
  block or more (`InBitmapExactly`, `WrappingEntryLeavesBitmap`).
* The blocks freed for a usable entry hold only usable memory exactly if the entry is empty, or starts at a
  block boundary and ends at one or past 16 MiB (`FreesOnlyUsable`, `ConventionalMemorySpills`).
* Stage 2 hands a 16-bit sector count to its disk driver, so it loads the whole kernel exactly if that has
  fewer than 65536 sectors (`ReadersAgree`, `WriteThenBoot`, `LongKernelIsCut`).
* A drawing that starts before an edge and is larger than the frame buffer in that direction is cut twice;
  the visible part is drawn completely exactly if that happens on neither axis or nothing is visible
  (`DrawnExactly`, `WideImageIsCutTwice`).
* The PPM loader skips all white space behind the header, so it returns the pixels exactly if the first
  pixel byte is neither white space nor `#` (`LoadInverts`, `SpacePixelIsLost`).
* The PPM loader reads past its buffer exactly if the buffer has fewer than two bytes and lies in the last
  two of the address space, or if pixels are wanted and their bytes end past the buffer while the 32-bit address
  computed for their end does not (`StraysExactly`, `ShortBufferStrays`, `WrappingStrays`).
* A character keeps the terminal's colour exactly if it has 7 bits or the colour is 0xFF (`ColoredParts`,
  `AccentLosesColor`).

## Model

| member | source | states |
|---|---|---|
| SchedulerConservation.Conservation | kernel/proc.c:48-144 | after every run of register, tick, sleep, yield, exit and bare schedule, the registered and not yet exited processes are exactly those running, ready or waiting, each in one place; queues without duplicates, disjoint and without idle; a current process other than idle is active |
| SchedulerConservation.StepKeeps | kernel/proc.c:48-144 | each operation keeps that invariant and changes the set of live processes only by the one registered or exiting |
| SchedulerConservation.SleepKeepsInvariantExactly | kernel/proc.c:68-81 | a sleep keeps the invariant if and only if its deadline is in the future of the 32-bit clock |
| SchedulerConservation.DueSleepStaysReady | kernel/proc.c:133-138 | any other sleep leaves its caller current but marked ready, in no queue |
| SchedulerConservation.DueSleepLosesProcess | kernel/proc.c:112-143 | and the next tick loses that process, in every state |
| SchedulerConservation.BootInv | kernel/proc.c:29-32 | the state before the first schedule satisfies the invariant |
| SchedulerTiming.BoundedWaiting | kernel/proc.c:121-143 | whoever is at index k of the ready queue runs before 8 * (k + 1 + m) ticks have passed, where m processes were woken or registered in front, in every run without clock wrap |
| SchedulerTiming.BudgetStep | kernel/x86/proc.asm:35-44 | per operation: the process gets the processor, or its remaining wait falls by the ticks that passed and grows by one slice per process pushed in front |
| SchedulerTiming.StepSliced | kernel/x86/proc.asm:35-38 | the running process never has more than one slice left |
| SchedulerTiming.PunctualWaking | kernel/proc.c:91-110 | through every run a sleeper stays asleep with its deadline untouched until the clock first shows the deadline, and is ready or running then |
| SchedulerTiming.SleepLasts | kernel/proc.c:68-81 | a sleep of msec milliseconds lasts until the clock first shows the time of the call plus msec, in every run |
| SchedulerTiming.KeepsSlice | kernel/x86/proc.asm:35-38 | under ticks and registrations a process keeps the processor up to the end of its slice |
| SchedulerTiming.YieldGivesWay | kernel/proc.c:83-89 | whoever yields is last in the ready queue after the next tick, if anybody was ready |
| SchedulerTiming.IdleOnlyWhenNothingToDo | kernel/proc.c:112-119 | idle is current after a schedule only if nothing was ready and nobody was due |
| SchedulerEffects.RunsNext | kernel/proc.c:112-143 | after a schedule the current process runs on if it can, otherwise the first in line does or, if there is none, idle; a process whose slice is over goes to the end of the line |
| SchedulerEffects.WakeOrder | kernel/proc.c:91-110 | the line: sleepers that are due, whoever fell asleep earlier first, then who was ready before; the others sleep on in order |
| SchedulerEffects.ScheduleEffect | kernel/x86/proc.asm:35-44 | for every process: only the one that takes over gets a new slice, of 8 ticks, and becomes active; those woken become ready; no other time or mark changes |
| SchedulerEffects.SliceKept | kernel/proc.c:112-124 | a slice is not prolonged while its process runs, not even when nobody else is ready |
| SchedulerEffects.SliceKeptThroughout | kernel/proc.c:112-124 | so through every run in which the process keeps the processor |
| SchedulerEffects.SliceLasts | kernel/x86/proc.asm:35-38 | whoever takes over runs for 8 ticks, whatever ticks and registrations come |
| SchedulerEffects.SleeperTakesOver | kernel/proc.c:121-143 | when the slice is over and nobody is ready, a sleeper that is due runs right after that tick, the earliest to fall asleep first |
| SchedulerEffects.TickChooses | kernel/x86/interrupts.c:57-68 | who runs after a tick, by who is awake then |
| SchedulerEffects.ExitHandsOver | kernel/proc.c:58-66 | after an exit the first who is ready runs, or idle, and the others keep their places |
| SchedulerEffects.SleepHandsOver | kernel/proc.c:68-81 | the same after a sleep, with the caller in front of the other sleepers |
| SchedulerEffects.RegisterEffect | kernel/proc.c:48-56 | a new process is ready in front of all others, and nothing else changes |
| SchedulerEffects.NewcomerRunsNext | kernel/proc.c:48-56 | and runs from the next tick on, if the current slice is over by then and no sleeper due |
| SchedulerEffects.YieldWrites | kernel/proc.c:83-89 | a yield ends the caller's slice now and changes nothing else |
| SchedulerEffects.YieldEffect | kernel/proc.c:83-89 | at the next tick the caller goes to the end of the line if anybody is awake, and runs on otherwise |
| SchedulerEffects.ClockCounts | kernel/x86/interrupts.c:57-68 | the clock counts ticks modulo 2^32, and nothing else |
| SchedulerEffects.NeverVacant | kernel/proc.c:112-143 | once scheduling has begun, somebody has the processor after every run |
| SchedulerHeap.WakeLoop | kernel/proc.c:92-110 | the unlinking loop ends, and leaves on both lists what `After` says for all sleepers, those that left the waiting list marked ready |
| SchedulerHeap.AfterClosed | kernel/proc.c:92-110 | that is: sleepers not due, in order, stay on the waiting list; the due ones, reversed, stand before the old ready list |
| SchedulerHeap.Unlink | kernel/proc.c:95-101 | removing `*it` through the pointer to it takes out exactly that record, and touches no other list |
| SchedulerHeap.Append | kernel/proc.c:126-130 | the walk to the end puts the record last on the list |
| SchedulerHeap.Kernel.constructor | kernel/proc.c:29-32 | the scheduler as initialised is proper and satisfies the invariant |
| SchedulerHeap.Kernel.Schedule | kernel/proc.c:91-144 | the pointer code computes `Scheduler.Schedule` and keeps both lists proper |
| SchedulerHeap.Kernel.Register | kernel/proc.c:48-56 | takes the register step |
| SchedulerHeap.Kernel.Tick | kernel/x86/interrupts.c:57-68 | takes the tick step |
| SchedulerHeap.Kernel.SleepMsec | kernel/proc.c:68-81 | takes the sleep step, for every 32-bit duration |
| SchedulerHeap.Kernel.Yield | kernel/proc.c:83-89 | takes the yield step |
| SchedulerHeap.Kernel.Exit | kernel/proc.c:58-66 | takes the exit step |
| SchedulerHeap.Kernel.Perform | kernel/proc.c:48-144 | the code keeps the invariant under every legal operation |
| SchedulerLock.NeverSpins | kernel/proc.c:146-156 | in every reachable state interrupts are off while the lock is held, and a test-and-set succeeds at once |
| SchedulerLock.HandOff | kernel/x86/proc.asm:17-58 | in every run acquires and releases alternate, and each switch is followed by exactly one release, by the process it resumed or started |
| SchedulerLock.StepKeeps | kernel/x86/proc.asm:17-76 | every instruction, interrupt and switch keeps the lock's invariant |
| SchedulerLock.BootInv | kernel/kernel.c:245-261 | which holds right after the unlocked first schedule |
| SchedulerLock.TimerAlwaysReturns | kernel/proc.c:146-156 | in every run in which no process turns interrupts off itself, ordinary process code runs with interrupts on, however often locks were taken and handed over before |
| SchedulerLock.StepResponsive | kernel/proc.c:146-156 | each move keeps what that rests on: whoever is in a critical section turns interrupts on again when leaving it |
| SchedulerLock.BootResponsive | kernel/kernel.c:245-261 | which holds after the first schedule |
| SchedulerLock.ReleaseRestores | kernel/proc.c:146-156 | with any moves: a critical section ends with the interrupt flag it began with, across all interrupts and switches between |
| SchedulerLock.StartsWithInterrupts | kernel/x86/proc.asm:54-76 | a new process begins with interrupts on |
| SchedulerLock.HandlerReturns | kernel/x86/interrupts.c:57-68 | a handler that has released returns to what it interrupted, with interrupts on, and does nothing else |
| SchedulerLock.OnlyWayOut | kernel/x86/proc.asm:17-58 | whoever is switched to releases first |
| CoreStart.OneAtATime | kernel/kernel.c:234-243 | for any distinct cores and any interleaving at most one core is between its start message and its release, cores are started in the order of the list, and past the last lock every listed core has released |
| CoreStart.StepKeeps | kernel/kernel.c:80-89 | each move of any core keeps that |
| CoreStart.Progress | libk/spinlock.c:10-17 | short of the end some move other than spinning is possible |
| CoreStart.BoundedStart | kernel/kernel.c:234-243 | start-up takes at most three such moves per core and one more |
| Pmman.FitIs | kernel/pmman.c:40-59 | a run of free blocks is found exactly if there is one, and the one found is leftmost |
| Pmman.ToBlocksExact | kernel/pmman.h:27-30 | the blocks cover the bytes and are not one too many; a length whose rounding wraps gives none |
| Pmman.MaskThenShift | libk/align.h:31-35 | the alignment mask does not change the number of blocks |
| Pmman.BitsUpdate | kernel/pmman.c:7-26 | setting or clearing a bit in its word changes that block and no other |
| Pmman.BitIs | kernel/pmman.c:7-26 | block i is bit i % 32 of word i / 32 |
| Pmman.Map.GetBlock | kernel/pmman.c:21-26 | reads the block's bit |
| Pmman.Map.SetBlock | kernel/pmman.c:7-12 | marks one block and no other |
| Pmman.Map.ClearBlock | kernel/pmman.c:14-19 | frees one block and no other |
| Pmman.Map.MarkRange | kernel/pmman.c:28-32 | marks exactly the range, which is empty if its end wraps |
| Pmman.Map.ClearRange | kernel/pmman.c:34-38 | frees exactly the range |
| Pmman.Map.Search | kernel/pmman.c:45-54 | the nested loops that share an index find what trying every start finds |
| Pmman.Map.Alloc | kernel/pmman.c:40-59 | returns the leftmost fitting run's address and marks it, or 0 and changes nothing |
| Pmman.Map.Free | kernel/pmman.c:61-63 | frees exactly the blocks of the allocation |
| PmmanRuns.RunKeeps | kernel/pmman.c:40-63 | over every run of allocations and frees, live ranges are disjoint and the set bits are the reserved and the live blocks |
| PmmanRuns.LiveBytesApart | kernel/pmman.c:40-63 | in bytes: live allocations share none, and touch nothing that was in use before |
| PmmanRuns.AllocatedRange | kernel/pmman.c:40-59 | whatever is handed out starts at a multiple of 16 KiB and lies within 16 MiB |
| PmmanRuns.FreeRestores | kernel/pmman.c:61-63 | freeing an allocation restores the bitmap bit for bit |
| PmmanRuns.LiveDeterminesBits | kernel/pmman.c:40-63 | after any runs, the same live allocations mean the same bitmap |
| PmmanRuns.Perform | kernel/pmman.c:40-63 | the program on its bitmap, whose callers take 0 for failure, takes exactly the modelled steps |
| PmmanRuns.PerformAll | kernel/pmman.c:40-63 | and so do whole runs of it |
| PmmanRuns.NullStaysFailure | kernel/pmman.c:54-58 | that stays so through every run |
| PmmanRuns.NullMeansFailure | kernel/pmman.c:54-58 | while block 0 is in use the address 0 is never handed out |
| ProcessMemory.ProcessesOwnTheirMemory | kernel/proc.c:34-66 | over every run of creating, ending and scheduling processes and of other allocations and frees, with or without memory left, no process is at address 0 and each owns its record and stack: shared with no other process, no other allocation and nothing reserved |
| ProcessMemory.CountsExactly | kernel/proc.c:34-56 | over every run there are never more processes than were created and have not exited, and exactly as many if and only if there was memory at every creation |
| ProcessMemory.StepKeeps | kernel/proc.c:34-66 | each operation keeps the invariant, and says which processes it adds or loses |
| ProcessMemory.CreateKeeps | kernel/proc.c:34-56 | with memory the process created is new to the scheduler, and not null |
| ProcessMemory.CreateWithoutRoom | kernel/proc.c:34-56 | without, everybody who was ready is lost, and nobody else |
| ProcessMemory.FullMemoryLosesProcess | kernel/proc.c:34-56 | a bitmap with room for two, where that happens |
| ProcessMemory.ExitReturnsMemory | kernel/proc.c:58-66 | exiting frees the block of the process and nothing else |
| ProcessMemory.BootInv | kernel/proc.c:29-32 | the scheduler as initialised satisfies the invariant exactly if block 0 is reserved and there is memory for the idle process |
| ElfLoad.LoadSections | stage2/stage2_c.c:73-98 | the sections are copied or zeroed one after the other, on any memory, and the extent computed is the least and greatest address of those loaded |
| ElfLoad.KindsLoaded | stage2/stage2_c.c:79-97 | code and data are copied unless their address is 0, zeroed data is zeroed at any address, and other sections change nothing |
| ElfLoad.LoadsExactly | stage2/stage2_c.c:73-98 | sections that do not overlap each other end up as the file has them, for every content of memory, if and only if every byte is read before loading has overwritten it |
| ElfLoad.IntactLoadsRight | stage2/stage2_c.c:73-98 | if so, also overlapping sections do, the last one winning |
| ElfLoad.InOrderIsIntact | stage2/stage2_c.c:73-105 | which holds for images of any length whose sections come in the order of the file and lie below it |
| ElfLoad.EarlyZeroingSpoils | stage2/stage2_c.c:90-97 | two sections for which it does not |
| ElfLoad.SectionInPlace | stage2/stage2_c.c:79-97 | then every byte of a section that no later one overlaps is the file's, or zero |
| ElfLoad.CopiedAt | libk/memory.h:10-12 | an upward copy is right as long as it reads no byte it has already written, also across the end of the address space |
| Boot.MarkBoot | kernel/kernel.c:105-110 | marks exactly the blocks spanned by the kernel, the low BIOS area and the memory map |
| Boot.UntouchableExactly | kernel/kernel.c:105-110 | whatever was free before, a byte is in no allocation of any run after the marks exactly if its block is marked or above 16 MiB |
| Boot.OwnMarkProtects | kernel/kernel.c:105-110 | all of the kernel image, and all of the memory map, is so protected exactly if the block of its last byte is |
| Boot.HugeImageIsExposed | libk/align.h:31-35 | unless its length does not round up in 32 bits: then it is not marked |
| Boot.OwnMarkReaches | kernel/kernel.c:106-107 | which its own mark does exactly if rounding up makes up for where it starts in its first block, always if block-aligned |
| Boot.LowBiosProtected | kernel/kernel.c:108-108 | the low BIOS area always is |
| Boot.SectionsProtected | kernel/kernel.c:106-107 | and every loaded section that does not wrap, if the extent is |
| Boot.BootMemory | kernel/kernel.c:102-110 | stage 2's loading, the memory map and the marks together: no byte allocated in any run after them is in the low BIOS area, a loaded section or the memory map, each lies in a block the map frees, and every result 0 is a failure |
| Boot.ProperIsUsable | kernel/pmman.c:111-117 | with block-aligned entries each byte allocated is usable memory |
| Boot.SomeImageIsExposed | kernel/kernel.c:106-107 | an image that starts inside a block and loses its last byte |
| Boot.WrappingSectionIsExposed | stage2/stage2_c.c:80-83 | a section that wraps, and is loaded where no mark is |
| MemoryMap.SortMap | kernel/pmman.c:85-104 | a permutation always, and in order exactly unless two but not all bases are the largest 64-bit number |
| MemoryMap.FindMin | kernel/pmman.c:87-96 | the smallest base of the rest, or index 0 if all are the largest |
| MemoryMap.FreeUsable | kernel/pmman.c:106-118 | a block is free exactly if some usable entry, clipped at 16 MiB in 64-bit arithmetic, spans it |
| MemoryMap.Initialize | kernel/pmman.c:77-119 | the same for the map in any order |
| MemoryMap.SortGoesWrong | kernel/pmman.c:85-104 | three entries that are not sorted |
| MemoryMap.InBitmapExactly | kernel/pmman.c:111-117 | every index is below 1024 exactly unless an entry's end wraps 64 bits by a block or more |
| MemoryMap.WrappingEntryLeavesBitmap | kernel/pmman.c:111-117 | an entry that does |
| MemoryMap.FreesOnlyUsable | kernel/pmman.c:111-117 | the blocks freed for an entry hold only its bytes exactly if it is block-aligned at both ends, or at its start if it reaches past 16 MiB |
| MemoryMap.FreedIsUsable | kernel/pmman.c:106-118 | so for a map of such entries every byte of a free block is usable |
| MemoryMap.ConventionalMemorySpills | kernel/pmman.c:111-117 | the usual first entry of a PC frees bytes that are not usable |
| MemoryMap.FreesUsable | kernel/pmman.c:111-117 | every block freed contains usable memory, and for an aligned entry every such block is freed |
| DfsImage.Writer.WriteFile | write_img/write_img.c:24-46 | writes a header with the right count and next sector, the data, and zeros to whole sectors |
| DfsImage.WriteImage | write_img/write_img.c:109-138 | boot sector, all files chained in order, spare zero sectors |
| Bytes.Strneq | libk/memory.c:10-20 | true exactly if the strings agree up to a zero byte or the limit, reading neither past its end |
| DfsImage.FilesSnoc | write_img/write_img.c:111-138 | the files are those of the command line, in order |
| DfsLayout.ImageBytes | write_img/write_img.c:24-46 | the bytes of every file on an image: sector count and next sector, least significant byte first, the name in 32 bytes, zeros, and the data followed by zeros |
| DfsLayout.NextIs | write_img/write_img.c:28-36 | those numbers: one sector more than the data fills, and the sector behind it, or 0 to close the chain |
| DfsLayout.StartIs | write_img/write_img.c:28-45 | the first header is at sector 1, each other behind the data before it |
| DfsLayout.ImageEnds | write_img/write_img.c:109-138 | the boot sector comes first, and 2048 zero sectors last |
| Bytes.EncodeAt | write_img/write_img.c:35-36 | a number is stored least significant byte first |
| Bytes.DecodeAt | kernel/drivers/dfs.c:12-27 | and read so |
| Bytes.CutIs | libk/memory.c:10-20 | what is compared: all up to the first zero byte, the end or the limit |
| DfsReader.Fread | kernel/drivers/dfs.c:11-30 | on any disk whose chain ends: the first header that matches, its size modulo 2^32 and its data, or not found |
| DfsReader.FindKernel | stage2/stage2_c.c:120-135 | the same header, and as many sectors as a 16-bit count can say |
| DfsReader.FindOnDrives | stage2/stage2_c.c:113-137 | over all drives: the kernel of the first drive that has one, or none |
| DfsReader.ReadersAgree | stage2/ide.c:157-157 | both readers find the file or neither does, and they load the same bytes exactly below 65536 sectors |
| DfsReader.ImageLayout | write_img/write_img.c:28-45 | on every image each header is where the previous one says, its data follows, and the next header follows that |
| DfsRoundTrip.ChainIsWalk | write_img/write_img.c:31-36 | so both walks stay on the disk and end |
| DfsRoundTrip.ImageFinds | kernel/drivers/dfs.c:12-27 | on every image the header found is that of the first file with that name, with the file's data |
| DfsRoundTrip.WriteThenRead | kernel/drivers/dfs.c:11-30 | reading any name from a written image gives that file followed by zeros, or not found |
| DfsRoundTrip.WriteThenBoot | stage2/stage2_c.c:117-136 | stage 2 finds the same file and loads its sectors modulo 65536, so all of it exactly below 65536 |
| DfsRoundTrip.LookupIs | kernel/drivers/dfs.c:12-27 | where the file meant is the first whose name agrees within 32 bytes, and not found means that none does |
| DfsRoundTrip.LongKernelIsCut | stage2/stage2_c.c:129-129 | a kernel of 65536 sectors, of which nothing is loaded |
| DfsRoundTrip.EveryFileIsFound | kernel/drivers/dfs.c:18-18 | with names that differ within 32 bytes every file is found under its own |
| Numerals.PrintUnsigned | libk/io.c:4-49 | the buffer filled backwards holds the canonical digits of every 64-bit number, base 10 or 16, and is never overrun; read by their ASCII codes they are the number |
| Numerals.PrintedAt | libk/io.c:8-47 | every character printed is the code of '0' to '9' or 'A' to 'F' for the digit of its place, with no leading zero |
| Numerals.HexPrinted | libk/io.c:34-49 | reading hexadecimal text gives the number back |
| Numerals.NumberAt | libk/ppm.c:44-55 | a digit string stands for the number that has these digits, place by place |
| Numerals.DigitsCanonical | libk/io.c:8-13 | those digits have the number's value and no leading zero |
| Numerals.CanonicalUnique | libk/io.c:8-13 | and no other digits do |
| Numerals.PrintSigned | libk/io.c:19-32 | right for every signed 64-bit number, also the least, whose negation wraps |
| Numerals.ParseUint32 | libk/ppm.c:44-55 | the value of any digit string modulo 2^32 |
| Numerals.PrintThenParse | libk/ppm.c:44-55 | parsing a printed 32-bit number gives it back |
| Ppm.ConsumeWhitespace | libk/ppm.c:17-31 | skips white space and comments, and says whether there was any |
| Ppm.ConsumeValue | libk/ppm.c:33-42 | skips the digits |
| Ppm.PpmLoad | libk/ppm.c:57-114 | computes `Load` |
| Ppm.HeaderOf | libk/ppm.c:57-92 | the header of a written file parses back, whatever its layout |
| Ppm.LoadInverts | libk/ppm.c:57-114 | loading a written file gives its size and every pixel with its red, green and blue, for every layout, exactly if the first pixel byte is neither white space nor '#', or there is none |
| Ppm.HeaderSound | libk/ppm.c:57-92 | conversely, every header that parses is that of a raw PPM file with these numbers, followed by something that is neither white space nor a comment |
| Ppm.BodyExactly | libk/ppm.c:91-113 | what is accepted behind a header, exactly, and with which size and pixels |
| Ppm.AcceptsOnlyP6 | libk/ppm.c:57-114 | whatever is loaded is an image of the bytes behind such a header |
| Ppm.PixelsAreImage | libk/ppm.c:106-111 | pixel i has the bytes 3i, 3i+1 and 3i+2 as red, green and blue |
| Ppm.PixelChannels | libk/ppm.c:106-111 | a pixel is opaque and has red, green and blue in the order of the format |
| Ppm.PassesAgree | libk/ppm.c:98-104 | the sizing and the filling pass agree |
| Ppm.StraysExactly | libk/ppm.c:60-111 | a read leaves the buffer exactly if it has fewer than two bytes at the very end of the address space, or pixels are wanted whose bytes end past it while the 32-bit address computed for their end does not |
| Ppm.ShortBufferStrays | libk/ppm.c:60-61 | a buffer of the first kind |
| Ppm.WrappingStrays | libk/ppm.c:94-96 | a header of the second kind |
| Ppm.LoadInvertsPrinted | libk/ppm.c:57-114 | the same with the numerals of the printer |
| Ppm.SpacePixelIsLost | libk/ppm.c:84-96 | a pixel whose first byte is a space is not loaded |
| Render.ClipInside | libk/render.c:8-35 | what is drawn lies in the frame buffer and in the image, at the right place |
| Render.DrawnExactly | libk/render.c:8-35 | never more than the visible part, and all of it exactly unless an axis is cut twice and something is visible |
| Render.WideImageIsCutTwice | libk/render.c:8-35 | an image one column wider than the frame buffer whose last visible column is not drawn |
| Render.FrameBuffer.PutImage | libk/render.c:37-48 | every drawn pixel is the image's at that place, every other is unchanged |
| Render.TexelInImage | libk/render.c:37-48 | which is the one of its row and column in the image |
| Render.FrameBuffer.PixelIs | libk/render.c:37-48 | where pixels are in the frame buffer |
| Render.FrameBuffer.Rect | libk/render.c:69-78 | every drawn pixel has the colour, every other is unchanged |
| Terminal.Screen.Putc | kernel/drivers/terminal.c:26-57 | after every character the 2000 cells are the window over the unbounded sheet, with the cursor in it |
| Terminal.Screen.Write | kernel/drivers/terminal.c:65-70 | so after every text |
| Terminal.Screen.constructor | kernel/drivers/terminal.c:80-83 | a cleared screen shows the blank sheet |
| Terminal.MoveForward | libk/memory.c:30-36 | the forward copy is right for overlapping ranges that move down |
| Terminal.ColoredParts | kernel/drivers/terminal.c:46-46 | a cell holds the character below its colour, exactly unless sign extension overwrites the colour |
| Terminal.AccentLosesColor | kernel/drivers/terminal.c:46-46 | a character for which it does |
| Terminal.NewlineMeans | kernel/drivers/terminal.c:28-31 | a newline goes to the start of the next row |
| Terminal.TabMeans | kernel/drivers/terminal.c:33-37 | a tabulator goes to the next multiple of four |
| Terminal.GlyphsMean | kernel/drivers/terminal.c:45-47 | a text without control characters is put at the cursor, one cell each, and nothing else changes |
| Terminal.BackspaceTakesBack | kernel/drivers/terminal.c:39-43 | a backspace takes back the character before it, also across scrolling |
| Terminal.BackspaceMeans | kernel/drivers/terminal.c:39-43 | in general it clears the cell before the cursor, but does not leave the window |
| Terminal.WindowFollows | kernel/drivers/terminal.c:50-54 | the window of 25 rows moves by one row when the cursor leaves it, and never otherwise |
| Terminal.AppendOnly | kernel/drivers/terminal.c:26-57 | without backspaces nothing on the sheet ever changes, and the window ends in the cursor's row |

## Left out

- Port input and output, and the drivers behind it (IDE, PS/2, PIT, PIC, APIC, COM, PCI): the drive is a byte sequence, the timer a step.
- SchedulerHeap.Kernel.Exit: does not free the process's memory; `ProcessMemory` adds that to the same step, on values.
- ProcessMemory.CreateWithoutRoom: does not model what `proc_create` writes into the first 4 KiB of memory then.
- Register and stack contents in `proc_switch`: only its effect on the current process, the slice, the interrupt flag and who resumes.
- More than one processor in the scheduler: `proc_current` is one global, and the application cores only halt.
- SchedulerTiming.BoundedWaiting: assumes a clock that does not reach 2^32 milliseconds during the run; conservation does not.
- ElfLoad.LoadSections: takes the section headers as they are before loading; the source rereads them from the file in memory.
- Ppm.PpmLoad: takes buffers that end below the last address, as C pointers to their end demand.
- Boot.MarkBoot: takes ranges whose marks stay within the bitmap; the source would write behind it.
- Boot.BootMemory: takes an image of at least one loaded section that ends below 16 MiB, as the kernel's linker script gives it.
- Boot.SectionsProtected: leaves out sections whose end wraps 32 bits, for which it is false (`WrappingSectionIsExposed`).
- MemoryMap.FreeUsable: takes entries whose blocks stay within the bitmap (`InBitmapExactly` says which).
- MemoryMap.Initialize: takes the same entries, and at least one; with none the sort of the source runs through all of memory.
- Render.FrameBuffer.PutImage: assumes that no 32-bit signed sum or product overflows, which C leaves undefined.
- The blending of `render_blend_image`, whose shifts C does not define; its clipping is the one modelled.
- `io_vprintf` and its argument dispatch, fonts, keyboard and mouse decoding, ACPI, CPU identification, descriptor tables, the window server and the boot assembly.
- Command line parsing and file system errors of the image writer: its arguments are options or files with their contents.
