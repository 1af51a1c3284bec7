# Suika OS: verified models of the kernel's memory, scheduling and of the disk installer

Suika OS is a small x86-64 kernel that boots through Limine; its repository also carries the Limine
host tool, which writes the boot stages to a disk. This project models the parts of both where a
mistake is silent and expensive, and proves what they promise, in Dafny 4.11. `dafny verify
dfyconfig.toml` checks all of it.

The kernel:

- `Heap.dfy`: the first-fit heap behind `kmalloc` and `kfree`. Its headers are words in memory; the
  list of blocks they describe is a value with its own theory, and each routine is proved to move
  from one list to the next. `HeapClient.dfy`: runs of allocations, frees and stores, as the heap's
  users see them.
- `Scheduler.dfy`: the table of 64 task slots, as a class and as a value; runs of creates, ticks and
  exits.
- `Interrupts.dfy`: the pushes and pops of the interrupt path over stack memory, and the switch
  between stacks. A ghost field remembers the registers each task should get back. `Tasks.dfy`: whole
  runs, against a machine on which every task has registers of its own. `TaskFrames.dfy`: the same with
  stacks from the frame allocator.
- `Frames.dfy`, `PageTables.dfy`, `KernelMemory.dfy`: the free list of page frames threaded through
  the frames themselves, the four-level page tables (section 4.5 of the Intel Software Developer's
  Manual, Volume 3A) in the same memory, and the operations on both, with a translation cache that may
  hold any translation that was present when it looked. Translations are the processor's; the kernel's
  own walk in software is a second reading of the same tables.
- `HeapPages.dfy`: the heap's memory is physical memory, seen through the pages that were mapped for it.
- `Apic.dfy`: the mapping of the local APIC's page, with the split of a 2 MiB page in its way.
- `Machine.dfy`: words and physical memory.

The installer:

- `UndoLog.dfy`, `Medium.dfy`, `Runs.dfy`: images, the log of overwritten bytes, and the device as values:
  what it shows through its cache after each access, complete or cut off, what the uninstall makes of a
  log, and what whole runs come to.
- `BlockDevice.dfy`: the device itself, proved against those values: the one-block write-back cache, reads
  and writes of arbitrary byte ranges through it, and the uninstall.
- `UninstallFile.dfy`, `LittleEndian.dfy`: the log as a file, and uninstalling in a later process.
- `FlatDisk.dfy`: the disk as the installer's logic sees it, an array of bytes that records what it is
  asked. `Replay` runs the recorded operations on the cached device and shows that it answers the same.
- `Volume.dfy`, `InstallerSteps.dfy`, `Conversion.dfy`, `Placement.dfy`, `Installer.dfy`: partition
  tables (sections 5.2.1 and 5.3 of the UEFI Specification), the safety checks, the conversion of an
  ISOHYBRID image, the choice of a partition, the final writes, and the run as a whole.
- `DiskBytes.dfy`, `Outcomes.dfy`: the same run from outside. For each way to install, which disks are
  accepted and what every byte of the disk is in the end, said of the bytes that were on it, with no use of
  what the steps compute. `BlockZero.dfy`: a disk on which the installer overwrites its own boot sector.
- `Chs.dfy`: cylinder-head-sector addresses. `Enroll.dfy`: enrolling a configuration checksum.

Reading guide to the main results: `BlockDevice.Session` and `BlockDevice.SessionUndone` (the cache is
invisible, and every run can be undone), `BlockDevice.Persist` with `Runs.FaithfulIffCareful` (runs that
go on after failures, and exactly which of them a flat array could have given), `BlockDevice.Device.Uninstall`
with `Medium.UninstalledByte` and `Medium.UninstallRightIff` (every byte of the disk after an uninstall, on
any medium), `Installer.Run`, `Installer.Install` and
`Installer.InstallThenUninstall` (what is accepted, what changes, and that nothing else does), with
`Outcomes.InstallLegacy`, `InstallNumbered`, `InstallDetected` and `InstallConverted`,
`KernelMemory.Manager.MapPage` and `KernelMemory.Serve` (translations and ownership of frames),
`Heap.ReachableHeap` with `Heap.Allocator.KMalloc`, `KFree` and `HeapClient.Execute`,
`Scheduling.ReadyTaskRuns`, and `Tasks.Execute` and `TaskFrames.ExecuteAll` with `Interrupts.Cpu.Irq`.

Lemmas with `Spelled` in their names say in plain numbers what a definition that the code shares comes to:
layouts, bits, selectors, signatures.

Where the code does something else than its comments or names suggest, the code is modelled, and the
difference is a theorem:

- `kfree` does not leave neighbouring blocks coalesced (`Heap.AdjacentFreeBlocksReachable`); a pass
  leaves a free pair behind exactly if it met three free blocks in a row.
- `kmalloc` hands out a block that is too small exactly for the seven largest request sizes, whose
  rounding wraps (`Heap.PayloadHoldsRequest`; `Heap.LargestRequestGetsNothing` is one of them).
- `task_exit` releases nothing: the yield that follows makes the task ready again
  (`Scheduling.ExitDoesNotRelease`), so no boot ever creates more than 63 tasks.
- `pmm_init` compares physical regions with the kernel's link addresses, which lie above all of them;
  its clip never fires, and the list has every whole usable page (`Frames.KernelRangeNeverMet`). For a kernel
  inside a region it would not keep the kernel's pages out of the list in all cases (`Frames.ClipSpelled`).
- `heap_init` reports nothing when a huge page blocks the heap's addresses and still formats the heap;
  the condition under which all 256 pages are mapped is in `KernelMemory.Manager.HeapInit`, and
  `KernelMemory.BlockedHeapIsReady` shows tables where none is.
- `vmm_virt_to_phys`, and its copy in `apic.c`, take bits 12 to 20 of a 2 MiB entry for a part of the
  address. They give what the processor uses exactly if those bits are clear
  (`KernelMemory.Manager.VirtToPhys`); with the memory-type bit set they are 4 KiB too high
  (`PageTables.PatMisread`). The split in `apic_init` is not affected: it keeps every other page where
  the processor has it, whatever those bits are (`Apic.Setup.Init`).
- A device read that fails leaves its residue in the cache under the number of the last block it reached.
  A read that follows is right, whatever the residue, exactly if it does not begin in that block
  (`Medium.RightForEveryMediumIff`, `BlockDevice.ReadAfterFailure`); a whole run returns and logs the right
  bytes exactly if no operation that can be done begins there (`Runs.FaithfulIffCareful`), and
  `Runs.CarelessNotUndone` is one that cannot be undone. The installer stops at its first failure.
- Uninstalling forgets the cache at the start and before a retry, but not after an entry that cannot be
  written back completely. An entry that begins in the block such an entry leaves puts residue on the disk,
  also into bytes that no entry covers (`Medium.ResidueKept`); `Medium.UninstalledByte` says which bytes have
  it in the end, and `Medium.UninstallRightIff` when none has.
- With the second stage at the very start of the disk the boot sector is overwritten
  (`Installer.BootSectorIntactIff`). That is what a BIOS boot partition that starts at block 0 leads to
  (`Installer.BootSectorLost`), and `BlockZero.InstallAtZero` is a disk that has one.
- The conversion of an ISOHYBRID image destroys the ISO 9660 descriptor it looked for, unless the blocks have
  512 bytes and the second header is elsewhere (`Conversion.IsoSurvivesIff`).
- The marker of a configuration checksum is only found if at least 153 bytes follow it, although the
  checksum needs 128 (`Enroll.SeenIff`, `Enroll.MarkerMissed`).

## Model

| member | source | states |
|---|---|---|
| Heap.TilesAt | src/kernel/memory/heap.c:6-10 | the tiling of the heap seen from any block: what is before it, its own 8-aligned size, what is behind it |
| Heap.TileBounds | src/kernel/memory/heap.c:22-25 | every block lies inside the heap's range and starts on an 8-byte boundary |
| Heap.BlocksDisjoint | src/kernel/memory/heap.c:38-45 | a block ends before any later one begins, so payloads meet neither other payloads nor headers |
| Heap.RoundUp8Exact | src/kernel/memory/heap.c:30 | rounding loses no bytes if and only if the size is at most 2^64 - 8; above, it gives 0 |
| Heap.FirstFit | src/kernel/memory/heap.c:32-35 | the first block that is free and large enough, or none |
| Heap.PayloadHoldsRequest | src/kernel/memory/heap.c:28-49 | the block handed out holds the request if and only if its size is at most 2^64 - 8 |
| Heap.LargestRequestGetsNothing | src/kernel/memory/heap.c:28-49 | the largest request is granted on a fresh heap with a block of no bytes |
| Heap.CarveTiles | src/kernel/memory/heap.c:38-47 | splitting a block keeps the tiling |
| Heap.CoalesceTiles | src/kernel/memory/heap.c:55-60 | the coalescing pass keeps the tiling |
| Heap.CoalesceHalvesPairs | src/kernel/memory/heap.c:55-60 | one pass at least halves the number of neighbouring free pairs |
| Heap.PairSurvivesIffTriple | src/kernel/memory/heap.c:55-60 | a pass leaves a free pair behind if and only if there were three free blocks in a row |
| Heap.FreeKeepsOnePair | src/kernel/memory/heap.c:51-61 | with at most one free pair before, a free leaves at most one |
| Heap.CoalesceKeepsLive | src/kernel/memory/heap.c:55-60 | coalescing moves, drops and resizes no live block |
| Heap.FreeRemovesOneLive | src/kernel/memory/heap.c:51-61 | a free takes exactly the freed block from the live ones |
| Heap.CarveAddsOneLive | src/kernel/memory/heap.c:38-48 | an allocation adds exactly the block it hands out to the live ones |
| Heap.RunInvariant | src/kernel/memory/heap.c:28-61 | every legal run of allocations and frees keeps the tiling and at most one free pair |
| Heap.ReachableHeap | src/kernel/memory/heap.c:28-61 | from the initial heap no run reaches three free blocks in a row, and freeing everything leaves at most two blocks |
| Heap.AdjacentFreeBlocksReachable | src/kernel/memory/heap.c:55-60 | full coalescing fails: two allocations and two frees leave two free neighbours |
| Heap.ReplaceRepresents | src/kernel/memory/heap.c:39-44 | header writes inside a replaced stretch keep the rest of the linked list and all other live payloads |
| Heap.MergeRepresents | src/kernel/memory/heap.c:56-59 | the two writes of a merge yield the merged list |
| Heap.Allocator.Format | src/kernel/memory/heap.c:22-25 | a freshly mapped heap is one free block |
| HeapPages.BehindDistinct | src/kernel/memory/heap.c:16-20 | two words of the heap are two words of physical memory |
| HeapPages.StoreWord | src/kernel/memory/heap.c:39-44 | a store through the pages changes that word of the heap's memory and no other |
| HeapPages.LoadWord | src/kernel/memory/heap.c:33-35 | a load through the pages gives the word that is there |
| HeapPages.InitHeap | src/kernel/memory/heap.c:14-26 | with enough frames, and no 1 GiB page in the way, the heap is one free block whose memory is what its pages hold |
| Heap.Allocator.KMalloc | src/kernel/memory/heap.c:28-49 | on memory: null exactly when the heap is not initialised, the size is 0 or every free block is smaller than the rounded size; otherwise the first free block that is not, cut to that size if more than 16 bytes are left for a block behind it; no live payload changes |
| Heap.GrantedFirst | src/kernel/memory/heap.c:32-48 | which block an allocation takes, and what becomes of it, in plain numbers |
| HeapClient.AllocateFirst | src/kernel/memory/heap.c:22-49 | a fresh heap grants a request if and only if it is not 0 and its rounding is at most 256 * 4096 - 24 |
| HeapClient.FreeThenAllocate | src/kernel/memory/heap.c:28-61 | a block that was freed is granted again, up to its whole size |
| Heap.Allocator.Store | src/kernel/memory/heap.c:48 | a program that stores a word in a block it was given changes no header and no other payload |
| Heap.Allocator.FindFit | src/kernel/memory/heap.c:32-35 | the search over the linked headers ends at the first fit |
| Heap.Allocator.KFree | src/kernel/memory/heap.c:51-61 | on memory: the block is released and one coalescing pass made; null does nothing; no other live payload changes |
| Heap.Allocator.CoalescePass | src/kernel/memory/heap.c:55-60 | the loop over linked headers computes the pass, and touches no live payload |
| Heap.Allocator.CoalesceStep | src/kernel/memory/heap.c:56-59 | one iteration merges at most once and then moves on; the final result of the pass stays the same |
| Heap.Allocator.Absorb | src/kernel/memory/heap.c:57-58 | a block takes over its free successor |
| HeapClient.DoMalloc | src/kernel/memory/heap.c:28-49 | an allocation adds one outstanding block, or none exactly if none fits, and harms no other |
| HeapClient.DoFree | src/kernel/memory/heap.c:51-61 | a free takes one outstanding block away and harms no other |
| HeapClient.DoStore | src/kernel/memory/heap.c:48 | a store inside the bytes asked for is kept and harms no other block |
| HeapClient.Execute | src/kernel/memory/heap.c:28-61 | over any run of allocations, frees and stores, every outstanding allocation has a block of its own, at least as large as asked for, that holds every word last stored in it; an allocation returns null exactly if every free block is too small for it at that point of the run |
| Scheduling.NextReadyReaches | src/kernel/sched/scheduler.c:15-22 | the scan around the table stops no later than at any ready task |
| Scheduling.NextIsNearest | src/kernel/sched/scheduler.c:15-22 | the scan behind the running task finds the cyclically nearest live one, or none if there is only one task |
| Scheduling.TickShape | src/kernel/sched/scheduler.c:61-75 | a tick keeps the invariant, saves the stack pointer in the outgoing slot only, switches to the nearest other task, and returns the pointer saved for it |
| Scheduling.TickIsRoundRobin | src/kernel/sched/scheduler.c:61-75 | a tick goes to the task in the next slot, after the last one to the first |
| Scheduling.TickSpelled | src/kernel/sched/scheduler.c:61-75 | a tick, field by field of every slot: task `(current + 1) % count` runs, the others wait, one saved pointer changes |
| Scheduling.StepKeepsInvariant | src/kernel/sched/scheduler.c:24-75 | creates, ticks and exits keep: exactly the current task runs, the other live ones are ready, the rest is free |
| Scheduling.CreateFillsNextSlot | src/kernel/sched/scheduler.c:24-54 | a create succeeds exactly while a slot above the mark and a frame are left, and takes the slot at the mark |
| Scheduling.CreateSpelled | src/kernel/sched/scheduler.c:24-54 | a create, field by field: slot `count` gets a frame 176 bytes below the top of a 4 KiB stack, and no other slot changes |
| Scheduling.TickApproaches | src/kernel/sched/scheduler.c:61-75 | a ready task comes strictly closer with every tick until it runs, and no create delays it |
| Scheduling.ReadyTaskRuns | src/kernel/sched/scheduler.c:15-75 | bounded waiting: in every run a ready task is running after at most 63 ticks |
| Scheduling.RunInvariant | src/kernel/sched/scheduler.c:24-95 | the invariant over every run, and the mark counts the successful creates |
| Scheduling.AtMost63Creates | src/kernel/sched/scheduler.c:52-58 | no run from the initial table creates more than 63 tasks |
| Scheduling.ExitDoesNotRelease | src/kernel/sched/scheduler.c:56-72 | the terminated mark of an exit does not survive the tick that follows; exit then tick equals tick |
| Scheduling.Scheduler.constructor | src/kernel/sched/scheduler.c:81-95 | the initial table: task 0 runs, the others are free |
| Scheduling.Scheduler.FindFree | src/kernel/sched/scheduler.c:9-13 | the first terminated slot, or -1 |
| Scheduling.Scheduler.FindNextReady | src/kernel/sched/scheduler.c:15-22 | the first schedulable slot around the table, or -1 |
| Scheduling.Scheduler.Create | src/kernel/sched/scheduler.c:24-54 | in place, the table after a create, and the slot or -1 |
| Scheduling.Scheduler.Exit | src/kernel/sched/scheduler.c:56-57 | in place, the mark of an exit |
| Scheduling.Scheduler.Tick | src/kernel/sched/scheduler.c:61-75 | in place, the table after a tick and the pointer to switch to, 0 for none |
| Interrupts.HoldsAfterWrites | src/arc/x86_64/interrupts.asm:112-158 | writes off the other tasks' stacks lose no saved context |
| Interrupts.TickHolds | src/kernel/sched/scheduler.c:61-75 | after a tick the saved contexts are all in memory, and the pointer returned is that of the incoming task's frame, 0 exactly without a switch |
| Interrupts.FrameLayout | src/kernel/include/scheduler.h:16-26 | the place of each of the twenty saved registers in a frame |
| Interrupts.EntryHolds | src/arc/x86_64/interrupts.asm:112-134 | the pushes, and what the handler writes below them, lose no saved context |
| Interrupts.CreatedHolds | src/kernel/sched/scheduler.c:31-46 | a new task's fresh frame joins the saved contexts |
| Interrupts.Cpu.HardwareEntry | src/arc/x86_64/interrupts.asm:83-85 | the processor aligns the stack and pushes the interrupted state |
| Interrupts.Cpu.PushGeneral | src/arc/x86_64/interrupts.asm:112-127 | fifteen pushes put the registers where the frame layout has them, and write nothing else |
| Interrupts.Cpu.PopGeneral | src/arc/x86_64/interrupts.asm:141-156 | fifteen pops give back every general register |
| Interrupts.Cpu.Return | src/arc/x86_64/interrupts.asm:141-158 | returning from a frame restores exactly the context in it |
| Interrupts.Cpu.EnterIrq | src/arc/x86_64/interrupts.asm:25-31 | an interrupt leaves the interrupted registers, the vector and a 0 as a frame at the stack pointer, rounded down to 16, minus 176 |
| Interrupts.Cpu.IrqHandler | src/kernel/kmain.c:71-82 | vector 32 of the frame reaches the scheduler; the others ask for no switch |
| Interrupts.Cpu.Irq | src/arc/x86_64/interrupts.asm:112-158 | no lost context: an interrupt resumes either the interrupted registers or exactly those saved for the incoming task, and saves the outgoing ones |
| Interrupts.Cpu.Decide | src/arc/x86_64/interrupts.asm:133-139 | the handler's answer: the frame of the incoming task, or 0 exactly without a switch |
| Interrupts.Cpu.Compute | src/arc/x86_64/interrupts.asm:112-158 | a running task none of whose writes has a byte on another stack endangers no saved context |
| Interrupts.Cpu.Interrupt | src/arc/x86_64/interrupts.asm:112-158 | interrupt 32 goes to task `(current + 1) % count`, any other stays; the resumed registers are the saved ones |
| Interrupts.Cpu.ExitTask | src/kernel/sched/scheduler.c:56-59 | a task that exits is saved, and the next one resumed, as by a timer interrupt |
| Interrupts.Cpu.WriteFreshFrame | src/kernel/sched/scheduler.c:33-41 | below the top of the cleared stack are, at 40, 32, 24, 16 and 8 bytes, the entry point, 8, 0x202, the top and 16 |
| Interrupts.Cpu.CreateTask | src/kernel/sched/scheduler.c:24-54 | a create adds one stack and one saved context, or changes nothing; the context has rip at the entry point, rsp at the top, cs 8, ss 16, rflags 0x202 and the fifteen others 0, and is in memory where the slot points |
| Tasks.Step | src/arc/x86_64/interrupts.asm:112-158 | one event keeps the processor equal to a machine on which each task has registers of its own |
| Tasks.Execute | src/arc/x86_64/interrupts.asm:112-158 | no lost context over every run: whatever computes, interrupts, exits and creates interleave, the registers are those of that machine |
| Tasks.FirstSwitch | src/kernel/sched/scheduler.c:24-75 | whatever happens between its creation and the first switch to it, a task starts with exactly those registers |
| Tasks.StackIsFreshFrame | src/kernel/sched/scheduler.c:31-41 | the stack the frame allocator hands over, as mapped, is the fresh frame an interrupt return starts the task from |
| TaskFrames.SpawnAllowed | src/kernel/sched/scheduler.c:31-34 | a stack in a frame from the allocator has no byte of a stack in use |
| TaskFrames.StillHoused | src/kernel/sched/scheduler.c:31-34 | and the frames still free have none of the stacks then in use |
| TaskFrames.Spawn | src/kernel/sched/scheduler.c:24-54 | a create takes a slot and then a frame, which holds the stack, and fails exactly if one of them is missing |
| TaskFrames.ExecuteAll | src/kernel/sched/scheduler.c:24-75 | no lost context over every run in which the stacks come from the frame allocator |
| Frames.FreeListUnique | src/kernel/memory/pmm.c:46-59 | memory determines the free list: for each head there is at most one |
| Frames.FreeListBounds | src/kernel/memory/pmm.c:38-42 | listed frames exist, are not frame 0, and are distinct |
| Frames.PushKeepsList | src/kernel/memory/pmm.c:38-42 | pushing a frame puts it in front of the list |
| Frames.RegionFramesInside | src/kernel/memory/pmm.c:26-38 | a frame taken from a region lies wholly inside it |
| Frames.AllFramesExist | src/kernel/memory/pmm.c:22-43 | all frames of a boot map exist, none is frame 0 |
| Frames.AllFramesDistinct | src/kernel/memory/pmm.c:22-43 | all frames of a boot map are distinct |
| Frames.KernelRangeNeverMet | src/kernel/memory/pmm.c:19-36 | for the linked kernel the clip of lines 29-32 never fires: a region offers exactly its whole pages, none of them in the range of the kernel |
| Frames.ClipSpelled | src/kernel/memory/pmm.c:26-38 | for any range of the kernel, exactly which pages of a region are offered |
| Frames.LinkedKernelFrames | src/kernel/memory/pmm.c:19-43 | so the boot-time list has exactly the whole pages of the usable regions |
| PageTables.SamePath | src/kernel/memory/vmm.c:4-7 | two addresses use the same entries if and only if they agree in bits 12 to 47 |
| PageTables.TranslateSpelled | src/kernel/memory/vmm.c:80-100 | the processor's walk in plain numbers: which bits choose the entries, and which make the address |
| PageTables.WalkVia | src/kernel/memory/vmm.c:80-100 | a translation is the rest of the walk from any table on its path |
| PageTables.SkewIsLowBits | src/kernel/memory/vmm.c:91-95 | the kernel's own walk is above the processor's exactly by bits 12 to 20 of a 2 MiB entry met on the way |
| PageTables.PatMisread | src/kernel/memory/vmm.c:91-95 | with the memory-type bit of a 2 MiB entry set, the kernel's walk is 4 KiB too high |
| PageTables.WalkOffPath | src/kernel/memory/vmm.c:42-57 | a changed entry is read by no walk along another path, neither the processor's nor the kernel's |
| PageTables.OutsideTables | src/kernel/memory/vmm.c:25-29 | writes outside the tables change no translation |
| PageTables.LinkKeepsTranslation | src/kernel/memory/vmm.c:23-30 | linking an empty table in place of an absent entry keeps the tree and every translation |
| PageTables.LeafEntry | src/kernel/memory/vmm.c:57 | the entry combines the frames of address and flags bit by bit, and is present exactly if the flags are |
| PageTables.LeafSpelled | src/kernel/memory/vmm.c:57 | for flags below 4096 it is the address of the page plus the flags |
| PageTables.LeafWrite | src/kernel/memory/vmm.c:56-57 | a last-level write changes the translation of one page only |
| PageTables.CostAtMost3 | src/kernel/memory/vmm.c:38-54 | mapping a page needs at most three new tables |
| PageTables.CostSpelled | src/kernel/memory/vmm.c:38-54 | how many tables a page needs, and when none will do, by the bits of the three entries on its way |
| PageTables.CostPrefix | src/kernel/memory/vmm.c:38-54 | pages that share three indices need the same tables |
| KernelMemory.HeapFramesDistinct | src/kernel/memory/heap.c:16-20 | different pages of the heap get different frames |
| KernelMemory.EnoughFramesForHeap | src/kernel/memory/heap.c:14-20 | 259 free frames are enough for the heap and its tables |
| KernelMemory.BlockedHeapIsReady | src/kernel/memory/heap.c:14-25 | with a 1 GiB page in the way, the heap that is formatted is the physical memory at 16 MiB |
| KernelMemory.Serve | src/kernel/memory/pmm.c:46-59 | over every sequence of requests, free, table and handed-out frames stay apart and none is lost; the translation cache agrees with the tables; and whoever was handed a frame finds in it, until it is freed, what he last wrote there |
| KernelMemory.Manager.WriteOwned | src/kernel/memory/pmm.c:46-52 | the owner of a frame may write to it: one word changes, and no translation |
| KernelMemory.Manager.PoolSize | src/kernel/memory/pmm.c:11 | the free count, the tables and the handed-out frames add up to a constant total |
| KernelMemory.Manager.PmmInit | src/kernel/memory/pmm.c:14-44 | the free list holds exactly the frames of the clipped, rounded usable regions, and counts them |
| KernelMemory.Manager.PushRegion | src/kernel/memory/pmm.c:38-42 | the frames of one region are pushed one by one |
| KernelMemory.Manager.PmmAlloc | src/kernel/memory/pmm.c:46-52 | the head of the list, which nobody owned; 0 exactly if the list is empty |
| KernelMemory.Manager.PmmFree | src/kernel/memory/pmm.c:54-59 | a handed-out frame returns to the front of the list; address 0 is ignored |
| KernelMemory.Manager.EnsureTable | src/kernel/memory/vmm.c:23-30 | the next table, new and empty if need be, without changing any translation |
| KernelMemory.Manager.NewTable | src/kernel/memory/vmm.c:25-29 | takes exactly the first free frame, clears it and links it by its address plus 3, and changes no translation; fails exactly if none is free |
| KernelMemory.Manager.Descend | src/kernel/memory/vmm.c:38-54 | one level of the way down, with the huge-page test below the root |
| KernelMemory.Manager.ReachTable | src/kernel/memory/vmm.c:38-54 | the last-level table, or nothing if a huge page blocks the way or frames run out |
| KernelMemory.Manager.SetLeaf | src/kernel/memory/vmm.c:56-58 | an entry write with one invalidation changes one page and leaves the translation cache right |
| KernelMemory.Manager.MapPage | src/kernel/memory/vmm.c:34-59 | for all addresses and flags, the page is mapped exactly if enough frames are left and no huge page is met, and all other pages stay; otherwise no translation changes; the frames spent are counted exactly |
| KernelMemory.Manager.UnmapPage | src/kernel/memory/vmm.c:61-78 | exactly that page loses its translation, unless no last-level table is reached, when nothing changes |
| KernelMemory.Manager.VirtToPhys | src/kernel/memory/vmm.c:80-100 | 0 for an unmapped address; otherwise what the processor uses, if and only if a 2 MiB entry met on the way has bits 12 to 20 clear, and off by those bits if not |
| KernelMemory.Manager.HeapInit | src/kernel/memory/heap.c:14-20 | ready exactly with enough frames; then, unless blocked, all 256 pages are mapped to their own frames; no page but those 256 changes |
| KernelMemory.Manager.MapHeapPage | src/kernel/memory/heap.c:16-20 | one of them: the next free frame, and an entry that is its address plus 0x23 |
| KernelMemory.Manager.TaskStack | src/kernel/sched/scheduler.c:31-41 | a new stack is a frame nobody owned, zero but for the last five words: entry point, 8, 0x202, its top, 16; no translation changes |
| KernelMemory.Manager.CacheFill | src/kernel/memory/vmm.c:19-21 | the translation cache may pick up any present translation at any time |
| KernelMemory.Manager.Access | src/kernel/memory/vmm.c:19-21 | what an access uses, cached or not, is what the tables say |
| Apic.SplitEntryFrame | src/arc/x86_64/apic.c:82-88 | small entry `i` is present and points to the `i`-th page of the 2 MiB page |
| Apic.SplitInside | src/arc/x86_64/apic.c:81-90 | every page of the region lies where it lay for the processor, whatever bits 12 to 20 of the entry are |
| Apic.SplitOutside | src/arc/x86_64/apic.c:81-90 | the split changes no translation outside the region |
| Apic.SplitTranslation | src/arc/x86_64/apic.c:81-90 | the split changes no translation by the processor, and yields a well-formed tree with a last-level table for the page of the APIC |
| Apic.SplitMovesKernelWalkIff | src/arc/x86_64/apic.c:12-30 | the kernel's own walk agrees with the processor's after the split, and gave another address before it if and only if the entry had a bit from 12 to 20 set |
| Apic.Setup.PoolAlloc | src/arc/x86_64/apic.c:32-37 | a frame of the pool that was not used before, or 0 exactly if the pool is used up or its next page not mapped |
| Apic.Setup.Level | src/arc/x86_64/apic.c:54-79 | one level of the way down, with a new table if there is none, changes no translation |
| Apic.Setup.Split | src/arc/x86_64/apic.c:81-90 | entry `j` of the new table is the 2 MiB entry without its low 21 bits, plus `j` times 4096, plus 0x23; the old entry is the address of the table plus 3 |
| Apic.Setup.SplitHuge | src/arc/x86_64/apic.c:81-90 | either the split is made, or nothing changes |
| Apic.Setup.Finish | src/arc/x86_64/apic.c:92-96 | only the APIC's page changes, and the whole translation cache is right again |
| Apic.NeedSpelled | src/arc/x86_64/apic.c:54-90 | how many tables of the pool it takes, and when none will do, by the bits of the three entries on the way |
| Apic.Setup.Init | src/arc/x86_64/apic.c:43-96 | succeeds exactly if no 1 GiB page is in the way and the pool has the tables it takes; on failure no translation changes; on success 0xfffffffffee00000 translates to the APIC, by an entry that is its address plus 0x23, and every other page stays, for every entry that is split |
| UndoLog.PatchBack | limine/limine.c:487-493 | writing the old bytes back undoes a write |
| UndoLog.ReplayGivesEarliest | limine/limine.c:328-334 | replaying the reversed log leaves in each byte its earliest logged value |
| UndoLog.RecoverableRestores | limine/limine.c:524-557 | from an image whose changed bytes are all logged the replay restores the original |
| UndoLog.RestoresOnlyRecoverable | limine/limine.c:524-557 | and from no other image |
| UndoLog.WriteKeepsRecoverable | limine/limine.c:467-522 | logging before writing keeps disk and logical image recoverable, however write-back mixes them |
| Medium.Position | limine/limine.c:449 | no position lies in the block that marks an empty cache |
| Medium.ReadableIff | limine/limine.c:449 | a range can be accessed if and only if, for each of its bytes, the block number its position divided by the block size gives can be |
| Medium.PrefixSpelled | limine/limine.c:448-462 | how far an access gets: to the first byte whose block cannot be accessed |
| Medium.ChunkRead | limine/limine.c:448-462 | a chunk of a read continues the bytes its first access found, as only the cached block can be wrong |
| Medium.ChunkWritten | limine/limine.c:498-513 | a chunk of a write continues the bytes written onto what the first access found |
| Medium.ReadDone | limine/limine.c:445-465 | a read that ends at byte `p` is complete, or cut off at the first byte that cannot be accessed |
| Medium.WriteDone | limine/limine.c:495-522 | a write that ends at byte `p`, likewise |
| Medium.FailedRead | limine/limine.c:301-309 | a read that fails loses no byte, and leaves its residue under the number of the last block it reached |
| Medium.RightForEveryMediumIff | limine/limine.c:301-309 | what a read returns that follows a failed one is right whatever the medium left in the buffer, if and only if it does not begin in the last block the failed one reached, or, if that reached none, the block named before |
| Medium.OthersRestored | limine/limine.c:534-553 | a byte that no cut off entry covers becomes, in the replay, what the last entry for it has |
| Medium.UndoOneShape | limine/limine.c:537-552 | an entry is written as far as it goes onto what its first access finds; if it is cut off, the cache is left with the residue of the retry |
| Medium.UninstalledByte | limine/limine.c:524-557 | byte by byte, the disk after an uninstall on any medium: residue where an entry picked it up and neither that nor a later one covers it, otherwise the replay of the log as far as it can be written |
| Medium.DamagedIff | limine/limine.c:524-557 | a byte keeps residue if and only if it lies in a block some entry found spoiled, and neither that nor a later entry covers it |
| Medium.UninstallRightIff | limine/limine.c:524-557 | the uninstall is the replay, whatever the medium leaves in the buffer, if and only if no byte keeps residue |
| Medium.ResidueKept | limine/limine.c:537-552 | a log of two entries that puts residue into a byte neither covers |
| Runs.CarefulIsFlat | limine/limine.c:266-522 | a run, failures and all, in which no operation that can be done begins in the block the cache names after a failure, gives what a flat array would: bytes, outputs and log |
| Runs.FaithfulIffCareful | limine/limine.c:266-522 | the reads return, and the log gets, what they would with a flat array, whatever the medium leaves in the buffer, if and only if the run is such a one |
| Runs.CarelessNotUndone | limine/limine.c:467-522 | a failed read and then a write that logs the residue: the log cannot restore the disk |
| BlockDevice.DeviceInit | limine/limine.c:233-264 | the first guess of the block size under which block 0 can be read; none exactly if all fail |
| BlockDevice.Device.FlushCache | limine/limine.c:266-285 | after a flush the disk is the logical image |
| BlockDevice.Device.CacheBlock | limine/limine.c:287-312 | succeeds exactly for an accessible block and changes no byte of the device; a block that is not cached is fetched right; a failure leaves the residue of the read under the old number |
| BlockDevice.Device.Read | limine/limine.c:445-465 | succeeds exactly if all bytes are accessible; returns the bytes of the device, or, if it begins in the block the cache names, what the cache holds there; complete or cut off, the device is then as the values say |
| BlockDevice.Device.SaveOld | limine/limine.c:474-493 | the bytes a read finds go to the first free place of the log, and fail on a full log or inaccessible bytes without a trace in it |
| BlockDevice.Device.Write | limine/limine.c:467-522 | succeeds exactly if all bytes are accessible and the log has room; then the device has the new bytes and the log what was found before; otherwise no entry changes, nor, unless uninstalling, any byte |
| BlockDevice.Device.WriteBlocks | limine/limine.c:495-516 | the write loop across blocks, complete or up to the first inaccessible byte |
| BlockDevice.Device.ReverseLog | limine/limine.c:328-334 | the log is reversed through the second table, also when it is empty and the index wraps |
| BlockDevice.Device.Uninstall | limine/limine.c:524-557 | for every log and medium, the disk is what writing the entries back one after the other makes of it; it succeeds exactly if all entries are accessible, and then the disk is the whole replay |
| BlockDevice.Device.WriteBack | limine/limine.c:537-552 | an entry is retried once with an empty cache, and the device is then as the values say |
| BlockDevice.ReadAfterFailure | limine/limine.c:445-465 | what the device returns for a read after a failed one, which `Medium.RightForEveryMediumIff` is about; no byte of it is lost |
| BlockDevice.Session | limine/limine.c:266-522 | until the first failure, any run of reads, writes and flushes returns what a flat array of bytes would; it fails only for inaccessible bytes or a full log, and the log can always restore the disk |
| BlockDevice.SessionStep | limine/limine.c:266-522 | an operation succeeds unless bytes are inaccessible or the log is full for a write; if it begins right, the device goes on as a flat array whose log can restore the disk, and what fails changes nothing |
| BlockDevice.StillRecoverable | limine/limine.c:467-522 | an operation, successful or not, leaves a disk the log can restore |
| BlockDevice.Rollback | limine/limine.c:1219-1224 | reversing the log and uninstalling restores the disk from whatever a failed run left |
| BlockDevice.SessionUndone | limine/limine.c:1219-1224 | rollback: any run, cut off by a failure or not, reversed and uninstalled, leaves the disk as it started |
| BlockDevice.Persist | limine/limine.c:266-522 | any run, failures and all, has the device, the log and the outputs of the run on values; if it is careful, exactly what can be done is done, as on a flat array, and the log can restore the disk |
| BlockDevice.PersistUndone | limine/limine.c:467-557 | rollback of any such run succeeds, and if the run was careful it leaves the disk as it started |
| LittleEndian.LeRoundTrip | limine/limine.c:202-223 | a number survives its bytes |
| LittleEndian.LeValueBounds | limine/limine.c:202-223 | and bytes survive their number |
| LittleEndian.HalfSpelled | limine/limine.c:202-223 | four bytes as a number, the first being the least significant |
| LittleEndian.WordSpelled | limine/limine.c:202-223 | eight bytes as two such numbers, the lower first |
| UninstallFile.RoundTrip | limine/limine.c:342-443 | loading a stored log gives the same entries in the same order |
| UninstallFile.LoadsIff | limine/limine.c:382-443 | a file loads as a log if and only if it begins with the encoding of that, which has at most 256 entries, none of them empty |
| UninstallFile.StoredLayout | limine/limine.c:342-371 | the bytes of the file: the number of entries, then the place, the length and the data of each |
| UninstallFile.DecodedReencodes | limine/limine.c:395-426 | a file that loads is the encoding of what it loads, perhaps followed by more |
| UninstallFile.Store | limine/limine.c:342-380 | writes the encoding, and fails exactly on an empty entry |
| UninstallFile.Load | limine/limine.c:382-443 | loads exactly the files that decode, and what they decode to |
| UninstallFile.StoreLog | limine/limine.c:1225-1226 | the reversed, stored log of a finished run undoes the run |
| UninstallFile.UninstallFrom | limine/limine.c:741-759 | a process that loads such a file restores the original disk |
| UninstallFile.UninstallLater | limine/limine.c:342-443 | any successful run, stored and uninstalled in a later process, leaves the disk as it started; with all bytes accessible it succeeds for up to 256 writes |
| FlatDisk.Disk.Read | limine/limine.c:445-465 | a flat read, recorded |
| FlatDisk.Disk.Write | limine/limine.c:467-522 | a flat write, recorded and counted |
| FlatDisk.Replay | limine/limine.c:467-522 | the cached device, asked the same, answers the same, fails at the same operation, and can be restored |
| Volume.OverflowChecksExact | limine/limine.c:49-57 | the checked product and sum report an overflow if and only if the true value does not fit 64 bits |
| Volume.NothingTruncated | limine/limine.c:850-942 | the start and the sector count of a convertible partition survive their 32-bit fields |
| InstallerSteps.CheckSignature | limine/limine.c:615-623 | one signature check, which with force wipes what it finds |
| InstallerSteps.NoneCreated | limine/limine.c:611-669 | wiping what some checks find makes no signature appear |
| InstallerSteps.FindsStays | limine/limine.c:614-663 | what an earlier check wipes neither hides nor creates what a later one looks for |
| InstallerSteps.CleansedIsClean | limine/limine.c:611-669 | after the wipes nothing is recognised, and an image with nothing to recognise is not wiped |
| InstallerSteps.ValidateOrForce | limine/limine.c:611-669 | valid if and only if nothing is recognised or force is given; with force exactly what was recognised is zero afterwards, by one write each, and without it nothing changes |
| InstallerSteps.CheckStart | limine/limine.c:971-977 | whether a slot in use starts below sector 63 |
| InstallerSteps.CheckSlot | limine/limine.c:961-978 | one slot of the legacy table: its status byte, repaired only with force and only if bad, and where it starts |
| InstallerSteps.CheckTable | limine/limine.c:951-1038 | all four slots; with force exactly the bad status bytes are replaced by their high bit, by one write each, and without it nothing changes |
| InstallerSteps.RepairedTable | limine/limine.c:961-1032 | the repaired table is sane, and starts, activity and file systems are what they were; a sane table needs no repair |
| InstallerSteps.LegacyPreparedTable | limine/limine.c:951-1056 | an accepted disk ends with a sane, active table and nothing recognised, unchanged from byte 1082 on |
| InstallerSteps.LegacyPreparedSane | limine/limine.c:1047-1055 | on a sane disk without a file system the only write marks the first slot, if nothing is active |
| InstallerSteps.MbrChecks | limine/limine.c:951-1056 | a legacy disk is accepted if and only if its table is sane and no file system is recognised, or force is given; no used partition starts below sector 63; the image and the number of writes afterwards are determined |
| Conversion.ProbeGpt | limine/limine.c:761-777 | the logical block size under which the header has its signature, 512 first |
| Conversion.CheckSecondary | limine/limine.c:779-804 | fails exactly if entries are too small, the second header's place overflows, or it has no signature |
| Conversion.CanConvertPrefix | limine/limine.c:837-895 | a table that can be converted can be converted entry by entry |
| Conversion.GatherOne | limine/limine.c:837-895 | one entry of the table: skipped if unused, otherwise taken or the reason not to convert |
| Conversion.Gather | limine/limine.c:823-895 | succeeds if and only if all entries can be addressed, at most four are used, and all are convertible; then it has them in order |
| Conversion.NukePrimary | limine/limine.c:904-907 | 34 zero blocks from the start of the disk |
| Conversion.NukeSecondary | limine/limine.c:909-920 | 33 zero blocks that end with the second header |
| Conversion.NukeBlock | limine/limine.c:910-919 | one of them, or an error if its place overflows |
| Conversion.EntryFields | limine/limine.c:932-942 | the five writes of an entry make one 16-byte entry, in whatever order |
| Conversion.WriteEntry | limine/limine.c:932-942 | a slot gets its entry and keeps its status |
| Conversion.WriteTable | limine/limine.c:932-942 | the table holds exactly the given partitions, in order |
| Conversion.SlotSpelled | limine/limine.c:932-942 | field by field, slot `k` has the first sector, the number of sectors, the type and the two capped cylinder-head-sector addresses of entry `k` |
| Conversion.TableSpelled | limine/limine.c:932-942 | the whole table so, the first slot active, and everything behind the last entry zero |
| Conversion.Convert | limine/limine.c:897-942 | the image after a conversion, byte by byte |
| Conversion.Consider | limine/limine.c:806-895 | decides on the conversion without a write |
| Conversion.ConvertIfIso | limine/limine.c:806-947 | all or nothing: converts exactly the disks it should, and writes nothing to any other |
| Conversion.IsoSurvivesIff | limine/limine.c:897-920 | the ISO 9660 descriptor survives the conversion if and only if the blocks have 512 bytes and the second header is not in one of the blocks 64 to 96 |
| Conversion.EntryChecked | limine/limine.c:961-978 | what the checks see of an entry |
| Conversion.ConvertedIsSane | limine/limine.c:951-1056 | a converted disk passes the legacy checks, up to where its partitions start |
| Conversion.ConvertedActive | limine/limine.c:1047-1055 | marking its first slot changes nothing else |
| Placement.ReadEntry | limine/limine.c:1090-1095 | an entry by its number, with checked arithmetic |
| Placement.Autodetect | limine/limine.c:1109-1129 | the first BIOS boot partition; unless a read fails, it fails only if there is none |
| Placement.PickNumbered | limine/limine.c:1079-1108 | the partition with the given number, which wraps when it is 0; used and, unless forced, of the right type |
| Placement.ChoosePartition | limine/limine.c:1069-1130 | the partition asked for, or failure exactly if there is none |
| Placement.ChosenUnique | limine/limine.c:1069-1130 | at most one partition is the one asked for |
| Placement.LengthExact | limine/limine.c:1141-1150 | the wrapping size computation admits no partition below 32 KiB and none above 64 bits |
| Placement.Bounds | limine/limine.c:1132-1155 | fails exactly if the end is before the start, the size is out of bounds or the place overflows |
| Placement.PlaceStage2 | limine/limine.c:1132-1172 | a partition is accepted if and only if it is big enough and holds no recognised file system, or force is given |
| Installer.WriteStages | limine/limine.c:1184-1204 | the image after the final writes, byte by byte |
| Installer.StagesInPlace | limine/limine.c:1184-1204 | the second stage is intact where it was put, sector 0 names that place, and timestamp, identifier and table are what they were |
| Installer.BootSectorIntactIff | limine/limine.c:1190-1194 | sector 0 is the boot sector if and only if the second stage is behind it or happens to begin alike |
| Installer.BootSectorLost | limine/limine.c:1190-1194 | an install to a partition that starts at block 0 leaves a boot sector if and only if the stages happen to begin alike |
| BlockZero.Accepted | limine/limine.c:761-1172 | a disk of 64 KiB whose BIOS boot partition starts at block 0 is accepted |
| BlockZero.InstallAtZero | limine/limine.c:671-1228 | every install on it succeeds, and leaves a boot sector if and only if the stages happen to begin alike |
| Installer.HeaderSurvives | limine/limine.c:1190-1204 | if the chosen partition starts behind the header, the disk has the same header after the install |
| Installer.EntrySurvives | limine/limine.c:1190-1204 | and every entry behind the first sector and outside the partition |
| Installer.HeaderOverwritten | limine/limine.c:1190-1194 | if the second stage goes over the header, there is one if and only if the stage has one there |
| Installer.IsoSurvivesInstallIff | limine/limine.c:806-1204 | when the ISO 9660 descriptor is still there after an install with a conversion |
| Installer.PrepareConverted | limine/limine.c:949-1056 | a converted disk goes on exactly if all its partitions start at sector 63 or later |
| Installer.PreparePartition | limine/limine.c:1069-1172 | a GPT disk goes on exactly if the partition asked for is usable |
| Installer.Prepare | limine/limine.c:761-1182 | unless the disk fails, the installer accepts exactly the acceptable disks, and the disk before the final writes is one of three determined images |
| Installer.Run | limine/limine.c:761-1204 | succeeds if and only if no operation fails and the disk is acceptable, which on a disk that is accessible and large enough is if and only if it is acceptable; at most 106 writes |
| Installer.LegacyConfined | limine/limine.c:961-1056 | on a legacy disk nothing from byte 22647 on changes, so no byte of a used partition |
| Installer.PartitionConfined | limine/limine.c:1132-1204 | on a GPT disk only the first 512 bytes and the chosen partition change |
| Installer.ConversionComplete | limine/limine.c:806-1204 | after a conversion the installed table says of every used entry, in order, its first sector, its number of sectors, its type by the words of its GUID and both capped addresses, the first slot is active, and the rest is zero |
| Installer.Install | limine/limine.c:671-1228 | on the cached device: succeeds on an accessible and large enough disk if and only if it is acceptable; success leaves the described image and a file that undoes it, failure leaves every byte as it was |
| Installer.InstallThenUninstall | limine/limine.c:741-759 | installing and later uninstalling, or failing to install, leaves the disk as it started |
| DiskBytes.HeaderSpelled | limine/limine.c:89-111 | a header by its bytes: the signature, and where its four fields are |
| DiskBytes.TableSpelledAt | limine/limine.c:761-777 | blocks have 512 bytes if "EFI PART" is at 512, 4096 if it is not there but at 4096, and there is no table if it is at neither |
| DiskBytes.EntrySpelled | limine/limine.c:113-124 | an entry by its bytes: type, first and last block, and in use if and only if its own GUID is not zero |
| DiskBytes.FormattedSpelled | limine/limine.c:614-663 | the five signatures of file systems, byte by byte |
| DiskBytes.CleansedSpelled | limine/limine.c:614-663 | the bytes that forced checks wipe, and no other |
| DiskBytes.NumberedUsable | limine/limine.c:1079-1172 | the partition with a number is usable if and only if, by the bytes of its entry, it is there, in use, big enough and, unless forced, of the right type and without a signature |
| DiskBytes.DetectedUsable | limine/limine.c:1109-1172 | and a partition that was not asked for by number, if and only if it is the first of the right type |
| DiskBytes.UsedSpelled | limine/limine.c:837-895 | the entries a conversion gathers are those in use, each at the place that the number of those before it gives |
| DiskBytes.IsoSpelled | limine/limine.c:806-895 | which disks are converted, by their bytes |
| Outcomes.InstallLegacy | limine/limine.c:949-1228 | without a partition table: accepted if and only if no used partition starts below 63 and, unless forced, all status bytes are 00 or 80 and no signature is found; and every byte of the disk afterwards |
| Outcomes.InstallNumbered | limine/limine.c:1079-1228 | to a numbered partition: accepted only, and with room exactly, if its entry fits, which without force needs the sixteen bytes of the BIOS boot type; and every byte of the disk afterwards |
| Outcomes.ForceDecides | limine/limine.c:1103-1108 | a used partition of another type is installed to with force and refused without it |
| Outcomes.InstallDetected | limine/limine.c:1109-1228 | to a partition that is found: the first of that type; and every byte of the disk afterwards |
| Outcomes.InstallConverted | limine/limine.c:806-1228 | with a conversion: accepted if and only if the headers are sound and no entry in use starts below 63; and every byte of the disk afterwards, the slots given by the bytes of the entries |
| Chs.Saturates | limine/limine.c:151-172 | decoding gives the address capped at 63 * 255 * 1024 - 1, for every 64-bit address |
| Chs.EncodeSpelled | limine/limine.c:151-172 | what the three bytes are: head, sector with the high bits of the cylinder, and the rest of the cylinder |
| Chs.CapIsLargest | limine/limine.c:158-165 | the "too big" value is the largest address the three bytes can express |
| Chs.Monotone | limine/limine.c:151-172 | the encoding keeps the order and is injective below the limit |
| Enroll.Search | limine/limine.c:1332-1350 | the loop ends although its index steps back, and finds the leftmost marker, or none |
| Enroll.SeenIff | limine/limine.c:1335-1350 | a marker is seen if and only if 153 bytes follow it |
| Enroll.MarkerMissed | limine/limine.c:1335-1350 | a file that ends with the checksum has its marker missed |
| Enroll.EnrollConfig | limine/limine.c:1283-1371 | succeeds exactly for 128 hexadecimal digits, or a reset, and a file with a marker that 153 bytes follow; then the 128 bytes behind the first one are the checksum, or 128 times the digit 0, and all others what they were |
| Enroll.MarkerStays | limine/limine.c:1335-1361 | a checksum creates no earlier marker |
| Enroll.OneEnrolment | limine/limine.c:1352-1361 | a file with the marker has exactly one enrolment of a checksum, and can be enrolled again |
| Enroll.LastOneDecides | limine/limine.c:1357-1361 | of two enrolments or resets the second alone decides the file |
| Enroll.LastOfManyDecides | limine/limine.c:1357-1361 | of any sequence of them the last one does |

## Left out

- Argument parsing, messages, `fopen`, `fseek` and other stream handling of the installer: a block can be read and written, or it cannot.
- Devices whose blocks fail at some times and not at others, and writes that fail on a block that can be read: the set of accessible blocks is fixed.
- `malloc` and `free` in the installer, including `free_uninstall_data` and failures of allocation.
- BlockDevice.PersistUndone: for a run that is not careful it does not say when the disk is restored all the same, because other entries happen to cover what was logged wrong.
- Installer.Install: the stages' bytes, the random disk identifier and the number on the command line are parameters, and the log is always encoded, where the tool only does so if a file name was given.
- Outcomes.InstallNumbered: a partition number that cannot be read as one is always refused, and is not stated again there (Placement.ChosenIn).
- Installer.Run: a disk with inaccessible parts may be refused although it is acceptable, since the installer also reads what it does not need in the end; and it runs on the flat disk first; the cached device then gets the same operations, which is faithful because it answers them the same (FlatDisk.Replay).
- Hosts with big-endian byte order: the byte swaps are the identity.
- The contents of the boot image (limine/limine-bios-hdd.h): only its length, 22647 bytes, matters.
- Display, serial port, keyboard, timer hardware, descriptor tables, panic and boot code: port output and fixed tables.
- `rdmsr`, CR3 and `invlpg` as instructions: the root is a constant, an invalidation is a step on the modelled translation cache; caches of intermediate table entries are not modelled.
- HeapPages.InitHeap: does not cover a 1 GiB page in the way, where the heap is not on frames of its own (KernelMemory.BlockedHeapIsReady); the allocator's later accesses are joined to physical memory one by one, by HeapPages.StoreWord and HeapPages.LoadWord.
- TaskFrames.ExecuteAll: the frames come from the allocator's memory, and the frames saved by interrupts are in the processor's; that both are one memory is stated for the fresh stack only (Tasks.StackIsFreshFrame).
- Page permissions and caching bits beyond present and page size; and reserved bits: an entry with one set is walked, where the processor would fault.
- Task names; and stack overflow: an interrupt is only taken with room for its frame on the task's stack.
- Interrupts.Cpu.CreateTask: the creation of a task is one step, as no interrupt is taken in the middle of it in `kmain`, where interrupts are only enabled while it sleeps.
- Interrupts.Cpu.Irq: the segment registers are not modelled; `irq_handler` is modelled by what it calls and returns.
- Apic.Setup.Init: a new table is linked and cleared as one step, and the write to the APIC's own register is left out.
- KernelMemory.Manager.PmmInit: the memory map's regions lie in memory, do not overlap and do not offer page 0, which the boot loader promises.
- Heap.Allocator.KFree: only null and pointers to live blocks are passed.
