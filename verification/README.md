# A verified model of the kernel's memory and process machinery

This project models, in Dafny, the parts of the kernel that decide who owns which memory: the
physical frame allocator, four-level page tables and address spaces, the ELF loader, the kernel
heap, the scheduler and context switch, the life of a process from spawn to reap, the system call
path that copies user memory, the FAT32 read path that feeds the loader, and the compositor that
keeps the mouse cursor on screen. The properties are about every input, every run and every
reachable state; where a promise of the code holds only on a condition, the condition is proved to be
exact.

`dafny verify dfyconfig.toml` checks the whole project.

## How the model is laid out

| file | what it holds |
|---|---|
| `pmm.dfy`, `pmm_runs.dfy` | the bitmap allocator as an object, boot-time placement and reservation, runs of allocations |
| `paging.dfy`, `paging_tree.dfy` | page tables as values: the hardware walk, the ownership invariant, what each write does to every walk, the tree of one space |
| `vmm.dfy`, `vmm_init.dfy`, `isolation.dfy` | address spaces as an object: map, unmap, translate, create, destroy, range check; the kernel's own space; runs over many spaces |
| `packed.dfy` | packed little-endian structs, stored and read back |
| `elf.dfy`, `elf_format.dfy` | the loader, byte by byte, with an exact account of the frames it needs; the layout of the file it reads |
| `heap_blocks.dfy`, `heap.dfy` | the heap as a list of blocks, and as linked headers changed in place |
| `sched_ring.dfy`, `sched.dfy`, `context.dfy` | the run queue as a step machine and as a linked circle; stacks and saved registers across switches |
| `world.dfy`, `lifecycle.dfy`, `script.dfy` | everything the kernel has handed out as one value; spawn, run, exit and reap; any script of them on the objects |
| `machine.dfy`, `program.dfy` | the same with the processor: kernel stacks in the heap, switched and resumed; a spawned program seen through the write system call |
| `syscall.dfy` | copies across the user boundary and the write system call |
| `fat32.dfy`, `fat32_names.dfy`, `fat32_dir.dfy`, `fat32_listing.dfy`, `fat32_format.dfy` | geometry, cluster chains and file reads; 8.3 names; listing and lookup, on an arbitrary disk; the listing by position; the structs on disk |
| `gfx.dfy` | back buffer, screen and cursor |

Three ideas carry most of the proofs.

*Ownership.* `Paging.Inv` says that every frame in a page-table tree has exactly one place: one
space, one path of indices from its PML4, one entry that points to it. From it follow that two
walks meet only where their indices agree, that different spaces share nothing but the kernel half,
and that a teardown frees each frame once.

*Canonical free space.* A well-formed heap is determined by its live blocks alone
(`HeapBlocks.Canonical`), so giving back what was taken restores the block list exactly, whatever
happened in between and in whatever order.

*Worlds.* `Worlds.World` is what the kernel has handed out, with the task that holds each part.
A spawn and a reap are inverse on it, taking tasks out commutes, and switches and exits do not change
it. So what is left when all processes are gone is an invariant of every run.

## Where code and promise differ

- Spawning maps the user stack at a fixed page without looking what is there
  (kernel/main.c:127-128). If a segment has bytes in that page, its frame is displaced and never
  freed. Everything a process takes comes back exactly when no segment touches the stack page:
  `Lifecycle.System.RunProgram` states the equivalence, `Lifecycle.OverlapIsLoadable` gives an image
  that loses a frame.
- A comment promises that future kernel mappings are visible in every space (kernel/mm/vmm.c:143-145).
  That holds exactly for PML4 slots present when the space was created:
  `Isolation.KernelHalfShared` and `Isolation.LateSlotIsNotShared`. `Isolation.BootAndMapDevice` boots,
  creates a process and maps a device at physical 512 GB, which falls under slot 257: the kernel
  sees it and the process does not.
- `ALIGN8` wraps (kernel/mm/heap.c:21): a successful kmalloc grants the bytes asked for exactly when
  the size is at most 2^64 - 8 (`HeapBlocks.GrantsEnough`); `HeapBlocks.WrappedSizeIsGranted` is
  the failing case.
- The repository's README.md:175 says that system call pointers are not validated. The code validates
  them (kernel/mm/uaccess.c:13-31, kernel/syscall/syscall.c:20-35) and the model follows the code.

## Model

| member | source | states |
|---|---|---|
| `Pmm.PlaceBitmap` | kernel/mm/pmm.c:110-140 | the placement loop ends; no byte of the bitmap belongs to the kernel, the boot information or the module, and at every lower aligned place past the kernel some byte would |
| `Pmm.HighestAddress` | kernel/mm/pmm.c:97-108 | the result is the highest end of an available region, 0 if there is none |
| `Pmm.FrameAllocator.constructor` | kernel/mm/pmm.c:107-172 | after boot a frame is free exactly when it lies wholly in an available region, at or above the end of the reserved bytes and outside the module; the counter is the number of used frames; no byte of the bitmap is the kernel's, the boot information's or the module's |
| `Pmm.InRegionBytes` | kernel/mm/pmm.c:146-154 | a frame is in a region when all its bytes are |
| `Pmm.TouchesBytes` | kernel/mm/pmm.c:159-168 | a byte range touches a frame when some of its bytes lie there |
| `Pmm.FrameAllocator.FreeRegion` | kernel/mm/pmm.c:146-154 | exactly the frames wholly inside the region become free |
| `Pmm.FrameAllocator.ReserveBytes` | kernel/mm/pmm.c:159-168 | exactly the frames that a byte range touches become used |
| `Pmm.FrameAllocator.MarkUsed` | kernel/mm/pmm.c:40-47 | one frame becomes used, every other bit stays, and the counter keeps counting set bits |
| `Pmm.FrameAllocator.MarkFree` | kernel/mm/pmm.c:41-50 | one frame becomes free, every other bit stays, and the counter keeps counting set bits |
| `Pmm.FrameAllocator.AllocFrame` | kernel/mm/pmm.c:206-215 | 0 exactly when every frame but frame 0 is used; otherwise the lowest free frame, which becomes used |
| `Pmm.FrameAllocator.AllocContig` | kernel/mm/pmm.c:182-193 | the lowest start of a free run of that length, whose frames become used, or 0 exactly when there is no such run |
| `Pmm.FrameAllocator.FreeFrame` | kernel/mm/pmm.c:217-219 | the frame of the address becomes free |
| `PmmRuns.RunKeepsBooks` | kernel/mm/pmm.c:182-219 | over every run of allocations and frees: outstanding allocations never overlap, frame 0 is never handed out, and the used frames are those used at the start and those outstanding |
| `PmmRuns.RunReturnsAll` | kernel/mm/pmm.c:182-219 | a run that has freed all it allocated ends with the used frames it began with |
| `Paging.Walk` | kernel/mm/vmm.c:38-47 | every table a walk visits is owned, at the place the page's indices name, by the space itself or, in the kernel half, by the kernel |
| `Paging.NodesAreWalked` | kernel/mm/vmm.c:38-47 | a table or leaf is met by a walk exactly when its path is a node of the space |
| `Paging.AddTableInv` | kernel/mm/vmm.c:40-45 | hanging a zeroed table into an absent entry keeps the ownership invariant |
| `Paging.AddTableLookup` | kernel/mm/vmm.c:40-45 | and changes no translation in any space |
| `Paging.SetLeafInv` | kernel/mm/vmm.c:101-102 | a leaf write keeps the ownership invariant |
| `Paging.SetLeafRemaps` | kernel/mm/vmm.c:101-102 | a leaf write changes exactly one page, for exactly the spaces that use these tables |
| `Paging.SamePage` | kernel/mm/vmm.c:6-10 | two addresses have the same four indices exactly when bits 12 to 47 agree |
| `Vmm.AddressSpaces.constructor` | kernel/mm/vmm.c:57-59 | a kernel space that maps nothing |
| `Vmm.AddressSpaces.NextLevel` | kernel/mm/vmm.c:38-47 | follows a present entry; otherwise hangs a fresh table there; no translation changes and the frame account is exact |
| `Vmm.AddressSpaces.MapPageIn` | kernel/mm/vmm.c:97-104 | the page translates to the frame with the leaf's rights in every space that uses these tables, every other page of every space is unchanged, the frames spent are the missing tables, and ownership changes by exactly those and the two leaves |
| `Vmm.AddressSpaces.UnmapPageIn` | kernel/mm/vmm.c:109-118 | the page translates to nothing, every other page of every space is unchanged |
| `Vmm.AddressSpaces.GetPhysIn` | kernel/mm/vmm.c:124-137 | the translation the hardware walk gives, through small and 2 MB pages, or 0 |
| `Vmm.AddressSpaces.CreateAddressSpace` | kernel/mm/vmm.c:146-154 | a new space: nothing in the user half, the kernel half as in the template; no existing translation changes |
| `Vmm.AddressSpaces.FreeUserHalf` | kernel/mm/vmm.c:219-244 | frees exactly what the space owns below its PML4, each frame once, and counts it |
| `Vmm.AddressSpaces.DestroyAddressSpace` | kernel/mm/vmm.c:211-247 | refuses the kernel's and the active space; otherwise frees exactly the frames the space owns, returns their number, lowers the counter by it, and leaves every translation of every other space unchanged |
| `PagingTree.OwnedIsMet` | kernel/mm/vmm.c:219-246 | what a process space owns is exactly what walks for its user half meet: the independent meaning of the frames a teardown frees |
| `PagingTree.PruneInv` | kernel/mm/vmm.c:219-243 | cutting a slot of the user half keeps the ownership invariant of all that is left |
| `Vmm.AddressSpaces.UserRangeOk` | kernel/mm/vmm.c:180-200 | true exactly when every byte of the range lies in the user half and all levels of its walk allow Ring 3 the access; sums that wrap are refused |
| `Vmm.RangeBytes` | kernel/mm/vmm.c:180-200 | the range in terms of bytes: each below 2^47 and accessible |
| `Vmm.SubRange` | kernel/mm/vmm.c:180-200 | the check is closed under subranges |
| `VmmInit.SlotsInUse` | kernel/mm/vmm.c:57-92 | with at most 512 GB of RAM vmm_init leaves every slot of the PML4 but 0, 256 and 511 absent |
| `VmmInit.MapHuge` | kernel/mm/vmm.c:50-55 | 512 pages in a row are mapped, nothing else changes, and the frames spent are the missing tables |
| `VmmInit.Init` | kernel/mm/vmm.c:57-92 | the kernel's space is exactly: four gigabytes one to one, the image at its high address, RAM at the HHDM, nothing else, none of it for Ring 3; the frames spent are a PML4 and the tables of those pages |
| `VmmInit.RamIsAtHhdm` | kernel/mm/vmm.h:41-43 | every byte of RAM is found at its HHDM address in the kernel's space and in each space that has borrowed the slot, and Ring 3 cannot access it there |
| `VmmInit.RamEnds` | kernel/mm/vmm.c:78-84 | and nothing is mapped there from 2 MB after the last frame on |
| `VmmInit.ImageIsMapped` | kernel/mm/vmm.c:68-76 | every byte of the kernel image is found at its high address, closed to Ring 3 |
| `VmmInit.ImageEnds` | kernel/mm/vmm.c:68-76 | and no page after its last byte |
| `VmmInit.LowIsIdentity` | kernel/mm/vmm.c:63-66 | the first four gigabytes translate to themselves |
| `Isolation.RunRefinesHistory` | kernel/mm/vmm.c:97-122 | over any run of maps and unmaps in any spaces, every page of every space translates as the last event that reaches it says |
| `Isolation.OthersDoNotReach` | kernel/mm/vmm.c:97-118 | user-half events in other spaces never change a space's user half |
| `Isolation.KernelHalfShared` | kernel/mm/vmm.c:143-154 | under a slot present at creation, kernel mappings made later translate alike in every space |
| `Isolation.LateSlotIsNotShared` | kernel/mm/vmm.c:143-154 | under a slot absent at creation a process never sees them |
| `Isolation.MapDeviceLate` | kernel/mm/vmm.c:160-173 | a device mapped under a slot that a process was created without is there for the kernel and not for the process |
| `Isolation.BootAndMapDevice` | kernel/mm/vmm.c:57-173 | the same on a machine that has just booted |
| `Elf.ByteOfSegment` | kernel/user/elf.c:66-73 | with disjoint segments the byte at an address is its own segment's |
| `Elf.BytesApart` | kernel/user/elf.c:13-22 | different user addresses of one process never share a physical byte |
| `Elf.Loader.EnsureUserPage` | kernel/user/elf.c:13-22 | the page ends mapped, by its old frame if it had one; other pages and other spaces are untouched and the frames spent are exactly the missing nodes |
| `Elf.Loader.StoreByte` | kernel/user/elf.c:68-73 | the address reads as the byte and nothing that was readable reads differently |
| `Elf.Loader.ElfLoad` | kernel/user/elf.c:24-78 | 0 when the header is refused; otherwise the entry point; byte b of a PT_LOAD segment reads, through the new space, as the image byte at p_offset + b below p_filesz and as zero from there to p_memsz, wherever no later segment covers it; no page is allocated twice, and everything outside the space is as before |
| `ElfFormat.HeaderIsRead` | kernel/user/elf.h:7-22 | of any file header laid out field by field, exactly ELF64 executables for x86-64 are accepted, and entry point and program header table are the header's |
| `ElfFormat.SegmentIsRead` | kernel/user/elf.h:25-34 | a program header laid out field by field is the segment the loader sees |
| `HeapBlocks.Canonical` | kernel/mm/heap.c:83-102 | a well-formed block list is determined by its live blocks |
| `HeapBlocks.MallocWf` | kernel/mm/heap.c:58-77 | taking and splitting a block keeps the list well formed: contiguous tiling, sizes multiples of 8, no two free neighbours |
| `HeapBlocks.FreeWf` | kernel/mm/heap.c:83-102 | freeing with coalescing on both sides keeps the list well formed and removes exactly one live block |
| `HeapBlocks.GivenIsTight` | kernel/mm/heap.c:62-72 | a block is split exactly when what is left has room for a header and 8 bytes, so no more is ever wasted, and what is cut off is free, adjacent and at least 8 bytes |
| `HeapBlocks.FitIffHole` | kernel/mm/heap.c:58-80 | first fit succeeds exactly when some hole between live blocks has room for a header and the size |
| `HeapBlocks.Conservation` | kernel/mm/heap.c:114-126 | used, free and header bytes add up to the capacity |
| `HeapBlocks.RunKeepsWf` | kernel/mm/heap.c:53-102 | every run of kmalloc and kfree keeps the list well formed |
| `HeapBlocks.RunRestores` | kernel/mm/heap.c:53-102 | a run that ends with the live blocks it began with ends in the same list; one that has freed everything ends in the initial block |
| `HeapBlocks.FreeUndoesMalloc` | kernel/mm/heap.c:53-102 | freeing what was just allocated restores the list |
| `HeapBlocks.GrantsEnough` | kernel/mm/heap.c:21 | a granted block has the bytes asked for exactly when the size is at most 2^64 - 8 |
| `HeapBlocks.WrappedSizeIsGranted` | kernel/mm/heap.c:21 | the largest size succeeds on a fresh heap with an empty payload |
| `Heap.PayloadsUntouched` | kernel/mm/heap.c:53-102 | a header written by the allocator never lies in a payload that stays live |
| `Heap.KernelHeap.constructor` | kernel/mm/heap.c:38-51 | one free block spans the heap |
| `Heap.KernelHeap.Kmalloc` | kernel/mm/heap.c:53-81 | NULL exactly for size 0 or when no hole has room; otherwise one new live block at the start of the first that fits, with fewer than 40 bytes more than the aligned size, the rest being a free block right behind; all others kept, links mirrored, only headers written |
| `Heap.KernelHeap.Kfree` | kernel/mm/heap.c:83-102 | NULL does nothing; a live payload's block is freed and coalesced, links mirrored, only headers of listed blocks written |
| `Heap.KernelHeap.GetStats` | kernel/mm/heap.c:114-126 | the totals of the list, which account for the whole heap, and the largest free block |
| `SchedRing.ScheduleInv` | kernel/sched/sched.c:125-147 | a switch keeps the invariant, moves to the next task that is not done, and never to a done one |
| `SchedRing.ExitInv` | kernel/sched/sched.c:153-158 | an exiting task is done; it stays current exactly when every other task is done |
| `SchedRing.ReapNotRefused` | kernel/mm/vmm.c:214-217 | a task that is not current and has its own page table never has the active one |
| `SchedRing.RunIsSafe` | kernel/sched/sched.c:18-158 | over every run: one ring with the boot task at its head, current running or done, others ready or done, CR3 and rsp0 the current task's, and no done task ever switched to |
| `SchedRing.IdsKeepRising` | kernel/sched/sched.c:125-158 | ids rise along the ring, which keeps the order of creation, through switches and exits |
| `SchedRing.CreateIds` | kernel/sched/sched.c:80-88 | a new task with the next id keeps them rising |
| `SchedRing.ReapIds` | kernel/sched/sched.c:18-25 | and so does a reap |
| `SchedRing.RoundRobin` | kernel/sched/sched.c:125-147 | in n steps on a ring of n every live task runs, and between two turns of one task every other live task has a turn |
| `Sched.Scheduler.constructor` | kernel/sched/sched.c:38-48 | a ring of the boot task alone |
| `Sched.Scheduler.PickNext` | kernel/sched/sched.c:128-135 | the skip loop ends at the next live task, or where it began |
| `Sched.Scheduler.Schedule` | kernel/sched/sched.c:125-147 | the linked circle refines the step machine; CR3 is right although it is reloaded only when page tables differ |
| `Sched.Scheduler.TaskExit` | kernel/sched/sched.c:153-158 | refines the exit step |
| `Sched.Scheduler.HasOtherRunnable` | kernel/sched/sched.c:160-167 | true exactly when another task is not done |
| `Sched.Scheduler.Append` | kernel/sched/sched.c:84-90 | the task joins at the end of the circle |
| `Sched.Scheduler.Unlink` | kernel/sched/sched.c:21-25 | the task leaves the circle and every other task keeps its order |
| `Context.Cpu.ContextSwitch` | kernel/sched/context_switch.asm:9-26 | six registers go to the old stack below the return address, its pointer is saved, and registers and return address come from the new stack |
| `Context.SuspendedIsKept` | kernel/sched/context_switch.asm:9-26 | whatever other tasks do on their own stacks, a suspended task's stack and saved pointer stay as they are |
| `Context.ResumesWhereItLeft` | kernel/sched/context_switch.asm:9-26 | over any interleaving of switches a resumed task has the stack pointer, callee-saved registers and return address it had when it left |
| `Context.PrimeStack` | kernel/sched/sched.c:96-111 | the stack is one from which six pops and a return give zero registers and the trampoline, and two more pops the arguments in order; only the 72 bytes below the top are written |
| `Context.FirstResume` | kernel/sched/task_entry.asm:13-22 | from such a stack, after any interleaving of other tasks, the first resume reaches the trampoline with zeroed registers and the two arguments still to be popped |
| `Machines.StacksDisjoint` | kernel/sched/sched.c:50-52 | in a valid system the kernel stacks of all tasks are disjoint: they lie in different live heap blocks, and the boot stack outside the heap |
| `Machines.Computer.Tick` | kernel/sched/sched.c:125-151 | whenever schedule picks another task, that task can be resumed, and the switch is a step of a run of context switches on disjoint stacks |
| `Machines.Computer.Exit` | kernel/sched/sched.c:153-158 | the same for an exit |
| `Machines.Computer.Spawn` | kernel/sched/sched.c:93-123 | besides what spawning does to the world: the saved stack pointer of the new task, its primed stack with entry point and user stack top, no other word written, and every suspended task still resumable |
| `Machines.Computer.TaskCreate` | kernel/sched/sched.c:50-91 | the same for a kernel task, with its entry point and task_exit |
| `Machines.Computer.Reap` | kernel/sched/sched.c:18-34 | the tasks that are left can still be resumed |
| `Machines.Computer.Work` | kernel/sched/context_switch.asm:9-26 | whatever the running task writes outside other tasks' stacks is a step of the run too, and leaves all others resumable |
| `Machines.FirstTurn` | kernel/sched/task_entry.asm:13-22 | a task of a valid machine with a primed stack reaches its trampoline on its first turn, whatever runs in between |
| `Worlds.MinusTenants` | kernel/sched/sched.c:18-34 | taking a task and its holdings out leaves all others theirs |
| `Worlds.StepKeepsNet` | kernel/sched/sched.c:18-158 | every spawn, reap, switch and exit keeps what is left when all processes are taken out, up to frames that leak |
| `Worlds.RunReturnsEverything` | kernel/sched/sched.c:18-158 | over every interleaving, whenever only the boot task is left, spaces, used frames, live blocks and tasks are what they were before the first spawn, plus what leaked |
| `Lifecycle.System.LoadProgram` | kernel/main.c:119-125 | a new space with the program in it, or 0 with spaces and used frames as before |
| `Lifecycle.System.MapStack` | kernel/main.c:127-128 | the stack page is mapped and no other page changes; one frame is left without an owner exactly when a segment touches the page |
| `Lifecycle.System.TaskCreateUser` | kernel/sched/sched.c:93-123 | two new live heap blocks and a ready task at the end of the ring that holds them, whose kernel stack top is the end of its own block aligned down to 16 bytes |
| `Lifecycle.JoinedIds` | kernel/sched/sched.c:112-123 | the new task has an id higher than all others |
| `Lifecycle.System.TaskCreate` | kernel/sched/sched.c:50-91 | the same, stack top included, with a space of its own and nothing leaked |
| `Lifecycle.System.Spawn` | kernel/main.c:118-131 | a refused program changes nothing; otherwise the world without the new task is the old one, plus one frame exactly when a segment touches the stack page; its kernel stack top is that of its own block; off the stack page byte b of a segment reads as the image byte at p_offset + b, or zero past p_filesz |
| `Lifecycle.System.Tick` | kernel/sched/sched.c:149-151 | a switch changes nobody's holdings, and rsp0 is the aligned end of the running task's own live stack block |
| `Lifecycle.System.ExitCurrent` | kernel/sched/sched.c:153-158 | an exit changes nobody's holdings, and rsp0 is again the running task's own |
| `Lifecycle.System.Reap` | kernel/sched/sched.c:18-34 | NULL and the boot task are refused; otherwise the world loses exactly the task, its space and its two blocks, the teardown is not refused and the number of frames freed is right |
| `Lifecycle.System.RunProgram` | kernel/shell.c:185-193 | spawn, any switches and exits, and the reap: the world and the block list end as they were, exactly when no segment touches the stack page; otherwise one frame is lost |
| `Lifecycle.OverlapIsLoadable` | kernel/main.c:127-128 | there is a loadable image that touches the stack page |
| `Script.FramesAreEnough` | kernel/user/elf.c:66-73 | four frames for every byte of a program, and six more, are enough to spawn it |
| `Script.BigBlockServes` | kernel/mm/heap.c:53-81 | a free block with room for a task struct, a header and a stack is enough for both allocations, wherever first fit puts them |
| `Script.Play` | kernel/sched/sched.c:18-158 | over any script of spawns, new tasks, switches, exits and reaps on the objects themselves: what is left without processes never changes but for leaked frames, none if all programs keep off the stack page; whenever only the boot task is left, the world and the block list are back |
| `Program.SegmentIsUserRange` | kernel/user/elf.c:16-19 | a spawned program's segments pass the range check for reading and writing |
| `Program.SegmentIsPrinted` | kernel/syscall/syscall.c:20-35 | byte j of what the write system call prints of a segment is the image byte at p_offset + from + j, or zero past p_filesz |
| `Syscall.Kernel.CopyFromUser` | kernel/mm/uaccess.c:17-23 | all bytes in order and success exactly when the range is accessible, otherwise an error and nothing copied |
| `Syscall.Kernel.CopyToUser` | kernel/mm/uaccess.c:25-31 | afterwards the user reads the source at the destination and all else unchanged, or an error and nothing changed |
| `Syscall.Kernel.SysWrite` | kernel/syscall/syscall.c:20-35 | prints exactly the bytes in order and returns the count, or prints nothing and returns the error |
| `Syscall.Kernel.WriteChunk` | kernel/syscall/syscall.c:27-32 | a chunk of a checked range is always copied: the early return of the loop is unreachable |
| `Fat32.Init` | kernel/fs/fat32.c:58-102 | mounts exactly FAT32 boot sectors of 512-byte sectors, with the geometry of the sector's fields; the data start wraps at 32 bits |
| `Fat32Format.BootSectorIsRead` | kernel/fs/fat32.h:10-41 | of a boot sector laid out field by field, the checks and the geometry are about the right fields |
| `Fat32Format.FatEntryIsRead` | kernel/fs/fat32.c:104-122 | a cluster's entry is the low 28 bits of the four bytes at 4 * (c % 128) of FAT sector c / 128 |
| `Fat32Format.DirentIsRead` | kernel/fs/fat32.h:55-68 | a directory entry laid out field by field shows its name, its cluster from both words, its size and the directory bit, or is passed over, or ends the directory |
| `Fat32.DataLayout` | kernel/fs/fat32.c:179-183 | cluster 2 starts the data region, the sectors of a cluster follow one another and so do the clusters |
| `Fat32.SectorsApart` | kernel/fs/fat32.c:179-183 | different sectors of clusters are different sectors of the disk while their numbers stay below 2^32 |
| `Fat32.EntriesApart` | kernel/fs/fat32.c:104-122 | entries of different clusters do not overlap on disk |
| `Fat32.ReadFile` | kernel/fs/fat32.c:167-205 | on every disk the read ends, and returns the size exactly when the buffer is large enough and every needed sector, of at most 1024 chain clusters, is valid and readable; the buffer then holds their bytes |
| `Fat32.SizeFits` | kernel/fs/fat32.c:167-205 | a file that can be read is small enough for the int result |
| `Fat32Names.FormatName` | kernel/fs/fat32.c:5-19 | base and extension without padding, in at most 13 bytes with the terminator |
| `Fat32Names.FormattedIs` | kernel/fs/fat32.c:5-19 | the base without padding, and a dot and the extension only if there is one |
| `Fat32Names.FormatRoundTrip` | kernel/fs/fat32.c:5-19 | the directory form of a well-formed name can be recovered from what is printed |
| `Fat32Names.FormatInjective` | kernel/fs/fat32.c:5-19 | different well-formed names are printed differently |
| `Fat32Names.StrEq` | kernel/fs/fat32.c:125-128 | equality of C strings |
| `Fat32Dir.ListRoot` | kernel/fs/fat32.c:21-56 | prints the lines of the root directory up to its end, an unreadable sector or the guard |
| `Fat32Listing.ListingIs` | kernel/fs/fat32.c:21-56 | what is printed are exactly the entries shown, in the order of clusters, sectors and entries, before the first terminator, unreadable sector, invalid cluster or 66th cluster |
| `Fat32Dir.Find` | kernel/fs/fat32.c:130-165 | returns the cluster and size of the first line with the name, on every disk |
| `Fat32Dir.FirstMatchMeans` | kernel/fs/fat32.c:130-165 | there is a match exactly when some line has the name, and it is the first one |
| `Fat32Dir.FindAgreesWithList` | kernel/fs/fat32.c:21-165 | looking a name up succeeds exactly when the listing prints it |
| `Gfx.StoredBytes` | kernel/gfx/gfx.c:136-143 | a 24-bit mode keeps blue, green and red |
| `Gfx.OverlayColors` | kernel/gfx/gfx.c:153-157 | X is black, a dot is white, anything else is transparent |
| `Gfx.ShapeAtIs` | kernel/gfx/gfx.c:148-154 | the cursor is 11 by 17 points from its position on |
| `Gfx.InkedIsBit` | kernel/gfx/gfx.c:115 | the leftmost pixel of a glyph row is its highest bit |
| `Gfx.GlyphIs` | kernel/gfx/gfx.c:106-107 | glyphs from space to tilde, a question mark for the rest |
| `Gfx.Screen.Clip` | kernel/gfx/gfx.c:88-94 | the points of the clipped rectangle are those of the rectangle on screen; false exactly when there are none |
| `Gfx.Screen.FillRect` | kernel/gfx/gfx.c:96-102 | exactly the visible points take the color |
| `Gfx.Screen.DrawChar` | kernel/gfx/gfx.c:104-118 | exactly the visible points of the cell show the glyph |
| `Gfx.Screen.ScrollUp` | kernel/gfx/gfx.c:124-133 | the visible rows move up and the freed ones are filled, although rows are overwritten in place |
| `Gfx.Screen.OverlayCursor` | kernel/gfx/gfx.c:146-158 | the cursor's opaque pixels inside the rectangle are painted and nothing else |
| `Gfx.Screen.Present` | kernel/gfx/gfx.c:170-187 | the visible part shows back buffer and cursor; nothing else on screen changes |
| `Gfx.Screen.CursorSet` | kernel/gfx/gfx.c:160-168 | the invariant survives the move, although it is broken in between |
| `Gfx.Screen.Play` | kernel/gfx/gfx.c:96-187 | over any run, every point not drawn to since it was last presented shows the drawings so far with the cursor where it is now |
| `Gfx.Screen.DirtyMeans` | kernel/gfx/gfx.c:96-187 | the points a run leaves out are exactly those drawn to since they were last presented |

## Left out

- Interrupts inside schedule, kmalloc and drawing: every operation is one atomic step, although yield reaches schedule with interrupts on (kernel/sched/sched.c:149-151).
- The TLB, invlpg, and the choice between identity map and HHDM pointers: tables are abstract memory. `VmmInit.RamIsAtHhdm` is what makes that choice immaterial.
- Out of memory where the code does not check for it (kernel/mm/vmm.c:42, kernel/mm/vmm.c:147, kernel/user/elf.c:17, kernel/main.c:127, kernel/sched/sched.c:51-52): enough free frames or heap are a precondition, counted exactly by the paths still missing.
- Elf.Loader.ElfLoad: program headers and segments lie inside the image and the user half (`Elf.Loadable`); the loader does not check that, and reads or maps whatever the numbers say.
- Vmm.AddressSpaces.MapPageIn: the page belongs to the space itself, so not a kernel-half page through a process PML4, which would hang private tables where the teardown never looks; and a process is given a frame that is in use and not yet part of a tree, as all callers do.
- Vmm.AddressSpaces.UnmapPageIn: likewise not a kernel-half page through a process PML4.
- VmmInit.MapHuge: the 2 MB slot holds nothing yet, as in vmm_init.
- Page-table bytes and user bytes are two maps, not one memory; that a user byte is never stored in a table is proved (`Elf.LeafIsNoTable`), that a table write never hits a user byte follows from the same ownership but is not stated.
- Bytes of user pages outside every segment: fresh frames are not zeroed (kernel/user/elf.c:16-19), so nothing is said of them.
- VmmInit.Init: RAM up to 127.5 TB, so that the HHDM stays below the last PML4 slot, and a kernel image that ends below 2^64.
- The nest of four teardown loops is one method for all levels (`Vmm.AddressSpaces.FreeTable`, `FreeChildren`, `FreeChild`), and zeroing a table is one assignment.
- Lifecycle.System.TaskCreateUser: the first stack frame and the saved rsp of the new task are in `Machines.Computer.Spawn`.
- Lifecycle.System.TaskCreate: the first stack frame and the saved rsp are in `Machines.Computer.TaskCreate`; and the space is taken before the heap blocks, from an independent allocator.
- Machines.Computer.Tick: asks that the running task is on its own stack with room for six registers when it enters the scheduler.
- Lifecycle.System.Reap: the task to reap is in the queue and not the current one, which task_reap expects of its caller and does not check.
- Pmm.FrameAllocator.constructor: asks that the bitmap, the reserved bytes and the module end below the top of RAM, since marking a frame beyond it would write past the bitmap.
- Fat32.SizeFits: is about mounted disks, where a cluster has at most 255 sectors because the field is one byte.
- pmm_use_hhdm (kernel/mm/pmm.c:202-204): it repoints the bitmap through a variable that nothing shown assigns; the model has one bitmap.
- Reserving the boot information once the machine is up, and parsing Multiboot2 tags: regions and module are inputs.
- vmm_map_mmio, heap_map_region and heap_dump.
- Wrap-around of region ends and bitmap addresses at 2^64 in pmm_init, and of 32-bit coordinates in gfx: integers are unbounded there.
- The byte layout of video memory: a pixel is one value, its low 24 bits in a 24-bit mode; rows do not overlap.
- Gfx.Screen.ScrollUp: scrolling by a negative distance, which no caller does and which would read outside the buffer.
- The bitmaps of the font and of the cursor (any tables of that shape will do), and gfx_draw_text.
- The disk is a function from sectors to data or failure; ATA polling is behind it.
- kprintf, the VFS, the shell, the desktop, drivers, GDT and IDT packing, and boot code.
