# Peachos: a verified model of the kernel's core

Peachos is a small 32-bit teaching kernel. This project models the parts of it
whose correctness spans many functions and proves what they promise:

- **Memory.** The block heap (`HeapTable`, `KernelHeap`), two-level paging built
  from single heap blocks (`PageTables`, `Paging`) and the memory map of a
  process (`AddressSpaces`, `Kernel`). The heap's one-byte-per-block table is
  shown to stand for a map from first block to length. Physical memory is one
  array of pages indexed by heap block, so that page tables do not alias each
  other or a program's pages is *derived* from the heap's invariant: masking an
  entry with `0xfffff000` recovers a table because blocks are 4096-aligned, and
  two tables differ because two live allocations do.
- **Tasks.** Register frames (`Registers`), the task list (`TaskList`), and the
  interrupt handlers, scheduler and process loader (`Kernel`). Every kernel
  method is tied to a step of the state machine in `World`; the theorems about
  whole runs (separation, transparency of context switches, round robin) are
  proved there, over arbitrary interleavings of user code, stores through the
  page tables, clock ticks, faults, system calls, process loads and other kernel
  allocations.
- **Files.** The sector streamer (`Streamer`), the FAT16 cluster-chain reader and
  record reader (`Fat16`), directories and 8.3 names (`Directory`, `CStrings`).
  The specification of a file is the concatenation of its clusters. `Opening` is
  the walk along a parsed path, `Loading` reads a program into new memory.
- **Paths.** What a path means (`Paths`), and the cursor parser with its
  heap-allocated list and destructor (`PathParser`).

Objects the kernel updates in place are classes whose methods carry `modifies`
clauses; each is proved against a function of the old state, and the properties
are proved about those functions. Ghost parameters name the heap block behind an
address. `Bits` defines C's `|` and `&` on natural numbers bit by bit.

Steps exist only from user mode: where the code does not get interrupted user code
back there, a run ends, and the run theorems say exactly when that happens.

Integers are unbounded, so 32-bit wrap-around is written out: rounding a size up
to whole blocks, the page addresses of a fresh directory (the offset reaches
2^32 after the last table), ranges that wrap past the last page.

## Where the code falls short of its promise

These were found false in general. The code is modelled as it is; a lemma gives a
concrete failing input or family and another the exact condition.

| promise | fails when | exact condition |
|---|---|---|
| first fit | the table ends in a free run that is too short (`ShortTrailingRun`); the code then writes past its table and leaves a chain that is no allocation (`CutChainRepresentsNothing`) | `FirstFitIff`, `MarkingRepresentsIff` |
| rounding a size up to blocks | the size is in the last page of 32-bit sizes | `BlocksForExact` |
| a stream read delivers the disk's bytes | it crosses a sector boundary from inside a sector: the rest comes from the stack behind the sector buffer (`StreamLeavesBuffer`) | `StreamsBytesIff` |
| a cluster read is a slice of the file | it crosses a cluster boundary from inside a cluster (`CrossingReadsWrong`), or a sector boundary from inside a sector (`OverReadsWrong`) | `ReadIsSliceIff`, for records `RecordsAreSliceIff` |
| a chain is walked as the FAT standard says | an entry on it is contested: 12-bit constants are used among the 16-bit ones | `StopsDiffer`, `WalksAgreeIff` |
| loading lists every directory entry in use | a deleted entry precedes one in use (`DeletedFirstLosesEntry`), or the clusters are not consecutive and the sectors behind the first one count differently (`FragmentedLosesEntry`) | `LoadListsAllIff` |
| a resumed task has the registers it was interrupted with | an exception pushed an error code (`ErrorCodeShiftsFrame`) | `ResumesAsInterrupted`, `SwitchesAreTransparent` |
| interrupted user code goes on in user mode | an error code moved other words into the places of its selectors (`WriteFaultLeavesUserMode`), or the interrupt was on vector 0, whose handler returns to it in the kernel's code segment (`VectorZeroLeavesUserMode`) | `SavedSelectorsIff`, `Interrupt`, over whole runs `RunKeeps` |
| an address leads back to its block | it lies 2^31 bytes or more behind the heap's start | `AddressRoundTrip` |
| a program's memory holds its file and zeros | the size is no multiple of 4096: `kzalloc` clears only the bytes asked for, so the last page ends in what the memory held before | `ProcessLoadBinary` (`HoldsFile`) |
| opening a path fails cleanly | a component that is neither first nor last is missing, or a directory on the way has a chain too short for its entries | `ReadsNullIff`, `ReadsFreedIff` |
| an exception ends the faulting process only | its slot has been given to another process since it was ended before | `InterruptHandler` |
| interrupts are pushed on the kernel's stack | a flat binary of 512 or more pages lies over it | `KernelStackIff` |
| removal keeps the doubly linked list | any but the last task is removed | `Remove` |

## Model

| member | source | states |
|---|---|---|
| HeapTable.FirstFitIff | src/memory/heap/heap.c:72-105 | the block search answers a first fit (least start of a free run of the requested length, or -ENOMEM when there is none) if and only if a fitting run exists or the last block of the table is taken |
| HeapTable.ShortTrailingRun | src/memory/heap/heap.c:99-104 | a concrete table on which the search hands out a run shorter than the request |
| HeapTable.SingleBlockAlwaysFits | src/memory/heap/heap.c:72-105 | requests for one block always meet the condition of the first-fit theorem |
| HeapTable.CutChainRepresentsNothing | src/memory/heap/heap.c:112-131 | a chain cut off by the end of the table makes the table stand for no set of allocations at all |
| HeapTable.MarkingRepresentsIff | src/memory/heap/heap.c:133-150 | answering a request leaves a table that stands for some allocations if and only if a fitting run exists or the last block is taken |
| HeapTable.TakeRepresents | src/memory/heap/heap.c:112-131 | marking a free run taken adds exactly one allocation, disjoint from all others, and keeps the representation invariant |
| HeapTable.FreeRepresents | src/memory/heap/heap.c:152-164 | following HAS_NEXT from the first block of a live allocation removes exactly that allocation and keeps the invariant |
| HeapTable.FreeBytes | src/memory/heap/heap.c:152-164 | freeing changes the bytes of the freed allocation and no other byte |
| HeapTable.TakeThenFree | src/memory/heap/heap.c:112-164 | allocating and freeing again restores the table byte for byte |
| HeapTable.TableDeterminesLive | src/memory/heap/heap.c:112-131 | a table represents at most one set of allocations, so the chain bits lose nothing |
| HeapTable.LiveDeterminesTable | src/memory/heap/heap.c:112-131 | a set of allocations has at most one table, so equal allocations mean equal bytes |
| HeapTable.Conservation | src/memory/heap/heap.c:112-164 | free blocks plus the lengths of all live allocations equal the table's total |
| HeapTable.TakeCount | src/memory/heap/heap.c:112-131 | taking n blocks lowers the number of free blocks by n |
| HeapTable.RunSurvives | src/memory/heap/heap.c:72-150 | a first fit of n blocks leaves m consecutive free blocks whenever n + m consecutive ones existed |
| HeapTable.OneRunServes | src/memory/heap/heap.c:72-150 | one run as long as several requests together answers them all, one after the other, by first fits |
| HeapTable.RunRepresents | src/memory/heap/heap.c:28-181 | in every state of every run of mallocs and frees the table is tiled by free bytes and disjoint chains, and no block is lost |
| HeapTable.LiveBytesStable | src/memory/heap/heap.c:112-181 | an allocation that stays live keeps all its table bytes through any interleaving of other mallocs and frees |
| KernelHeap.BlocksForExact | src/memory/heap/heap.c:55-65 | a size is covered by its blocks, and by no fewer, exactly for sizes up to 2^32 - 4096; above that the request wraps to zero blocks |
| KernelHeap.Heap.AddressRoundTrip | src/memory/heap/heap.c:107-169 | an address inside a block leads back to that block if and only if its distance from the heap's start fits an int, and otherwise to one 2^20 lower (2^20 - 1 inside the block); block addresses are 4096-aligned |
| KernelHeap.Heap.GetStartBlock | src/memory/heap/heap.c:72-105 | the search loop computes the abstract start block for every table and request, zero included |
| KernelHeap.Heap.MarkBlocksTaken | src/memory/heap/heap.c:112-131 | in place: exactly the given blocks inside the table become one chain, 0x41 for a single block, otherwise 0xc1, 0x81 and so on, 0x01 |
| HeapTable.EntryFormat | src/memory/heap/heap.c:67-131 | the bytes of a chain in numbers: 0x41 alone, otherwise 0xc1, 0x81 and so on, 0x01; a block is free if and only if the low half of its byte is zero |
| KernelHeap.Heap.MarkBlocksFree | src/memory/heap/heap.c:152-164 | in place: frees along HAS_NEXT and stops after the first block without it |
| KernelHeap.Heap.Malloc | src/memory/heap/heap.c:133-176 | for every request: null and no change when the search finds nothing; the first fit, previously free and at its aligned address, when there is one; and on a short trailing run that run's address, with the cut-off chain written. The heap stays valid if and only if the last case does not arise |
| KernelHeap.Heap.Free | src/memory/heap/heap.c:178-181 | any address that leads to the first block of a live allocation frees that allocation alone |
| KernelHeap.HeapCreate | src/memory/heap/heap.c:7-53 | success exactly for aligned ends and a table of the right length, and then an empty valid heap; otherwise -EINVAGR and an untouched table |
| KernelHeap.KheapInit | src/memory/heap/kheap.c:10-22 | the kernel's constants give a valid heap of 25600 free blocks at 0x1000000 |
| PageTables.IndexesInjective | src/memory/paging/paging.c:56-69 | no two pages share a pair of directory and table indexes |
| PageTables.AlignsToPages | src/memory/paging/paging.c:71-86 | aligning goes to the next page boundary, round the end of the address space if need be; aligning down to the one before |
| PageTables.Ram.SetPteKeeps | src/memory/paging/paging.c:151-180 | setting one entry changes that page's entry alone and no block outside the directory's tables |
| PageTables.MapPagesFrame | src/memory/paging/paging.c:98-110 | mapping any number of pages leaves the directory block and every block that is not one of its tables unchanged |
| PageTables.MapPagesExact | src/memory/paging/paging.c:98-149 | after mapping a range its k-th page holds phys + 4096k with the flags, also across the wrap of either address, and every other page keeps its entry |
| Bits.PageMask | src/memory/paging/paging.c:37-38 | masking with 0xfffff000 drops exactly the twelve flag bits |
| Bits.OrBits | src/memory/paging/paging.c:18-22 | the modelled bitwise or sets exactly the bits of either operand |
| Bits.AndBits | src/memory/paging/paging.c:37-38 | the modelled bitwise and keeps exactly the bits of both operands |
| Paging.EntryParts | src/memory/paging/paging.c:18-22 | or-ing flags into a page address is addition, and masking recovers the address |
| PageTables.WritableBitsAre | src/memory/paging/paging.h:10-12 | an entry allows user writes if and only if its three lowest bits, present, writable and user, are set |
| Paging.Machine.Kzalloc | src/memory/heap/kheap.c:29-37 | an allocation in which every byte below `size`, and so every word wholly below it, is zero, with every other byte of memory unchanged |
| Paging.ZeroedClears | src/memory/heap/kheap.c:29-37 | each byte of an allocation from `kzalloc` below the size asked for is zero, whatever the memory held |
| Paging.ZeroedKeepsTail | src/memory/heap/kheap.c:29-37 | behind the size asked for, memory from `kzalloc` is as it was before |
| Paging.Machine.Kfree | src/memory/heap/kheap.c:39-42 | an allocation's own address frees exactly that allocation |
| Paging.Machine.FillTable | src/memory/paging/paging.c:13-20 | one table ends up mapping 1024 consecutive pages to themselves, other blocks unchanged |
| Paging.Machine.PagingNew4gb | src/memory/paging/paging.c:7-25 | 1026 blocks that were free become a chunk, a directory and 1024 distinct tables mapping every page to itself; all other memory and allocations are unchanged |
| Paging.FreshIsIdentity | src/memory/paging/paging.c:7-25 | for any 8-bit flags and every virtual address, aligned or not, a fresh directory translates it to itself, and the low entry bits are the flags |
| Paging.Machine.PagingGetPhysicalAddress | src/memory/paging/paging.c:182-197 | the lookup through both levels is the abstract translation, for aligned and unaligned addresses |
| Paging.Machine.PagingSet | src/memory/paging/paging.c:151-180 | -EINVAGR and no change for an unaligned address; otherwise exactly that page's entry is set |
| Paging.Machine.PagingMap | src/memory/paging/paging.c:88-96 | refuses unaligned addresses without change, otherwise maps one page |
| Paging.Machine.PagingMapRange | src/memory/paging/paging.c:98-110 | the loop maps exactly `count` pages; nothing for a non-positive count, an error before any change for unaligned addresses |
| Paging.Machine.PagingMapTo | src/memory/paging/paging.c:112-149 | success exactly for three aligned addresses with phys <= phys_end, and then the whole range is mapped; otherwise no change |
| Paging.MapRangeExact | src/memory/paging/paging.c:98-149 | with flags below 4096 and no wrap, exactly the range holds its physical pages with those flags, and a directory made of other blocks is unaffected |
| Paging.TranslatesMapped | src/memory/paging/paging.c:98-197 | after a range is mapped, every address in it, aligned or not, translates to the same place of the physical range, and every other address as before |
| Paging.Machine.PagingFree4gb | src/memory/paging/paging.c:33-44 | frees exactly the 1026 blocks the directory owns |
| Paging.DirectoryLifetime | src/memory/paging/paging.c:7-149 | creating a directory, any sequence of mappings in it and freeing it leave the heap table byte for byte as before |
| AddressSpaces.WritableExactly | src/task/process.c:403-464 | a task can write a page if and only if it lies in its program or stack range, and then it reaches its own allocation, block for block |
| AddressSpaces.WritableRange | src/task/process.c:403-464 | in numbers: a task can write pages 0x3fb to 0x3fe, its four stack blocks in order, and the pages of its program from 0x400 on, in order, and no others |
| AddressSpaces.ReadableEverywhere | src/task/task.c:217-225 | every page is present for user code, and each one it cannot write is read-only and mapped to itself |
| AddressSpaces.BackingOnto | src/task/process.c:403-464 | every block of the program and stack allocations is reached by a writable page |
| AddressSpaces.WriteSeparation | src/task/process.c:403-464 | no physical page is writable through two tasks, nor through two pages of one task |
| AddressSpaces.WritesStayHome | src/task/process.c:403-464 | what a task can write belongs to no other live allocation of the kernel |
| AddressSpaces.WritesMissTables | src/memory/paging/paging.c:7-25 | no task can write a page table, directory or chunk of any task, its own included |
| AddressSpaces.KernelStackIff | src/kernel.c:133-134 | a task's directory leaves the kernel's interrupt stack page alone if and only if its program has fewer than 512 pages |
| AddressSpaces.UserStoreKeeps | src/task/process.c:403-464 | a store by user code keeps the invariant over all tasks and changes no page of another task |
| AddressSpaces.GrewKeeps | src/memory/heap/kheap.c:29-37 | any further allocation keeps the invariant and is no task's |
| AddressSpaces.ExtendsKeeps | src/memory/heap/kheap.c:29-37 | any number of allocations, and writes to them, keep the invariant, and none of them is a task's |
| AddressSpaces.MapMemoryMapped | src/task/process.c:403-464 | on a fresh directory the two mappings give exactly the expected entry at each of the 2^20 pages |
| AddressSpaces.LoadKeeps | src/task/process.c:503-574 | loading one more process keeps the invariant and everything allocated before |
| Registers.InterruptEntry | src/idt/idt.asm:40-59 | the pushes of processor and pushad lay the registers out as the interrupt frame: edi, esi, ebp, esp, ebx, edx, ecx, eax, then an error code if there is one, then ip, cs, flags, esp, ss |
| Registers.InterruptExit | src/idt/idt.asm:56-58 | popad and iret give back the registers the frame was made from, selectors cut to 16 bits |
| Registers.RestoreGeneralPurposeRegisters | src/task/task.asm:50-62 | the seven offsets pick the seven registers saved at them |
| Registers.TaskReturn | src/task/task.asm:9-47 | for selectors 0x1b and 0x23 it reaches user mode with every register as saved and interrupts enabled; for code selector 8 and a data selector that can be read through it goes on in the kernel, on the kernel's stack; and otherwise faults |
| Registers.ResumedExactly | src/task/task.asm:24-27 | resuming gives back exactly what was saved if and only if interrupts were enabled and the selectors fit 16 bits; it always enables interrupts |
| Registers.ResumedIsUserIff | src/task/task.asm:36-47 | a task resumes in user mode if and only if its saved selectors are the user ones |
| Registers.ErrorCodeShiftsFrame | src/idt/idt.asm:40-59 | a concrete exception after which the saved task would resume at the error code |
| Registers.SavedSelectorsIff | src/task/task.c:125-139 | saving keeps the user selectors if and only if no error code was pushed or the words shifted into their places end in them |
| Registers.ResumesAsInterrupted | src/task/task.c:125-139 | saving and resuming gives a user-mode task its registers back if and only if no error code was pushed |
| Registers.ReturnsAsInterrupted | src/task/task.asm:9-47 | through save and return a user-mode task gets its registers back if and only if no error code was pushed, and user mode if and only if its selectors were kept |
| TaskList.Task.SaveState | src/task/task.c:125-139 | the saved registers are those of the interrupted code whenever no error code was pushed, and the shifted ones otherwise |
| TaskList.TaskList.Append | src/task/task.c:25-61 | the list is extended at its end, stays well formed in both directions, and the turn stays where it was |
| TaskList.TaskList.GetNext | src/task/task.c:63-71 | the successor in list order, the first task after the last |
| TaskList.TaskList.Unlink | src/task/task.c:73-89 | forward order without the task, head and tail correct; only the successor's back link is stale |
| TaskList.TaskList.Remove | src/task/task.c:73-94 | traversal becomes the old order minus the task and the turn passes to its successor, the new head or nobody; both directions are intact if and only if the last task was removed |
| TaskList.TaskList.SetCurrent | src/task/task.c:118-120 | the turn moves to the given member of the list |
| World.EventKeeps | src/idt/idt.c:28-68 | every step (user code, store, clock, fault, vector 0, system call, load, kernel allocation) keeps all tasks' memory and the turn with its own directory; it ends in user mode if and only if it is not vector 0 and no switch to a task without user selectors |
| World.SelectorsFollowTraps | src/idt/idt.c:28-68 | in every state of every run a task's saved selectors are the user ones if and only if no earlier switch took them |
| World.RunKeeps | src/idt/idt.c:28-68 | in every state of every run all tasks' memory is as it should be and the turn has its own directory loaded; the system is in user mode if and only if no earlier switch took the current task's selectors and the last event was not on vector 0 |
| World.EntersProgram | src/task/task.asm:9-47 | returning to a task that has not run yet enters its program: ip 0x400000, for a binary in the first page of its own program; esp 0x3ff000, with the word below it at the end of its own writable stack; all general registers zero, interrupts on |
| World.FirstResumption | src/task/task.c:217-240 | in every run, the first switch to a task that was loaded during the run enters its program in that way |
| World.RunStaysInUserMode | src/idt/idt.c:28-68 | a run without error codes and without vector 0 never leaves user mode |
| World.WriteFaultLeavesUserMode | src/task/task.asm:9-47 | a one-step run: the one task there is, at 0x400008, writes to a read-only page and does not get back to user mode; if its stack pointer ends in a readable selector it goes on in the kernel's code segment, at the error code |
| World.VectorZeroLeavesUserMode | src/idt/idt.c:41-81 | a one-step run: a task that raises vector 0 goes on at its own ip, with its own directory, in the kernel's code segment |
| World.RunSeparates | src/task/process.c:403-464 | in every reachable state a task's rights are to write exactly its program and stack, in blocks of its own, never a table of any task and never a page another task can write; and the state is in user mode, where rights bind, if and only if the current task is clean and did not just raise vector 0 |
| World.StepSparesOthers | src/task/task.c:106-139 | a step leaves registers, directory and memory of every suspended task alone |
| World.Suspended | src/task/task.c:106-139 | from being switched away until being chosen again, a task's saved registers are those of its interrupt and its memory is untouched |
| World.SwitchesAreTransparent | src/idt/idt.c:28-68 | a task that gets the turn back has its directory and all its pages as at the interrupt that took it, whatever happened in between; it has its twelve registers back if and only if no error code was pushed, and runs in user mode if and only if its selectors were kept |
| World.RingPosition | src/task/task.c:63-71 | after any stretch of a run without loads the turn has moved round the ring by the number of switches |
| World.ResumptionsAreChoices | src/task/task.c:106-116 | every choice in a run resumes the chosen task in user mode, except possibly the last |
| World.RoundRobin | src/task/task.c:63-116 | over as many switches as there are tasks the turn comes back to the first, and every task is resumed in user mode exactly once; the first one if and only if no switch took its selectors |
| World.LoadIsStep | src/task/process.c:503-574 | allocations on top of those there are, a fresh directory on top of these and the two mappings make a step of the state machine |
| World.LoadAddsTask | src/task/process.c:503-574 | such a step keeps all tasks' memory as it should be, the new one's included, and leaves everything allocated before alone |
| World.GrewIsHeapStep | src/memory/heap/kheap.c:29-37 | an allocation for anyone else is a step of the state machine that touches no task |
| World.FreeIsHeapStep | src/memory/heap/kheap.c:39-42 | so is freeing an allocation that is no task's |
| Kernel.Kernel.TaskSwitch | src/task/task.c:118-123 | the task becomes current and its own directory is loaded; nothing else changes |
| Kernel.Kernel.TaskNext | src/task/task.c:106-116 | the next task in the ring gets the turn with its saved registers and its own directory, in user mode if and only if its saved selectors are the user ones |
| Kernel.Kernel.SaveCurrent | src/task/task.c:176-185 | only the current task's saved registers change |
| Kernel.Kernel.TaskPage | src/task/task.c:187-192 | the current task's directory is loaded again and the turn stays |
| Kernel.Kernel.RunFirstEverTask | src/task/task.c:202-215 | the first task of the list gets the turn; if it has not run yet it enters its program at 0x400000 with esp 0x3ff000, on its own stack, all general registers zero; with freshly loaded tasks a run can start |
| Kernel.Kernel.Deschedule | src/idt/idt.c:28-36 | saving the current task and going on with the next is exactly the switch of the state machine |
| Kernel.Kernel.InterruptHandler | src/idt/idt.c:28-68 | by vector, also raised in software: on vector 0x20 the turn passes to the next task in the list, the old one saved with the interrupted registers, the new one's directory loaded and its saved registers returned to; below 0x20 the same, after the process's slot is emptied and with the frame the error code shifted; above 0x20 registers, turn, directory and saved registers are as before. Each is a step of the state machine, in user mode afterwards under its exact condition. Only the faulting process leaves the table if and only if the slot is its own or empty |
| Kernel.Kernel.TurnPassed | src/idt/idt.c:62-68 | what a switch of the state machine means for list position, saved registers, directory and processor |
| Kernel.Kernel.IdtZero | src/idt/idt.c:41-81 | entered without a wrapper, the handler of vector 0 returns to the interrupted code in the kernel's segments 8 and 0x10, on the kernel's stack: a step that leaves user mode |
| Kernel.Kernel.Interrupt | src/idt/idt.c:70-95 | an interrupt on any vector, through its gate, is a step of the state machine: on 1 to 0x20 the turn passes to the next task, on 0x80 the same task goes on with only eax changed, on all others but 0 nothing changes; it ends in user mode if and only if it is not on vector 0 and did not switch to a task without user selectors |
| Kernel.Kernel.HandleException | src/idt/idt.c:56-60 | ending the process and going on with the next task is exactly the switch of the state machine |
| Kernel.Kernel.Isr80h | src/idt/idt.c:123-151 | the caller resumes as it was except for eax, which holds the command's result, or zero for an unknown command |
| Kernel.Kernel.UserStore | src/memory/paging/paging.c:18-22 | walking the tables as the processor does, a user store succeeds if and only if it lies in the task's program or stack, and otherwise changes nothing |
| Kernel.Kernel.GetFreeSlot | src/task/process.c:466-475 | the lowest empty slot, or -EISTKN if and only if all twelve are in use |
| Kernel.Kernel.ProcessSwitchToAny | src/task/process.c:179-189 | the process in the lowest slot in use becomes current; no change when there is none |
| Kernel.Kernel.ProcessTerminate | src/task/process.c:194-245 | the process leaves its slot, and if it was current another one takes its place; no other process is lost if and only if the slot is its own or empty |
| Kernel.Kernel.KernelZalloc | src/memory/heap/kheap.c:29-37 | allocating in a running kernel keeps its validity and touches no task |
| Kernel.Kernel.KernelFree | src/memory/heap/kheap.c:39-42 | freeing what is no task's keeps validity and touches no task |
| Kernel.Kernel.LoadData | src/task/process.c:329-401 | a binary lies in pages of its own exactly as read; an ELF file allocates nothing |
| Kernel.Kernel.AllocateProcess | src/task/process.c:503-541 | if the heap can answer each request, process, program and stack memory are live allocations no task uses, and the program's pages are still as read |
| Kernel.Kernel.TaskNew | src/task/task.c:25-61 | with 1027 free blocks anywhere: a task with ip 0x400000, esp 0x3ff000, the user selectors and everything else zero, and a fresh directory of its own, last in a well-formed list, other tasks unchanged |
| Kernel.Kernel.CreateProcess | src/task/process.c:503-551 | process, program, stack, task and fresh directory are made in stages that leave everything allocated before alone |
| Kernel.Kernel.ProcessMapMemory | src/task/process.c:403-464 | for both file types the directory ends up mapping program (if any) and stack and nothing else |
| Kernel.ProcessReady | src/task/process.c:503-541 | after both allocations the invariant holds, the process can be mapped, and its image is intact |
| Kernel.LoadedSpace | src/task/process.c:503-574 | from the first allocation of a load to its last mapping, the invariant over all tasks is kept and extended by the new one |
| Kernel.Kernel.LoadProcess | src/task/process.c:503-560 | process and task refer to each other, the task is queued last, and all tasks' memory is as it should be with the new one added |
| Kernel.Kernel.LoadForSlot | src/task/process.c:503-574 | -EISTKN and no change for a slot in use; otherwise, if the heap can answer each request of the load, a load step of the state machine, with the slot filled, the image at the program's pages and the new task at its entry point |
| Kernel.RunIsRoom | src/task/process.c:503-541 | the heap can answer a load if one run holds process, program and stack and enough further blocks are free anywhere |
| Loading.ReadWhole | src/fs/file.c:252-274 | reading a file of the given size from its start gives exactly its bytes if its chain is long enough, and -EIO otherwise |
| Loading.ProcessLoadBinary | src/task/process.c:329-374 | the program's memory is newly allocated and holds, byte by byte, the file and behind it what the memory held before, if the file's chain is long enough; otherwise -EIO with the heap byte for byte as before |
| Loading.FileBytes | src/task/process.c:329-374 | byte k of the memory is byte k of the file, and behind the file the byte that was there |
| Loading.FileWords | src/task/process.c:329-374 | each word of the program in memory is four bytes of the file, lowest first |
| Streamer.InBufferIff | src/disk/streamer.c:22-47 | every round of a read stays inside its sector buffer if and only if the read starts a sector or lies inside one |
| Streamer.StreamLeavesBuffer | src/disk/streamer.c:34-38 | every other read delivers a byte of the stack behind the first sector |
| Streamer.StreamsBytesIff | src/disk/streamer.c:22-47 | a read delivers the disk's bytes on every disk and stack if and only if it starts a sector or lies inside one |
| Streamer.DiskStream.Seek | src/disk/streamer.c:16-20 | the stream stands at the given position |
| Streamer.DiskStream.Read | src/disk/streamer.c:22-47 | for every position and length the recursive read copies sector by sector, running on behind its buffer where the source does, and advances by the length; if it stays in the buffer it writes exactly the disk's bytes |
| Fat16.StopsDiffer | src/fs/fat16/fat16.c:406-427 | the markers tested agree with the FAT standard except on the contested entries |
| Fat16.RootIsWhereLaidOut | src/fs/fat16/fat16.c:205-220 | laying out reserved sectors, each copy of the table and the root directory one after the other, the sectors of the root directory are exactly those between its computed start and the first cluster |
| Fat16.EntriesAreInFirstTable | src/fs/fat16/fat16.c:360-385 | the entry of a cluster is two bytes in the first copy of the table, at twice its number |
| Fat16.ClustersFollow | src/fs/fat16/fat16.c:355-358 | behind that layout every sector belongs to exactly one cluster, numbered from 2 without gap or overlap |
| Fat16.OwnVolume | src/boot/boot.asm:10-21 | on the repository's own volume the root directory starts at sector 712 and cluster 2 at sector 716 |
| Fat16.WalksAgreeIff | src/fs/fat16/fat16.c:396-439 | the walk agrees with the standard's, cluster by cluster and error by error, if and only if no entry it looks at is contested |
| Fat16.Volume.GetFatEntry | src/fs/fat16/fat16.c:365-392 | the two bytes at twice the cluster's number behind the reserved sectors, lowest first, whatever position the stream was left at |
| Fat16.Volume.GetClusterForOffset | src/fs/fat16/fat16.c:396-439 | the cluster of the chain that holds the offset, or -EIO if the chain ends before |
| Fat16.Volume.ReadInternal | src/fs/fat16/fat16.c:441-486 | for every request the recursion over clusters writes what the abstract walk delivers, independent of the shared streams' positions |
| Fat16.DeliversSlice | src/fs/fat16/fat16.c:441-486 | an admissible read (inside one sector, or starting a sector and inside one cluster, or starting a cluster) gives exactly bytes [offset, offset + total) of the chain if it is long enough, and -EIO otherwise, whatever lies on the stack |
| Fat16.SliceOfContents | src/fs/fat16/fat16.c:441-486 | such a slice is a piece of the concatenated cluster contents |
| Fat16.CrossingReadsWrong | src/fs/fat16/fat16.c:455-470 | for every sector-aligned read that crosses a cluster boundary from inside a cluster there is a disk on which it delivers other bytes |
| Fat16.OverReadsWrong | src/disk/streamer.c:34-38 | for every read that crosses a sector boundary from inside a sector there are a disk and a stack on which it delivers other bytes |
| Fat16.ReadIsSliceIff | src/fs/fat16/fat16.c:441-486 | the read is right on all disks and stacks if and only if it is admissible |
| Fat16.Volume.Read | src/fs/fat16/fat16.c:736-757 | all records are delivered and the position advances by size times count, or an error with the position unchanged |
| Fat16.RecordsAreSlice | src/fs/fat16/fat16.c:736-757 | reading n admissible records delivers one slice of the file, and succeeds if and only if the chain is long enough |
| Fat16.RecordsAreSliceIff | src/fs/fat16/fat16.c:736-757 | reading n records is right on all disks and stacks if and only if every record is admissible |
| Fat16.RecordsCompose | src/fs/fat16/fat16.c:736-757 | reading n records and then m is reading n + m |
| CStrings.Strnlen | src/stringos/stringos.c:25-35 | the length of the text, at most max |
| CStrings.Istrncmp | src/stringos/stringos.c:49-62 | for texts that are terminated or at least n long: zero if and only if the first n characters are pairwise equal or the same letter as capital and small; otherwise the difference of the characters at the first place where they are not |
| CStrings.ToLowerIff | src/stringos/stringos.c:3-11 | two characters are equal in lower case if and only if they are equal or the k-th capital and the k-th small letter |
| Directory.ToProperString | src/fs/fat16/fat16.c:301-318 | the field up to its first blank, terminated, and nothing else in the buffer |
| Directory.GetFullRelativeFilename | src/fs/fat16/fat16.c:320-330 | the buffer holds NAME or NAME.EXT, trimmed, as a terminated text |
| Directory.DecodeEncode | src/fs/fat16/fat16.c:301-353 | an entry written as the FAT standard says is read as written: first cluster, subdirectory and deleted marks, and name with extension |
| Directory.MatchesEncoded | src/fs/fat16/fat16.c:581-596 | such an entry matches a query if and only if the query is its name, up to case |
| Directory.FindItemInDirectory | src/fs/fat16/fat16.c:561-596 | an item made from the last entry whose full name is the query, letter by letter up to case (a directory as loaded, or a file's entry), or none if and only if no entry is |
| Directory.NewItem | src/fs/fat16/fat16.c:561-579 | a directory comes with its listing or a dangling pointer, exactly as loading it says; any other entry as it is |
| Directory.LookupFindsTheEntry | src/fs/fat16/fat16.c:581-596 | with unique names the search finds the entry of that name, wherever it is |
| Directory.GetTotalItemsForDirectory | src/fs/fat16/fat16.c:158-203 | the number of entries in use before the first end marker |
| Directory.LoadFatDirectory | src/fs/fat16/fat16.c:517-559 | null for a file; for a subdirectory as many entries along its cluster chain as are in use before the end marker behind its first cluster, or a dangling pointer if and only if the chain is too short for them |
| Directory.LoadedArePrefix | src/fs/fat16/fat16.c:517-559 | on consecutive clusters the entries loaded are the first so many raw entries |
| Directory.GetRootDirectory | src/fs/fat16/fat16.c:205-255 | all raw entries of the root directory, byte by byte those behind the reserved sectors and all copies of the table, and how many of them are in use |
| Directory.RootCountFits | src/fs/fat16/fat16.c:205-255 | the count stays within the root directory's entries if its end marker does, and with nothing deleted only then |
| Directory.LookupInRoot | src/fs/fat16/fat16.c:581-596 | the entries searched in the root directory are those in use if and only if the deleted ones come last, and then a lookup of a unique name finds it |
| Opening.GetDirectoryEntry | src/fs/fat16/fat16.c:598-625 | on the list of a parsed path, component by component: the abstract walk, with its null and dangling reads |
| Opening.FoundIff | src/fs/fat16/fat16.c:598-625 | opening finds an item if and only if the successive lookups of all components do, and it is the same item |
| Opening.FoundAlongWay | src/fs/fat16/fat16.c:598-625 | opening finds an item if and only if there is an entry for each component, the last of its name in the root directory or in the listing of the directory before it, and the item is that of the last entry |
| Opening.ReadsNullIff | src/fs/fat16/fat16.c:598-625 | it reads through a null pointer if and only if a component that is neither first nor last is missing from a directory that was reached and listed |
| Opening.ReadsFreedIff | src/fs/fat16/fat16.c:598-625 | it reads memory already given back if and only if the path goes on in a directory whose chain is too short |
| Directory.PrefixIsLiveIff | src/fs/fat16/fat16.c:188-196 | the first so many entries of a list as are in use are those in use if and only if the deleted ones come last |
| Directory.LoadListsAllIff | src/fs/fat16/fat16.c:517-559 | loading lists exactly the entries in use along the chain if and only if as many were counted in the sectors behind the first cluster, and the deleted ones come last |
| Directory.ConsecutiveListsAllIff | src/fs/fat16/fat16.c:517-559 | in consecutive clusters, a single one included, the two counts agree and the deleted entries alone decide |
| Directory.FragmentedLosesEntry | src/fs/fat16/fat16.c:517-559 | a directory in two pieces, nothing deleted, that loses its last entry |
| Directory.ItemListsAllIff | src/fs/fat16/fat16.c:561-579 | the item made for a subdirectory carries exactly its entries in use under the condition of the listing theorem |
| Directory.DeletedFirstLosesEntry | src/fs/fat16/fat16.c:188-196 | a two-entry directory that loses its only entry in use |
| Directory.LookupInDirectory | src/fs/fat16/fat16.c:517-596 | in a directory that is listed in full, fragmented or not, a lookup gives the one entry in use of that name, or none when there is none |
| Directory.LookupInConsecutive | src/fs/fat16/fat16.c:517-596 | the same for consecutive clusters with the deleted entries last |
| Paths.PartsAreSplit | src/fs/pparser.c:33-75 | the components taken are the '/'-split of the tail up to its first empty component |
| Paths.SplitIff | src/fs/pparser.c:33-47 | the split is the one list of components without '/' that gives the text back when joined again |
| Paths.ParseSomeIff | src/fs/pparser.c:8-125 | a text parses if and only if it is at most 108 characters and starts with digit, colon, slash; drive and components are then those of the text |
| Paths.ProgramPath | src/fs/pparser.c:89-125 | the parse of a concrete path with two components |
| Paths.PartsAreValid | src/fs/pparser.c:33-56 | components are non-empty, without slash or NUL, and no longer than the path |
| Paths.PartsOfJoin | src/fs/pparser.c:33-75 | splitting undoes joining |
| Paths.ParseRender | src/fs/pparser.c:89-125 | parsing the rendering of a drive digit and valid components gives them back |
| Paths.RenderParse | src/fs/pparser.c:89-125 | rendering what was parsed is no longer than the original and parses to the same path |
| PathParser.CopyPart | src/fs/pparser.c:33-47 | the buffer holds the next component, never overrun, and the cursor stands behind its slash |
| PathParser.GetPathPart | src/fs/pparser.c:33-56 | one new buffer with the component, or for an empty component null and an unchanged heap |
| PathParser.ParsePathPart | src/fs/pparser.c:58-75 | one new node linked behind the last, in two blocks of its own, or null and an unchanged heap |
| PathParser.GetDriveByPath | src/fs/pparser.c:8-24 | the drive digit if and only if the path starts with digit, colon, slash; otherwise -EBADPATH |
| PathParser.Strlen | src/stringos/stringos.c:13-23 | the number of characters before the terminator |
| PathParser.AddPart | src/fs/pparser.c:117-121 | one round of the loop extends list, names and occupied blocks by one component, or leaves all three alone |
| PathParser.AddParts | src/fs/pparser.c:117-121 | the loop appends exactly the remaining components, each in two distinct blocks |
| PathParser.Parse | src/fs/pparser.c:89-125 | null with an unchanged heap if and only if the path is invalid; otherwise a list that says what the path means and occupies exactly its own blocks |
| PathParser.Free | src/fs/pparser.c:77-87 | gives back exactly the blocks a parsed path occupies |
| PathParser.ParseThenFree | src/fs/pparser.c:77-125 | parsing any path and freeing the result leaves the heap table byte for byte as before, trailing slashes and empty components included |

## Left out

- Heap.Malloc: what a cut-off chain overwrites in the memory behind the table is not part of the model; callers ask that the request does not run into that case.
- Malloc of zero blocks returns the address of a block it does not reserve; freeing such a pointer is not modelled (`Free` requires a live allocation).
- Allocation failure in `paging_new_4gb`, `task_new`, `process_load_for_slot`, directory loading and the path parser: null pointers are not checked or memory is leaked there, so `PagingNew4gb`, `LoadForSlot` and `Parse` ask that every request can be answered.
- `process_load_elf` is a stub returning success, so every file is loaded as ELF today. The flat-binary case is modelled for sizes above zero: `ProcessLoadBinary` reads the file, and loading a process takes the pages it leaves as a parameter.
- `fopen` beyond the walk to the entry, `fclose`, the descriptor slots, `fat16_seek` and `fat16_stat`: local bookkeeping. SEEK_CUR is not bounded in the code.
- `process_free_process` is not implemented in the kernel: a terminated process leaves the process table but its task stays in the list and keeps its turns, and the model does the same.
- `task_free`: its directory release and list removal are proved separately; a second removal after one that left a stale back link is not modelled.
- FindItemInDirectory: items of earlier matches are leaked by the code; memory of items is not modelled.
- LoadFatDirectory: requires an end marker somewhere behind the first cluster, because the counting loop does not end without one.
- GetRootDirectory: requires an end marker somewhere from the root directory on, for the same reason; it may lie behind the root directory's entries (`RootCountFits`). Searching more entries than were read is not modelled.
- Reads are not limited to the file's size, in the code or in the model; a read past the end delivers the rest of the last cluster.
- ReadInternal: requires that its offsets and the positions of the pieces it takes fit the C type int, as do the directory reads; beyond that the code overflows.
- What the processor does once interrupted user code does not go on in user mode (a fault in the kernel, or the task's code in the kernel's segment) is not modelled: a run ends there. The segment registers ds to gs are taken as `task_return` loads them; `idt_zero` is entered with the user's.
- Interrupts are modelled as if their frames lay outside the tasks' pages. For a program of 512 or more pages they do not (`KernelStackIff`); no program that large can be loaded today, since none is mapped.
- The bytes behind the stream's sector buffer are one unknown function of the position read; that they may also differ between two reads at one position is not modelled.
- Isr80h: the command functions are a map from number to result; what they print or read is not modelled.
- Nested interrupts cannot occur (all gates are interrupt gates) and are not modelled; neither are the TLB, the data segment registers, the TSS, the PIC and port I/O.
- UserStore: stores are word-aligned words; user memory is modelled as words of heap pages, and `memset` works on words.
- The kernel's own page directory is an address; its blocks are ordinary live allocations, so no task can write them by `WritesStayHome`.
- ATA polling, the terminal, keyboard, boot code, GDT and IDT packing and the unlinked ELF parser: no properties beyond local encodings. Code that is commented out in the repository is not modelled.
- The sizes of `struct process` and `struct task` (9364 and 64 bytes) are those of the i686 layout, written as constants.
