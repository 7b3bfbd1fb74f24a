# Verification of the kernel's core algorithms

A model, in Dafny, of the dense parts of a small RISC-V Sv39 kernel and of its C library, with proofs
about them. `dafny verify dfyconfig.toml` checks everything.

The model keeps the form of the code. What the kernel updates in place is a class whose methods are the
C functions, loop by loop; each method is proved against a specification made of functions and relations
on values, and what those specifications promise is proved as lemmas.

## What is modelled

**Physical memory.** `Buddy` is the buddy allocator with its two arrays (`bitmap`, `ref_cnt`). Its
specification (`BuddySpec`, over the tree arithmetic of `BuddyTree`) is a set of allocated nodes and a
count per frame. The bitmap is at all times the one function (`BuddyTree.Expected`) of that set: a node
with no allocated ancestor-or-self holds the size of the largest free block below it, an allocated node
holds 0, and everything below an allocated node holds its full size, which is what `buddy_free` relies on
when it climbs. `FixSize` is the rounding to powers of two.

**Virtual memory.** Three layers. `CowSpec` flattens each address space to one map from pages to entries and
gives fork, faults, stores and unmapping on it, next to a machine that copies every page eagerly at fork.
`CowProof` and `CowTheorems` prove that the first refines the second over all runs. `PageTable` has the
three-level tables in frames, and `Kernel.Machine` is the code of `vm.c`, `trap.c`, `vma.c`, `do_fork` and
`sys_brk` on such tables, in one memory that says what each frame of the allocator holds, and on the
allocator object of `Buddy`; each of its operations is proved to be one step (`CowTheorems.Next`) of the
flat machine, or a run of them, so the theorems about runs apply to it. `BrkTheorems` says what `sys_brk`
means for its caller. Memory keeps the invariant that frames which nobody has allocated are zero
(`KernelSpec.RamOk`): `alloc_page` does not clear them, and page tables and anonymous pages rely on it.
`PteCodec` ties the fields of entries to their bits, `PteMemory` these to bytes in memory. The layout is
that of the RISC-V Privileged Architecture (20211203), sections 4.3.2 and 4.4.1.

**FAT32.** `Fat32.Driver` reads and writes through sectors; `Fat32Spec` has the flat content of a cluster
chain, and reads and writes as slices and splices of it. `Fat32Layout` derives the byte offsets from the
fields of the two on-disk structures.

**Arithmetic.** `Division` has the division and multiplication routines on 64-bit registers, against the
sections 7.1 and 7.2 of the RISC-V Unprivileged ISA (20191213).

**Scheduler, heap, formatted input and output.** `Scheduler` (ticks and epochs), `Heap` (`malloc` and `free`
over `sbrk` and `sys_brk`), `Numerals`, `Output` and `Printf` (`vsnprintf` with its whole format language
but `%n` and positional arguments), `PrintfTheorems` (what formats mean by the C standard), `Scanf` (`%d`).

## Findings

The code is modelled as it is. Where it does not do what its comments or its purpose suggest, the exact
condition under which it does is proved.

- Copy-on-write agrees with copying everything at fork, at every point of a run, if and only if every fork of
  the run is asked of a process whose pages are all among those that the copy loop of `do_fork` visits
  (`CowTheorems.AgreesIffForksCover`; `CowProof.ForkIsEagerCopy` for one fork). Two kinds of runs miss it:
  - `find_vma` accepts the end address of an area (arch/riscv/kernel/proc.c:199), the copy loop stops before it
    (arch/riscv/kernel/proc.c:298). A page touched only at that address is lost to the child
    (`CowTheorems.StoreAtAreaEndIsLostByFork`). For the stack the end is USER_END itself, whose page is indexed
    by the kernel's half of the root table (`KernelSpec.UserEndIsInTheStackArea`).
  - `do_vma_munmap` sets the end of the area to the end of the range, not to its start
    (arch/riscv/kernel/vma.c:25), so a store behind a lowered break still finds the heap; a later, smaller
    `sys_brk` moves the end below the page it has touched. In `CowTheorems.StoreBehindBreakIsLostByFork` every
    access lies below the end of its area, and the child still loses a page that its parent sees;
    `KernelSteps.BrkRunIsSysBrk` says that the moves of this run are `sys_brk`'s.
- `sys_brk` grows the heap without a look at the other areas (arch/riscv/kernel/ksyscalls.c:122-124). They stay
  apart if and only if the new end stays below the start of every area behind the heap
  (`KernelSpec.LongerAreaFits`); in `KernelSpec.HeapMayCoverStack` the heap grows over the stack.
- mm.h says that `free_pages` releases memory (arch/riscv/include/mm.h:33-38). `buddy_free` does nothing as
  long as the block is counted, and every allocated block is: `Buddy.Allocator.FreePages` leaves a counted
  block alone, and called on an uncounted frame it leaves the allocator inconsistent.
- `next_cluster` reduces the offset of a FAT entry modulo 128, not 512 (fs/fat32.c:23), knows only sectors of
  512 bytes (fs/fat32.c:21) and the first FAT, and does not mask the reserved upper four bits of the entry
  (fs/fat32.c:24). On every FAT32 volume in the sense of Microsoft's FAT32 specification (v1.03;
  `Fat32Spec.FatVolume`) it reads a cluster's entry where the sections "Boot Sector and BPB" and "FAT Data
  Structure" put it if and only if BPB_BytsPerSec is 512, BPB_ExtFlags leaves the first FAT in use, and
  `cluster % 128 < 32` (`Fat32Spec.EntriesAreWhereTheyShould`). Under that condition, and under no other, it
  finds the standard's next cluster for all FATs whose reserved bits are clear
  (`Fat32Spec.NextClusterIsStandard`); on a given disk, if and only if the reserved bits of the entry are clear
  (`Fat32Spec.NextClusterOnDisk`). Volumes on which each of these goes wrong are in
  `Fat32Spec.LargeSectorsLoseTheChain`, `Fat32Spec.StaleFatIsFollowed` and `Fat32Spec.ReservedBitsEndTheChain`;
  what is read instead is the entry of the cluster's alias (`Fat32Spec.NextClusterReadsAlias`).
- `fat32_init` never reads BPB_BytsPerSec and multiplies the number and size of the FATs in 32 bits
  (fs/fat32.c:27-33). On every FAT32 volume it finds every cluster where the standard puts it if and only if
  sectors have 512 bytes and the FATs together have fewer than 2^32 sectors
  (`Fat32Spec.ClustersAreWhereTheyShould`); on the volume with sectors of 4096 bytes in
  `Fat32Spec.LargeSectorsAreMissed`, which `is_fat32` accepts, it misses all of them.
- `file_offset + len` may wrap (fs/fat32.c:177). The length moved is the intended minimum if and only if it
  does not, or the offset is past the end anyway (`Fat32Spec.ClampIsMinimum`).
- A `malloc` whose size wraps around the address space (user/src/memalloc.c:40-41) can be granted with too
  little memory; one that `sys_brk` refuses sets the break back to what the kernel has on record
  (arch/riscv/kernel/ksyscalls.c:107-113, user/src/syscalls.c:68). `Heap.Process.Malloc` says exactly which
  requests leave the heap in order.
- The last of several sharers of a page copies it too, and the old frame stays behind with count 1: frames
  are never released (`CowTheorems.FramesAreNeverRecycled`). This is also why frames, which `alloc_page` does
  not clear, are zero when they are handed out (`KernelSpec.FreshFrameIsZero`).
- The lines that would clear the rest of a program's last page are commented out
  (arch/riscv/kernel/trap.c:56-58). A page is loaded as its program header asks, whatever the image, if and
  only if the file part does not end inside it (`CowSpec.LoadingIsExact`); for a given image,
  `CowSpec.LoadedIsAsAsked` is exact.
- A first pass of `vsnprintf` that fails leaves the buffer untouched, without a NUL (lib/vsnprintf.c:709-711).

## Assumptions

- Areas start on page boundaries and lie on different pages, end addresses included
  (`CowProof.VmasOk`), also after an end has moved: that a growing heap stays clear of the other areas is up to
  the caller of `sys_brk`, which does not look. User addresses are below USER_END. `CowProof.Enabled` is the
  list.
- RAM is zero at boot. The TLB agrees with the page tables.
- A chain's clusters that a transfer touches are on the device, and for writes distinct; the directory entry
  of a file is in the first sector of its directory's cluster, as the code has it.

## Model

| member | source | states |
|---|---|---|
| Division.UDivDi3 | lib/div.S:73-97 | terminates for all operands; for a nonzero divisor, its top bit set or not, the quotient and the remainder of the dividend; for zero all ones and the dividend |
| Division.UModDi3 | lib/div.S:100-106 | the remainder, and the dividend for divisor zero |
| Division.DivDi3 | lib/div.S:68-123 | the signed quotient of section 7.2, with its values for zero divisors and for the overflow |
| Division.ModDi3 | lib/div.S:125-141 | the signed remainder of section 7.2, likewise |
| Division.DivSi3 | lib/div.S:62-66 | the 32-bit signed quotient, sign-extended, its overflow case included |
| Division.ModSi3 | lib/div.S:60 | the 32-bit signed remainder, by the 64-bit routine |
| Division.UDivSi3 | lib/div.S:38-46 | the 32-bit unsigned quotient computed in the upper halves of the registers |
| Division.UModSi3 | lib/div.S:48-58 | the 32-bit unsigned remainder |
| Division.QuotRem | lib/div.S:84-94 | the reference quotient and remainder satisfy the division identity |
| Division.QuotRemUnique | lib/div.S:84-94 | and no other pair does |
| Division.SpecIsTruncatedDivision | lib/div.S:68-141 | the signed reference rounds towards zero and its remainder has the dividend's sign |
| Division.TruncatedDivisionIsUnique | lib/div.S:68-141 | and is the only pair that does |
| Words.SignedIsTwosComplement | lib/div.S:68-141 | the signed value of a register is the one number in range that is congruent to it |
| Division.MulDi3 | lib/muldi3.S:36-48 | terminates with the product modulo 2^64, of the operands as unsigned and as signed numbers |
| Division.SignDoesNotMatter | lib/muldi3.S:36-48 | the low half of a product does not depend on the signs |
| FixSize.FixSize | arch/riscv/kernel/mm.c:31-40 | the least power of two at or above the argument for 1 to 2^63, and 0 for every other argument |
| FixSize.RoundPages | arch/riscv/kernel/mm.c:89-93 | a request is rounded to the least power of two that holds it, 0 counting as 1 |
| FixSize.PowerOf2TestIsCorrect | arch/riscv/kernel/mm.c:15 | the bit trick holds exactly for powers of two |
| FixSize.SmearStep | arch/riscv/kernel/mm.c:33-38 | each shift-and-or doubles the run of ones below the top bit |
| BuddyTree.AlignedRunIsNode | arch/riscv/kernel/mm.c:11-13 | every aligned run of a power of two of frames is a node of the implicit tree |
| BuddyTree.LongestIsUpperBound | arch/riscv/kernel/mm.c:62-73 | no free block below a live node is larger than the node's entry |
| BuddyTree.LongestIsAttained | arch/riscv/kernel/mm.c:62-73 | a nonzero entry of a live node is the size of a free block below it |
| BuddyTree.InsertKeepsWellFormed | arch/riscv/kernel/mm.c:112-115 | taking a free node keeps allocated nodes free of allocated ancestors |
| BuddyTree.RemoveKeepsWellFormed | arch/riscv/kernel/mm.c:60 | so does releasing one |
| BuddyTree.InsertIsLocal | arch/riscv/kernel/mm.c:117-120 | allocating a node changes the right entries of its ancestors and of nothing else |
| BuddyTree.ParentValue | arch/riscv/kernel/mm.c:69-72 | merging two halves gives the parent's right entry |
| BuddyTree.OccupiedParentValue | arch/riscv/kernel/mm.c:119 | above an allocated node the maximum of the halves is enough |
| BuddySpec.RoundedIsLeast | arch/riscv/kernel/mm.c:89-93 | the specification's rounding is the least power of two |
| BuddySpec.NextKeepsConsistent | arch/riscv/kernel/mm.c:76-123 | every operation keeps: counted frames are exactly the first frames of allocated blocks |
| BuddySpec.RunKeepsConsistent | arch/riscv/kernel/mm.c:76-187 | so the whole of every run does |
| BuddySpec.BlocksAreDisjointAndAligned | arch/riscv/kernel/mm.c:86-123 | allocated blocks are aligned, of power-of-two size, inside the memory and pairwise disjoint |
| BuddySpec.FreeMeansNoFrameAllocated | arch/riscv/kernel/mm.c:103-110 | a node is free in the tree if and only if none of its frames belongs to an allocated block |
| BuddySpec.BitmapHoldsLargestFreeBlock | arch/riscv/kernel/mm.c:42-123 | every live node's entry is the size of the largest free block below it |
| BuddySpec.FreeUndoesAlloc | arch/riscv/kernel/mm.c:54-73 | dropping the only reference of a block just allocated restores blocks and counts, and any two bitmaps that stand for the two states are equal in every element, the unused last one included |
| BuddySpec.DrainedTreeIsFull | arch/riscv/kernel/mm.c:62-73 | after any run that leaves no references, in whatever order they went, every node is full again and the root holds all of memory |
| Buddy.Allocator.constructor | arch/riscv/kernel/mm.c:125-146 | a consistent allocator of the least power-of-two size, empty and uncounted |
| Buddy.Allocator.FillFull | arch/riscv/kernel/mm.c:140-146 | the loop gives every node its full size, row by row, and leaves the last element alone |
| Buddy.Allocator.ReserveLow | arch/riscv/kernel/mm.c:148-150 | the reservation loop takes exactly the lowest frames, or runs out if there are fewer |
| Buddy.Allocator.Alloc | arch/riscv/kernel/mm.c:86-123 | runs out if and only if no free block of the rounded size exists, and otherwise takes the lowest one, with count 1 |
| Buddy.Allocator.Descend | arch/riscv/kernel/mm.c:103-110 | preferring the left half finds the lowest free block of the size |
| Buddy.Allocator.PutBlock | arch/riscv/kernel/mm.c:112-120 | the climb restores the whole bitmap |
| Buddy.Allocator.Free | arch/riscv/kernel/mm.c:42-74 | leaves counted blocks alone, releases the block that holds an uncounted frame, and corrupts the root for a frame in no block |
| Buddy.Allocator.Release | arch/riscv/kernel/mm.c:60-73 | the coalescing climb restores the whole bitmap |
| Buddy.Allocator.FreePages | arch/riscv/kernel/mm.c:165-167 | keeps the allocator consistent if and only if it does nothing |
| Buddy.Allocator.RefPage | arch/riscv/kernel/mm.c:169-177 | counts up, and fails exactly on uncounted frames |
| Buddy.Allocator.DerefPage | arch/riscv/kernel/mm.c:179-187 | counts down and releases the block when the count reaches zero, and fails exactly on uncounted frames |
| Buddy.LowFramesReserved | arch/riscv/kernel/mm.c:148-150 | after k reservations the lowest free frame is frame k, if there is one |
| Buddy.LostBlock | arch/riscv/kernel/mm.c:165-167 | releasing a block behind its count breaks consistency |
| CowProof.FindVmaIsMember | arch/riscv/kernel/proc.c:197-202 | what the search finds is an area that holds the address, its end included |
| CowProof.FindVmaFinds | arch/riscv/kernel/proc.c:197-202 | the search finds something if any area holds the address |
| CowProof.ReverseFindsSame | arch/riscv/kernel/proc.c:274-290 | the child's reversed area list finds the same area for every address |
| CowProof.MappedIsCounted | arch/riscv/kernel/trap.c:37-41 | a mapped frame has a count of at least 2, so dropping a reference neither fails nor releases it |
| CowProof.FaultStep | arch/riscv/kernel/trap.c:15-65 | a fault keeps the invariant and is the eager machine's fault |
| CowProof.PokeStep | arch/riscv/kernel/trap.c:35-51 | a permitted store keeps the invariant and is the eager machine's store |
| CowProof.UnmapStep | arch/riscv/kernel/vma.c:7-23 | unmapping a page keeps the invariant and drops that page from that process alone |
| CowProof.SetEndStep | arch/riscv/kernel/vma.c:29-31 | moving an area's end keeps the invariant, wherever the pages of the process are, and is the eager machine's move |
| CowProof.ForkStep | arch/riscv/kernel/proc.c:273-314 | fork keeps the invariant and gives the child copies of the pages the loop visits, and nothing else |
| CowProof.ForkIsEagerCopy | arch/riscv/kernel/proc.c:292-314 | fork is an eager copy if and only if every page of the parent is one the loop visits |
| CowTheorems.BootIsFine | arch/riscv/kernel/proc.c:100-151 | the invariant holds after boot |
| CowTheorems.StepRefines | arch/riscv/kernel/trap.c:31-64 | every step keeps the invariant: counts are 1 plus the mappings, writable frames are mapped once, entries of writable areas have exactly one of W and S; and every step refines the eager one |
| CowTheorems.RunKeepsInv | arch/riscv/kernel/trap.c:31-64 | the invariant holds throughout every run |
| CowTheorems.CopyOnWriteRefinesEagerCopy | arch/riscv/kernel/proc.c:292-314 | along every run whose forks visit all pages, each process sees at all times what it would see if fork copied everything at once |
| CowTheorems.AgreesIffForksCover | arch/riscv/kernel/proc.c:292-314 | for every run: each process sees at all times what it would see if fork copied everything at once, if and only if every fork visits all pages of its process |
| CowTheorems.InRangeRunsRefine | arch/riscv/kernel/proc.c:292-314 | a condition on accesses that is enough for this: they stay below the areas' ends, and no end moves below a page |
| CowTheorems.StoreAtAreaEndIsLostByFork | arch/riscv/kernel/proc.c:197-202 | a run in which a store at an area's end is lost to the child |
| CowTheorems.StoreBehindBreakIsLostByFork | arch/riscv/kernel/vma.c:24-31 | a run of break moves, one store below its area's end, and a fork, after which the child lacks the page the store is in |
| KernelSteps.BrkRunIsSysBrk | arch/riscv/kernel/ksyscalls.c:95-127 | the break moves of that run are those of three calls of `sys_brk` |
| CowTheorems.StoreIsPrivate | arch/riscv/kernel/trap.c:37-48 | no store by one process changes what another sees |
| CowTheorems.StoreFaultGrantsStore | arch/riscv/kernel/trap.c:35-51 | after a permitted store fault the page is writable, mapped by that entry alone, and the store succeeds |
| CowTheorems.LoadFaultGrantsLoad | arch/riscv/kernel/trap.c:21-64 | after a load fault in an area with VM_READ the entry is valid, readable and the user's |
| CowTheorems.FetchFaultGrantsFetch | arch/riscv/kernel/trap.c:21-64 | after a fetch fault in an area with VM_EXEC the entry is valid, executable and the user's |
| CowTheorems.RefusedFaultChangesNothing | arch/riscv/kernel/trap.c:16-30 | a load without VM_READ, a store without VM_WRITE, a fetch without VM_EXEC, and any access outside the areas leave everything as it was |
| CowTheorems.StoreIsSeen | arch/riscv/kernel/trap.c:35-51 | a store is seen at its address and at no other |
| CowTheorems.FaultKeepsBytes | arch/riscv/kernel/trap.c:35-64 | a fault changes no byte the process saw; a page brought into an anonymous area holds zeros |
| CowTheorems.FramesAreNeverRecycled | arch/riscv/kernel/mm.c:76-84 | no step releases a user frame, and counts stay 1 plus the number of mappings |
| PteCodec.EncodeDecode | arch/riscv/include/private_kdefs.h:37-45 | an entry's frame and flags come back from its bits |
| PteCodec.LeafEntry | arch/riscv/kernel/vm.c:114 | the expression that writes a leaf sets frame, permissions, V, A and D |
| PteCodec.FrameAddress | arch/riscv/kernel/trap.c:36 | the address computed from an entry is that of its frame |
| PteCodec.FrameNumber | arch/riscv/include/mm.h:8-11 | and leads back to the frame's number |
| PteCodec.ShareExpression | arch/riscv/kernel/proc.c:305 | fork's flag expression clears W and sets S |
| PteCodec.UnshareExpression | arch/riscv/kernel/trap.c:40 | the fault handler's flag expression clears S and sets W |
| PteCodec.PermsExpression | arch/riscv/kernel/trap.c:51 | an area's flags become the permissions of its pages |
| PteCodec.IndicesAreThePage | arch/riscv/include/private_kdefs.h:31-33 | user addresses share the three indices if and only if they share the page, and use the lower half of the root |
| PteMemory.IndicesAgree | arch/riscv/include/private_kdefs.h:31-33 | the three index expressions, as numbers, are the indices of the table model, for every address |
| PteMemory.StoredEntryReadsBack | arch/riscv/include/private_kdefs.h:37-45 | an entry in memory as eight bytes reads back as its frame and flags, and as no entry without V |
| PageTable.TreeReaches | arch/riscv/kernel/proc.c:221-235 | along every valid path the walk meets tables only |
| PageTable.HangKeepsLookups | arch/riscv/kernel/vm.c:101-111 | a fresh table changes no translation |
| PageTable.SetLeafTree | arch/riscv/kernel/vm.c:114 | writing a leaf keeps every user table in one place of one process |
| PageTable.SetLeafLookup | arch/riscv/kernel/vm.c:114 | the page written translates to the entry |
| PageTable.SetLeafElsewhere | arch/riscv/kernel/vm.c:113-114 | every other page of that and every other process, kernel half included, translates as before |
| KernelSpec.NewRootTree | arch/riscv/kernel/proc.c:294-295 | a root copied from the kernel's shares only kernel tables |
| KernelSpec.NewRootIsEmpty | arch/riscv/kernel/proc.c:294-295 | and maps no user page |
| KernelSteps.StillCounted | arch/riscv/kernel/vma.c:13 | the count of a mapped frame is at least 2, so dropping a reference leaves the frame allocated |
| KernelSteps.MappedFrameIsCounted | arch/riscv/kernel/trap.c:38-40 | the branch for a failing `deref_page` is never taken |
| KernelSteps.UnmapRunClears | arch/riscv/kernel/vma.c:7-21 | unmapping a range takes exactly its pages from the process and nothing from any other |
| KernelSteps.ForkPagesAppend | arch/riscv/kernel/proc.c:297-314 | the copy loop one page at a time is the copy of the list of pages |
| Kernel.Machine.constructor | arch/riscv/kernel/proc.c:100-151 | memory after boot is in order and stands for one process without pages |
| Kernel.Machine.AllocPage | arch/riscv/kernel/mm.c:161-163 | the lowest frame that is in no block, with count 1 and no other count changed; none if and only if every frame is in a block |
| Kernel.Machine.NewUserFrame | arch/riscv/kernel/trap.c:50 | a new page of a process is all zeros, by the invariant on memory and not by an assignment |
| Kernel.Machine.CopyFrame | arch/riscv/kernel/trap.c:42-44 | a new frame with the contents of a user frame; no other contents and no other count changed |
| KernelSpec.FreshFrameIsZero | arch/riscv/kernel/mm.c:161-163 | a frame in no block reads as zeros, and as an empty page table |
| Kernel.Machine.WalkPageTable | arch/riscv/kernel/proc.c:221-235 | finds the leaf entry exactly if all three levels are valid |
| Kernel.Machine.EnsureTable | arch/riscv/kernel/vm.c:101-111 | afterwards the entry leads to a table of its own, an empty one if it is new; no translation and no count in use changed |
| Kernel.Machine.MapPage | arch/riscv/kernel/vm.c:97-114 | one page mapped, everything else as before |
| Kernel.Machine.VmCreateMapping | arch/riscv/kernel/vm.c:92-123 | every page of the range translates to its frame and flags; every other page of every address space translates as before; contents and counts in use stay |
| KernelSteps.RangeIsContiguous | arch/riscv/kernel/vm.c:92-123 | byte by byte, a mapped range is one piece of physical memory from its first frame on, with the permissions asked for |
| Kernel.Machine.FindArea | arch/riscv/kernel/proc.c:197-202 | the loop computes the first area that holds the address |
| Kernel.Machine.BreakShare | arch/riscv/kernel/trap.c:35-48 | what a fault on a shared page does to tables, contents and counts |
| Kernel.Machine.LoadPage | arch/riscv/kernel/trap.c:49-64 | what a demand fault does to tables, contents and counts |
| CowSpec.LoadedIsAsAsked | arch/riscv/kernel/trap.c:52-62 | a page of a program holds the file's bytes and zeros behind them, as its header asks, if and only if the image holds zeros behind the file part within the page |
| CowSpec.LoadingIsExact | arch/riscv/kernel/trap.c:52-62 | every image is loaded as asked if and only if the file part does not end inside the page |
| Kernel.Machine.DoPageFault | arch/riscv/kernel/trap.c:15-65 | the handler on real tables is one fault step of the flat machine and keeps memory in order |
| Kernel.Machine.UnmapShared | arch/riscv/kernel/vma.c:13-19 | the branch for a shared page: a copy is made and mapped, then its entry is cleared; no other translation and no count in use changed |
| Kernel.Machine.UnmapOnePage | arch/riscv/kernel/vma.c:9-20 | one turn of the loop is one unmapping step |
| Kernel.Machine.UnmapPages | arch/riscv/kernel/vma.c:7-23 | the loop is a run of unmapping steps over the pages of the range |
| Kernel.Machine.DoVmaMmap | arch/riscv/kernel/vma.c:29-31 | moving an area's end is one step |
| Kernel.Machine.DoVmaMunmap | arch/riscv/kernel/vma.c:24-27 | moving the end to the end of the range, then unmapping it |
| Kernel.Machine.SysBrk | arch/riscv/kernel/ksyscalls.c:95-127 | what it returns and records in every case, and what it does to memory: nothing, one move of the heap's end, or a move of the end to the old break and a run of unmapping steps; every process keeps its heap |
| BrkTheorems.BrkAnswers | arch/riscv/kernel/ksyscalls.c:95-127 | a granted request answers with itself and is what the next query reports, to the page; a refused one answers with the old break, which stays |
| BrkTheorems.GrownHeapIsUsable | arch/riscv/kernel/ksyscalls.c:121-126 | after growing, every address up to the page of the new break is found in the heap |
| BrkTheorems.ShrunkHeapIsGone | arch/riscv/kernel/ksyscalls.c:115-120 | after shrinking, exactly the pages from the new break to the old one are gone, from this process alone |
| KernelSpec.HeapIsFound | arch/riscv/kernel/ksyscalls.c:116-122 | `find_vma` finds the heap at the old break, so the area passed on is never null |
| KernelSpec.LongerAreaFits | arch/riscv/kernel/vma.c:29-31 | an end that moves up keeps the areas apart if and only if it stays below the start of every area behind |
| KernelSpec.HeapMayCoverStack | arch/riscv/kernel/ksyscalls.c:122-124 | a heap that is allowed to grow over the stack, whose addresses are then found in the heap |
| KernelSpec.UserEndIsInTheStackArea | arch/riscv/kernel/proc.c:149 | `find_vma` accepts USER_END in the stack's area, though its page is in the kernel's half |
| Kernel.Machine.Store | arch/riscv/kernel/trap.c:35-51 | a store succeeds if and only if the entry permits it, and is one step |
| Kernel.Machine.LoadByte | arch/riscv/kernel/proc.c:221-235 | a load through the tables returns what the process's flat view holds |
| Kernel.Machine.LoadAfterFault | arch/riscv/kernel/trap.c:15-65 | a load that is retried after its fault succeeds in every area with VM_READ |
| Kernel.Machine.StoreAfterFault | arch/riscv/kernel/trap.c:15-65 | a store that is retried after its fault succeeds in every area with VM_WRITE, and is seen |
| Kernel.Machine.CopyAreas | arch/riscv/kernel/proc.c:273-290 | the child's areas are the parent's in reverse order |
| Kernel.Machine.SpawnChild | arch/riscv/kernel/proc.c:294-295 | the child starts with no user page |
| Kernel.Machine.ForkPage | arch/riscv/kernel/proc.c:299-311 | one turn of the loop shares one page between parent and child |
| Kernel.Machine.CopyPages | arch/riscv/kernel/proc.c:297-314 | the loops visit the areas in order, each from its start to before its end |
| Kernel.Machine.DoFork | arch/riscv/kernel/proc.c:237-329 | the whole of fork is one fork step of the flat machine and keeps memory in order |
| Fat32Spec.ContentIsConcatenation | fs/fat32.c:15-17 | the flat content is the concatenation of the chain's clusters |
| Fat32Spec.ChainPrefix | fs/fat32.c:182-185 | a shorter walk along the chain is a prefix of a longer one |
| Fat32Spec.ClampIsMinimum | fs/fat32.c:174-180 | the clamped length is the minimum of request and rest if and only if the sum does not wrap or the offset is past the end |
| Fat32Spec.ReadIsFileSlice | fs/fat32.c:160-214 | a read within the file is that slice of the file's bytes |
| Fat32Spec.SplitRead | fs/fat32.c:160-214 | a read cut in two yields the same bytes wherever it is cut, also across the end of the file or of its chain |
| Fat32Spec.ReadAtIsFileSlice | fs/fat32.c:160-214 | what is read at any offset, past the end included, is that slice of the file's bytes |
| Fat32Spec.EntriesAreWhereTheyShould | fs/fat32.c:19-25 | on every FAT32 volume a cluster's entry is read where the standard puts it if and only if sectors have 512 bytes, the first FAT is in use, and the cluster is among the first 32 of its FAT sector |
| Fat32Spec.StandardEntrySector | fs/fat32.c:20-23 | the place of the reference is that of the standard's formulas for sector and offset |
| Fat32Spec.NextClusterReadsAlias | fs/fat32.c:19-25 | the driver reads the place of the cluster's alias in a first FAT of 512-byte sectors; on volumes like that, the standard's entry of the alias |
| Fat32Spec.NextClusterOnDisk | fs/fat32.c:19-25 | on a given disk, where the right entry is read, the driver finds the standard's next cluster if and only if the entry's reserved bits are clear; where another is read, if and only if that one happens to be the right number |
| Fat32Spec.ReservedBitsEndTheChain | fs/fat32.c:24 | a FAT on which an unmasked reserved bit ends a chain that goes on |
| Fat32Spec.LargeSectorsLoseTheChain | fs/fat32.c:21 | a volume with sectors of 4096 bytes and clear reserved bits, on which the driver reads 0 where the standard goes on to cluster 3 |
| Fat32Spec.StaleFatIsFollowed | fs/fat32.c:21 | the same on a volume with 512-byte sectors on which only the second FAT is in use |
| Fat32Spec.NextClusterIsStandard | fs/fat32.c:19-25 | where the reserved bits are clear, the driver finds the standard's next cluster whatever else the FAT holds if and only if sectors have 512 bytes, the first FAT is in use, and the cluster is among the first 32 of its FAT sector |
| Fat32Spec.ChainIsStandard | fs/fat32.c:182-210 | where entries are read in their places, the driver's chain is the standard's, whose end test is a 28-bit entry from 0x0FFFFFF8 on, if and only if no reserved bits are set in an entry that goes on |
| Fat32Layout.BootFields | fs/fat32.c:27-33 | the boot sector fields used here are those of `struct fat32_bpb`, their offsets being the sizes of the fields before |
| Fat32Layout.MountedFromFields | fs/fat32.c:27-33 | the volume in terms of those fields |
| Fat32Layout.RecordedSize | fs/fat32.c:172 | if the directory's sector holds an entry in its place, field by field and little-endian, the recorded size is that entry's |
| Fat32Spec.SectorAtInjective | fs/fat32.c:15-17 | different sectors of a file of distinct clusters are different sectors of the disk |
| Fat32Spec.SectorWrite | fs/fat32.c:258-259 | writing a sector changes the file's content there and nowhere else |
| Fat32Spec.WriteKeepsChains | fs/fat32.c:216-271 | a write leaves the FAT and so every chain as it was |
| Fat32Spec.WriteUpdatesFile | fs/fat32.c:216-271 | a write along the head of a chain splices the content of the whole chain |
| Fat32Spec.ReadBack | fs/fat32.c:216-271 | a slice of a splice is what was spliced in, and every byte outside is unchanged |
| Fat32Spec.ClustersAreWhereTheyShould | fs/fat32.c:27-33 | on every FAT32 volume, every cluster is at the byte where the standard puts it if and only if sectors have 512 bytes and the FATs together have fewer than 2^32 sectors |
| Fat32Spec.LargeSectorsAreMissed | fs/fat32.c:27-41 | on a volume with sectors of 4096 bytes, which passes the signature check, every cluster is missed |
| Fat32.Driver.Mount | fs/fat32.c:27-33 | the volume described by the boot sector |
| Fat32.Driver.Next | fs/fat32.c:19-25 | the entry as the code locates it |
| Fat32.Driver.LookUpSize | fs/fat32.c:169-172 | the size recorded in the directory entry |
| Fat32.Driver.Lseek | fs/fat32.c:137-154 | the new offset for each origin, in 64-bit arithmetic |
| Fat32.Driver.Skip | fs/fat32.c:182-185 | the cluster reached is the one at that place of the chain, or the chain has ended |
| Fat32.Driver.ReadCluster | fs/fat32.c:190-206 | the sector loop copies a slice of the flat content |
| Fat32.Driver.CopyOut | fs/fat32.c:189-210 | so does the loop over clusters |
| Fat32.Driver.Read | fs/fat32.c:160-214 | terminates; the buffer receives exactly the slice of the chain's content at the offset, as long as file and chain have bytes, and the offset advances by its length |
| Fat32.Driver.ReadFrom | fs/fat32.c:182-211 | skipping and copying deliver the slice of the chain's content from the offset on |
| Fat32.Driver.WriteCluster | fs/fat32.c:246-263 | the sector loop splices the bytes into the flat content |
| Fat32.Driver.CopyIn | fs/fat32.c:245-267 | so does the loop over clusters |
| Fat32.Driver.Write | fs/fat32.c:216-271 | terminates; the chain's content is spliced with the written bytes, and no sector outside the chain changes |
| Fat32.WriteKeepsSize | fs/fat32.c:225-228 | the recorded size survives a write that does not touch the directory's cluster |
| Fat32.FileAfterWrite | fs/fat32.c:216-271 | after a write the file has the same chain and its bytes spliced |
| Fat32.OtherFileUnchanged | fs/fat32.c:216-271 | a write leaves chain and bytes of every file that shares no cluster with the written one |
| Fat32.WriteThenRead | fs/fat32.c:160-271 | writing, seeking back and reading returns the bytes written |
| Fat32.WriteSeekRead | fs/fat32.c:137-271 | for the caller of write, lseek and read: the second buffer receives what was written from the first, as many bytes as file and chain have room for, and nothing else |
| Scheduler.Tasks.Schedule | arch/riscv/kernel/proc.c:165-186 | picks the first task with the greatest counter, after at most one refill, and refills only if nobody has ticks left |
| Scheduler.Tasks.FindMax | arch/riscv/kernel/proc.c:170-175 | the first of the runnable tasks with the greatest counter, or none if all are zero |
| Scheduler.Tasks.Refill | arch/riscv/kernel/proc.c:178-182 | every counter is halved and its task's priority added |
| Scheduler.Tasks.DoTimer | arch/riscv/kernel/proc.c:156-163 | a tick takes one from the current counter and schedules when it is used up |
| Scheduler.NotTwice | arch/riscv/kernel/proc.c:176-182 | one refill is enough |
| Scheduler.TickDispatches | arch/riscv/kernel/proc.c:156-163 | after a tick the current task is runnable and has ticks left |
| Scheduler.RunsStayDispatched | arch/riscv/kernel/proc.c:156-186 | so throughout every run |
| Scheduler.KeepsProcessor | arch/riscv/kernel/proc.c:161-162 | a task with counter c keeps the processor for c ticks, and only its counter changes |
| Scheduler.GivesUpProcessor | arch/riscv/kernel/proc.c:161-162 | and is then rescheduled with counter zero |
| Scheduler.Epoch | arch/riscv/kernel/proc.c:156-186 | until the next refill each runnable task has one interval of exactly its counter's length, in the order of the counters, and the refill comes when all are through |
| Scheduler.EpochGivesPriority | arch/riscv/kernel/proc.c:156-186 | every full epoch gives each runnable task exactly priority consecutive ticks, in the order of the priorities, and ends where the next one starts |
| Scheduler.BootStartsEpoch | arch/riscv/kernel/proc.c:156-186 | the first `schedule` after boot sets the counters to the priorities and starts the first epoch |
| Scheduler.EpochsFollow | arch/riscv/kernel/proc.c:156-186 | epoch e starts at tick e times the period, for every e |
| Scheduler.Timetable | arch/riscv/kernel/proc.c:156-186 | which task has the processor at any tick after boot, for every task, epoch and tick of the epoch: j, if and only if the tick is behind those of the tasks before j and within j's priority |
| Scheduler.BoundedWaiting | arch/riscv/kernel/proc.c:156-186 | every runnable task is dispatched within the ticks left plus the priorities of the others |
| Scheduler.Tasks.AddTask | arch/riscv/kernel/proc.c:237-244 | the part of fork that concerns the scheduler: one more task, ready, without ticks; nothing changes for the others |
| Scheduler.BoundedWaitingWithForks | arch/riscv/kernel/proc.c:156-244 | along every run of ticks and forks, every task that exists, one just created included, has the processor within the bound of `Scheduler.WaitIsBounded` |
| Scheduler.WaitIsBounded | arch/riscv/kernel/proc.c:156-244 | that bound is at most the ticks left plus the priorities of all other tasks that exist by the end of the run |
| Scheduler.CountersAreBounded | arch/riscv/kernel/proc.c:180 | counters stay at most twice the greatest priority |
| Scheduler.RefillKeepsHalf | arch/riscv/kernel/proc.c:180 | a refill leaves half of the unused ticks, rounded down, on top of the priority |
| Heap.Process.constructor | user/src/memalloc.c:17 | an empty heap at the start of the break |
| Heap.Process.SysBrk | arch/riscv/kernel/ksyscalls.c:95-127 | which requests are refused, and when the kernel's record of the break changes |
| Heap.Process.Sbrk | user/src/syscalls.c:57-75 | the old break, or failure exactly when the rounded new break is below the start; where the break is afterwards |
| Heap.Process.GetFreeBlock | user/src/memalloc.c:19-28 | terminates with the first free block that is large enough, or none |
| Heap.Process.Malloc | user/src/memalloc.c:30-56 | first fit or a new block at the break; keeps the blocks tiling the heap for every request but those that wrap and are granted, or are refused and move the break, after which no list of blocks fits |
| Heap.Process.NewBlock | user/src/memalloc.c:40-55 | the part that asks for more memory |
| Heap.Process.Append | user/src/memalloc.c:45-53 | linking a block behind the last keeps list and tiling |
| Heap.Process.UnlinkTail | user/src/memalloc.c:65-74 | the scan for the last but one block terminates and the list ends there |
| Heap.Process.GiveBack | user/src/memalloc.c:65-75 | the last block goes back to the kernel |
| Heap.Process.Free | user/src/memalloc.c:58-80 | a block at the break is returned, any other is marked free; the heap stays tiled |
| Heap.BlocksAreDisjoint | user/src/memalloc.c:19-80 | blocks lie in address order without overlap between base and break |
| Heap.EndsAtBreak | user/src/memalloc.c:64 | a block ends at the break if and only if it is the last |
| Heap.MallocKeepsTiles | user/src/memalloc.c:30-56 | allocation keeps the tiling |
| Heap.FreeKeepsTiles | user/src/memalloc.c:58-80 | release keeps the tiling |
| Heap.MallocGivesRoom | user/src/memalloc.c:34-55 | the memory returned lies in a block that was not live, is large enough and overlaps no other |
| Heap.MallocPrefersLowAddresses | user/src/memalloc.c:19-39 | a free block that is large enough is taken before the heap grows, the one at the lowest address first, and every other block stays as it was |
| Heap.FreeUndoesMalloc | user/src/memalloc.c:30-80 | freeing what was just allocated restores the heap, but for a reused block at the break, which is returned |
| Heap.OneBreak | user/src/memalloc.c:63-64 | the headers fit one break only |
| Numerals.FmtU | lib/vsnprintf.c:303-310 | writes the decimal digits in front of the given place and touches nothing else |
| Numerals.FmtO | lib/vsnprintf.c:297-301 | the same in octal |
| Numerals.FmtX | lib/vsnprintf.c:291-295 | the same in hexadecimal, upper or lower case |
| Numerals.NumeralValue | lib/vsnprintf.c:291-310 | the digits denote the number |
| Numerals.NumeralShape | lib/vsnprintf.c:291-310 | they have no leading zero |
| PrintfTheorems.NumeralDigit | lib/vsnprintf.c:291-310 | every digit is the one of its weight, in lower- or upper-case letters as asked |
| Numerals.WordFits | lib/vsnprintf.c:333 | 64 bits never need more than the 24 bytes of the buffer |
| Output.Sink.Write | lib/vsnprintf.c:678-690 | the buffer holds the beginning of all that was written, leaving room for a NUL |
| Output.Sink.Pad | lib/vsnprintf.c:278-287 | pads to the width, in pieces of 256, unless the flags say otherwise |
| Output.Emit | lib/vsnprintf.c:598-603 | the six writes lay the conversion out in its field |
| Output.LayoutLength | lib/vsnprintf.c:598-603 | a field has exactly max(width, prefix + precision) characters: at most one of the three pads shows |
| PrintfTheorems.FieldMeans | lib/vsnprintf.c:589-603 | a conversion stands at the left of its field with a `-` flag, with zeros between prefix and digits with zero fill, and at the right otherwise; the rest is blanks |
| PrintfTheorems.FieldFails | lib/vsnprintf.c:589-596 | a conversion fails exactly when its argument cannot be shown or the total would exceed an int |
| Printf.GetInt | lib/vsnprintf.c:312-321 | the decimal number in the format, or -1 if it exceeds an int |
| Printf.ScanFlags | lib/vsnprintf.c:374-375 | the flags named by the longest run of flag characters |
| PrintfTheorems.FlagsMean | lib/vsnprintf.c:40-46 | each flag character sets its flag, in any order |
| Printf.KindAccepts | lib/vsnprintf.c:419-428 | the state machine accepts exactly the length modifiers and conversions of section 7.21.6.1 of ISO/IEC 9899:2011 without floating point, and selects the argument type given there |
| Printf.ArgumentArrives | lib/vsnprintf.c:216-265 | a value of the argument's type arrives as itself, whatever the register holds above it |
| Printf.ScanDirective | lib/vsnprintf.c:364-445 | flags, width, precision and conversion of a directive |
| PrintfTheorems.DirectiveRead | lib/vsnprintf.c:364-445 | every directive spelled as flags, width, precision, modifier and conversion, digits or `*`, is read as it is spelled, with the arguments it asks for |
| PrintfTheorems.WidthTooLarge | lib/vsnprintf.c:393-394 | a field width beyond an int is an error |
| PrintfTheorems.UnknownConversion | lib/vsnprintf.c:419-428 | so is a character that is no part of a directive |
| Printf.ScanLiteral | lib/vsnprintf.c:351-358 | plain text, with one percent sign for each pair |
| PrintfTheorems.TextIsOutput | lib/vsnprintf.c:339-362 | any text, with its percent signs doubled, is output as it is, wherever it stands in a format |
| PrintfTheorems.DirectiveIsOutput | lib/vsnprintf.c:364-606 | a directive is output as what its spelling means, and the rest of the format behind it |
| Printf.MakeInteger | lib/vsnprintf.c:492-532 | sign, base, prefix, precision and zero fill of the integer conversions |
| Printf.MakeShape | lib/vsnprintf.c:466-549 | the text of every conversion |
| PrintfTheorems.PrefixMeans | lib/vsnprintf.c:488-516 | sign, blank, "0x" and "0X" in front of the digits, and when |
| PrintfTheorems.ZeroFillMeans | lib/vsnprintf.c:459-523 | zero fill is the `0` flag without `-` flag and precision |
| PrintfTheorems.HexLetters | lib/vsnprintf.c:487-491 | "%x" and "%p" show lower-case letters, "%X" upper-case ones, all others decimal digits |
| PrintfTheorems.DigitCount | lib/vsnprintf.c:484-531 | how many digits a number shows, for every conversion, precision and value |
| PrintfTheorems.IntegerFails | lib/vsnprintf.c:520-521 | an integer conversion fails exactly for a precision beyond an int, but not "%#o" |
| PrintfTheorems.StringMeans | lib/vsnprintf.c:543-549 | "%s" shows the longest beginning of its argument within the precision, "(null)" for a null pointer, and fails only beyond an int |
| PrintfTheorems.CharMeans | lib/vsnprintf.c:535-538 | "%c" shows the character of the argument modulo 256 |
| PrintfTheorems.StringIsOutput | lib/vsnprintf.c:543-549 | "%s" outputs its argument, for every string an int counts |
| PrintfTheorems.NullIsOutput | lib/vsnprintf.c:543-549 | "%s" outputs "(null)" for a null pointer |
| PrintfTheorems.CharIsOutput | lib/vsnprintf.c:535-538 | "%c" outputs that character |
| Printf.IntegerDenotes | lib/vsnprintf.c:492-532 | the digits shown denote the argument in the conversion's base, with a minus sign exactly for negative values of the signed conversions, and as many digits as the precision asks for |
| Printf.Convert | lib/vsnprintf.c:466-605 | what one directive writes, and when it overflows |
| Printf.ExpandLength | lib/vsnprintf.c:589-605 | a directive counts as many characters as it writes |
| Printf.RenderFits | lib/vsnprintf.c:339-348 | the total stays within an int |
| Printf.PrintfCore | lib/vsnprintf.c:324-627 | the loop writes the rendering of the format and returns its length, or fails where the rendering fails |
| Printf.FirstPass | lib/vsnprintf.c:706 | the pass without a file fails exactly on a format malformed up to its first directive |
| Printf.FirstPassIsRight | lib/vsnprintf.c:706-712 | and then the second pass could not succeed either |
| Printf.Vsnprintf | lib/vsnprintf.c:692-718 | returns the length of the full output; the buffer holds its first min(length, size - 1) characters and a NUL, and is untouched behind it |
| PrintfTheorems.BufferIsString | lib/vsnprintf.c:678-718 | read as a string, the buffer is the output, or its first size - 1 characters |
| Printf.PrintInt | lib/vsnprintf.c:509-521 | "%d" prints a minus sign if needed and the digits without leading zeros |
| Scanf.Stream.GetC | lib/vfscanf.c:5-17 | the next character, those put back first |
| Scanf.Stream.UngetC | lib/vfscanf.c:20-23 | puts a character back in front, unless sixteen are waiting |
| Scanf.Stream.SkipWhitespace | lib/vfscanf.c:63-71 | leaves the stream just in front of the first character that is not white space |
| Scanf.SkipsExactlySpace | lib/vfscanf.c:25-28 | what is skipped is white space, the six characters of the C standard, and what is left begins with none of them |
| Scanf.Stream.ReadDigits | lib/vfscanf.c:136-141 | the value of the longest run of digits within the width, as an int |
| Scanf.Stream.ScanInt | lib/vfscanf.c:114-151 | white space, sign and digits; what is stored, and what is left on the stream, on success and on failure |
| Scanf.SpaceThenNumber | lib/vfscanf.c:114-151 | a number is read behind any white space, up to whatever is not one of the digits 0 to 9 |
| Scanf.PlusThenNumber | lib/vfscanf.c:124-131 | and likewise with a plus sign |
| Scanf.WidthCuts | lib/vfscanf.c:136-143 | a field width takes that many digits and leaves the rest |
| Scanf.NoNumber | lib/vfscanf.c:121-137 | without a digit there is no number; white space and one sign are gone all the same |
| Scanf.WrapStep | lib/vfscanf.c:138 | wrapping after every digit is wrapping once at the end |
| Scanf.PrintThenScan | lib/vfscanf.c:114-151 | an int printed with "%d" and read with "%d" is the same int, and the stream is left just behind its digits |

## Left out

- Device drivers, firmware calls, interrupts, registers and context switches; a switch is the change of `current`, the disk a sequence of sectors.
- The reset when memory runs out: `Buddy.Allocator.Alloc` returns None, the methods of `Kernel.Machine` return false and then promise nothing about processes.
- Buddy.Allocator.Alloc: asks for at most 2^63 pages; beyond that the rounded size is 0 and the descent leaves the tree.
- Reference counts and scheduling counters are unbounded numbers, not 64-bit words; for the counters `Scheduler.CountersAreBounded` shows that it makes no difference.
- Kernel.Machine.DoFork: what the kernel writes into its own records (registers, signal state, open files, scheduling fields) is a parameter; asks for a free place in the task list (the code does not check), and enters the child in the list before its pages are copied, which nothing can observe.
- Kernel.Machine.DoPageFault: asks for an address below USER_END; for USER_END itself see `KernelSpec.UserEndIsInTheStackArea`.
- Kernel.Machine.DoVmaMmap: asks that the moved end leaves areas apart, because the code does not check it; `Kernel.Machine.SysBrk` derives this for a shrinking heap and asks it for a growing one.
- Kernel.Machine.DoVmaMunmap: asks the same of the end of the range.
- Kernel.Machine.SysBrk: a growing heap stays below USER_END and clear of the areas behind it, for which `KernelSpec.LongerAreaFits` has the exact condition; the code does not check it.
- Kernel.Machine.MapPage: user addresses and the roots of processes only, which is what its callers pass.
- Kernel.Machine.VmCreateMapping: user addresses and the roots of processes only, likewise.
- Kernel.Machine.constructor: takes the areas that `do_mmap` (which runs at boot only) leaves behind, and the kernel's own tables, as given.
- CowSpec.LoadedIsAsAsked: the bytes of the program image are a parameter.
- CowTheorems.InRangeRunsRefine: gives a sufficient condition on accesses; the exact one is that of `CowTheorems.AgreesIffForksCover`.
- Signal frames, which write to user memory past the page tables; ELF loading; `create_mapping` and `setup_vm`, the boot-time twins of `vm_create_mapping`.
- Fat32.Driver.Read: takes the chain as `next_cluster` computes it, its touched clusters being on the device; path look-up and directory scans are left out.
- Fat32.Driver.Lseek: takes the three known origins; any other hangs the kernel.
- The file descriptor table, the strings of `string.c`, `rand`, the shell and the user tests: shallow.
- Printf.ScanDirective: answers Outside for `%n` and positional arguments.
- Printf.PrintfCore: `%n`, positional arguments and arguments that do not match the format give an unspecified result.
- Printf.GetInt: a number beyond an int overflows a signed int, which C leaves undefined; the model wraps around.
- Scanf.Stream.ScanInt: signed overflow wraps around, for the same reason; the format loop and the other conversions of `vfscanf` are left out.
- Scheduler.Timetable: runs of ticks in which no task is created, as for the theorems on epochs; for waiting times with forks see `Scheduler.BoundedWaitingWithForks`.
- Heap.Process.SysBrk: return value and record of the break only; what the call does to memory is `Kernel.Machine.SysBrk`.
- Heap.Process.Free: the pointer is one that `malloc` returned, as C demands.
